/**
 Reading the rows of a PPM image into the surface's memory, where a row of three-byte pixels is widened
 to four-byte pixels in place.
 */
module PpmRows {

  type Byte = n: nat | n < 256

  /** The formats by their digit: coverage, colour, and colour with alpha. */
  datatype Format = P5 | P6 | P7

  /** The bytes of a row in the file. */
  function RowBytes(format: Format, width: nat): nat {
    match format
    case P5 => width
    case P6 => 3 * width
    case P7 => 4 * width
  }

  /** The bytes of a row in memory. */
  function Footprint(format: Format, width: nat): nat {
    if format == P5 then width else 4 * width
  }

  function Word(b0: nat, b1: nat, b2: nat, b3: nat): nat {
    b0 + 0x100 * b1 + 0x1_0000 * b2 + 0x100_0000 * b3
  }

  /** A 32-bit word in memory. */
  function Load(memory: seq<Byte>, at: nat, littleEndian: bool): nat
    requires at + 4 <= |memory|
  {
    if littleEndian then Word(memory[at], memory[at + 1], memory[at + 2], memory[at + 3])
    else Word(memory[at + 3], memory[at + 2], memory[at + 1], memory[at])
  }

  /** The pixel of three bytes: shifted into disjoint places, they add up. */
  function Packed(red: Byte, green: Byte, blue: Byte): nat {
    0x1_0000 * red + 0x100 * green + blue
  }

  lemma WordOfBytes(word: nat)
    requires word < 0x1_0000_0000
    ensures word / 0x100_0000 < 0x100
    ensures Word(word % 0x100, word / 0x100 % 0x100, word / 0x1_0000 % 0x100, word / 0x100_0000) == word
  {
    var w1 := word / 0x100;
    var w2 := w1 / 0x100;
    assert w2 == word / 0x1_0000;
    assert w2 / 0x100 == word / 0x100_0000;
    assert word == 0x100 * w1 + word % 0x100 && w1 == 0x100 * w2 + w1 % 0x100 && w2 == 0x100 * (w2 / 0x100) + w2 % 0x100;
  }

  /** Memory outside the `n` bytes from `base` is as it was. */
  ghost predicate Untouched(before: seq<Byte>, after: seq<Byte>, base: nat, n: nat) {
    |before| == |after| && forall j :: 0 <= j < |before| && !(base <= j < base + n) ==> after[j] == before[j]
  }

  method Store(data: array<Byte>, at: nat, word: nat, littleEndian: bool)
    requires at + 4 <= data.Length && word < 0x1_0000_0000
    modifies data
    ensures Load(data[..], at, littleEndian) == word
    ensures Untouched(old(data[..]), data[..], at, 4)
  {
    WordOfBytes(word);
    var b0: Byte, b1: Byte, b2: Byte, b3: Byte := word % 0x100, word / 0x100 % 0x100, word / 0x1_0000 % 0x100, word / 0x100_0000;
    if littleEndian {
      data[at], data[at + 1], data[at + 2], data[at + 3] := b0, b1, b2, b3;
    } else {
      data[at], data[at + 1], data[at + 2], data[at + 3] := b3, b2, b1, b0;
    }
  }

  /** The four bytes of a pixel, in the processor's order. */
  ghost predicate ShowsPixel(memory: seq<Byte>, at: nat, red: Byte, green: Byte, blue: Byte, littleEndian: bool) {
    at + 4 <= |memory| && memory[at..at + 4] == if littleEndian then [blue, green, red, 0] else [0, red, green, blue]
  }

  lemma BytesOfWord(b0: Byte, b1: Byte, b2: Byte, b3: Byte, red: Byte, green: Byte, blue: Byte)
    requires Word(b0, b1, b2, b3) == Packed(red, green, blue)
    ensures b0 == blue && b1 == green && b2 == red && b3 == 0
  {
  }

  /** A packed word puts each byte where the pixel has it. */
  lemma PackedIsPixel(memory: seq<Byte>, at: nat, red: Byte, green: Byte, blue: Byte, littleEndian: bool)
    requires at + 4 <= |memory| && Load(memory, at, littleEndian) == Packed(red, green, blue)
    ensures ShowsPixel(memory, at, red, green, blue, littleEndian)
  {
    var s := memory[at..at + 4];
    if littleEndian {
      BytesOfWord(s[0], s[1], s[2], s[3], red, green, blue);
    } else {
      BytesOfWord(s[3], s[2], s[1], s[0], red, green, blue);
    }
  }

  /** The pixels of a row in memory, `from` onwards, are those of the three-byte row. */
  ghost predicate Widened(memory: seq<Byte>, base: nat, row: seq<Byte>, from: nat, width: nat, littleEndian: bool) {
    && base + 4 * width <= |memory| && |row| == 3 * width
    && forall x {:trigger row[3 * x]} :: from <= x < width ==>
         ShowsPixel(memory, base + 4 * x, row[3 * x], row[3 * x + 1], row[3 * x + 2], littleEndian)
  }

  /** The bytes of the first `n` pixels are still those of the three-byte row. */
  ghost predicate ToDo(memory: seq<Byte>, base: nat, row: seq<Byte>, n: nat) {
    base + 3 * n <= |memory| && 3 * n <= |row| && forall j :: 0 <= j < 3 * n ==> memory[base + j] == row[j]
  }

  lemma WidenedElsewhere(before: seq<Byte>, after: seq<Byte>, base: nat, row: seq<Byte>, from: nat, width: nat,
                         littleEndian: bool, at: nat, n: nat)
    requires Widened(before, base, row, from, width, littleEndian) && Untouched(before, after, at, n)
    requires at + n <= base + 4 * from || base + 4 * width <= at
    ensures Widened(after, base, row, from, width, littleEndian)
  {
    forall x {:trigger row[3 * x]} | from <= x < width
      ensures ShowsPixel(after, base + 4 * x, row[3 * x], row[3 * x + 1], row[3 * x + 2], littleEndian)
    {
      var i := base + 4 * x;
      assert after[i..i + 4] == before[i..i + 4];
    }
  }

  /** Writing pixel `x` leaves the earlier bytes to be read and the later pixels alone. */
  lemma OnePixel(before: seq<Byte>, after: seq<Byte>, base: nat, row: seq<Byte>, x: nat, width: nat, littleEndian: bool)
    requires x < width && Widened(before, base, row, x + 1, width, littleEndian) && ToDo(before, base, row, x + 1)
    requires Untouched(before, after, base + 4 * x, 4)
    requires var b := base + 3 * x;
             Load(after, base + 4 * x, littleEndian) == Packed(before[b], before[b + 1], before[b + 2])
    ensures Widened(after, base, row, x, width, littleEndian) && ToDo(after, base, row, x)
  {
    WidenedElsewhere(before, after, base, row, x + 1, width, littleEndian, base + 4 * x, 4);
    BytesToDo(before, base, row, x);
    PackedIsPixel(after, base + 4 * x, row[3 * x], row[3 * x + 1], row[3 * x + 2], littleEndian);
  }

  lemma BytesToDo(memory: seq<Byte>, base: nat, row: seq<Byte>, x: nat)
    requires ToDo(memory, base, row, x + 1)
    ensures var b := base + 3 * x;
            memory[b] == row[3 * x] && memory[b + 1] == row[3 * x + 1] && memory[b + 2] == row[3 * x + 2]
  {
    assert forall k :: 0 <= k < 3 * (x + 1) ==> memory[base + k] == row[k];
  }

  lemma UntouchedTwice(s: seq<Byte>, s': seq<Byte>, s'': seq<Byte>, base: nat, n: nat, at: nat, n': nat)
    requires Untouched(s, s', base, n) && Untouched(s', s'', at, n') && base <= at && at + n' <= base + n
    ensures Untouched(s, s'', base, n)
  {
  }

  /**
   Widens a row in place, last pixel first: each pixel is written behind the bytes that are still to
   be read, or over the very bytes it comes from.
   */
  method WidenRow(data: array<Byte>, base: nat, width: nat, littleEndian: bool)
    requires base + 4 * width <= data.Length
    modifies data
    ensures Widened(data[..], base, old(data[base..base + 3 * width]), 0, width, littleEndian)
    ensures Untouched(old(data[..]), data[..], base, 4 * width)
  {
    ghost var row, start := data[base..base + 3 * width], data[..];
    var x: nat, buf := width, base + 3 * width;
    while x != 0
      invariant x <= width && buf == base + 3 * x
      invariant ToDo(data[..], base, row, x) && Widened(data[..], base, row, x, width, littleEndian)
      invariant Untouched(start, data[..], base, 4 * width)
    {
      x := x - 1;
      buf := buf - 3;
      ghost var before := data[..];
      Store(data, base + 4 * x, Packed(data[buf], data[buf + 1], data[buf + 2]), littleEndian);
      OnePixel(before, data[..], base, row, x, width, littleEndian);
      UntouchedTwice(start, before, data[..], base, 4 * width, base + 4 * x, 4);
    }
  }

  /** A row of the image in memory is the row from the file. */
  ghost predicate ShowsRow(memory: seq<Byte>, base: nat, row: seq<Byte>, format: Format, width: nat, littleEndian: bool) {
    && |row| == RowBytes(format, width) && base + Footprint(format, width) <= |memory|
    && if format == P6 then Widened(memory, base, row, 0, width, littleEndian)
       else memory[base..base + RowBytes(format, width)] == row
  }

  /** Reads `n` bytes, if the file still has as many. */
  method FreadN(data: array<Byte>, base: nat, n: nat, file: seq<Byte>, pos: nat) returns (ok: bool)
    requires base + n <= data.Length && pos <= |file|
    modifies data
    ensures ok <==> pos + n <= |file|
    ensures ok ==> data[base..base + n] == file[pos..pos + n]
    ensures Untouched(old(data[..]), data[..], base, n)
  {
    ghost var start := data[..];
    var k := 0;
    while k < n && pos + k < |file|
      invariant k <= n && pos + k <= |file|
      invariant data[base..base + k] == file[pos..pos + k]
      invariant Untouched(start, data[..], base, n)
    {
      ghost var read := data[base..base + k];
      data[base + k] := file[pos + k];
      assert data[base..base + (k + 1)] == read + [file[pos + k]];
      k := k + 1;
    }
    ok := k == n;
  }

  lemma UntouchedMore(s: seq<Byte>, s': seq<Byte>, base: nat, n: nat, n': nat)
    requires Untouched(s, s', base, n) && n <= n'
    ensures Untouched(s, s', base, n')
  {
  }

  method ReadRow(data: array<Byte>, base: nat, format: Format, width: nat, littleEndian: bool, file: seq<Byte>, pos: nat)
    returns (ok: bool)
    requires base + Footprint(format, width) <= data.Length && pos <= |file|
    modifies data
    ensures ok <==> pos + RowBytes(format, width) <= |file|
    ensures ok ==> ShowsRow(data[..], base, file[pos..pos + RowBytes(format, width)], format, width, littleEndian)
    ensures Untouched(old(data[..]), data[..], base, Footprint(format, width))
  {
    ghost var start := data[..];
    ok := FreadN(data, base, RowBytes(format, width), file, pos);
    ghost var read := data[..];
    if ok && format == P6 {
      WidenRow(data, base, width, littleEndian);
      UntouchedMore(start, read, base, 3 * width, 4 * width);
      UntouchedTwice(start, read, data[..], base, 4 * width, base, 4 * width);
    } else {
      UntouchedMore(start, read, base, RowBytes(format, width), Footprint(format, width));
    }
  }

  function RowStart(y: nat, size: nat): nat {
    if y == 0 then 0 else RowStart(y - 1, size) + size
  }

  lemma {:induction false} RowsFollow(y: nat, y': nat, size: nat)
    requires y < y'
    ensures RowStart(y, size) + size <= RowStart(y', size)
  {
    if y + 1 < y' {
      RowsFollow(y, y' - 1, size);
    }
  }

  /** Row `y` in memory is row `y` of the file. */
  ghost predicate RowDone(memory: seq<Byte>, y: nat, stride: nat, file: seq<Byte>, format: Format, width: nat,
                          littleEndian: bool)
  {
    var from, n := RowStart(y, RowBytes(format, width)), RowBytes(format, width);
    from + n <= |file| && ShowsRow(memory, RowStart(y, stride), file[from..from + n], format, width, littleEndian)
  }

  /** The bytes between the `footprint` bytes of row `y` and the next row are as before. */
  ghost predicate GapUntouched(before: seq<Byte>, after: seq<Byte>, y: nat, stride: nat, footprint: nat) {
    |before| == |after| && forall j :: RowStart(y, stride) + footprint <= j < RowStart(y, stride) + stride && j < |before| ==>
      after[j] == before[j]
  }

  lemma GapStaysUntouched(start: seq<Byte>, before: seq<Byte>, after: seq<Byte>, y: nat, y': nat, stride: nat, footprint: nat)
    requires GapUntouched(start, before, y, stride, footprint) && footprint <= stride
    requires Untouched(before, after, RowStart(y', stride), footprint)
    ensures GapUntouched(start, after, y, stride, footprint)
  {
    if y < y' {
      RowsFollow(y, y', stride);
    } else if y' < y {
      RowsFollow(y', y, stride);
    }
  }

  lemma ShowsRowElsewhere(before: seq<Byte>, after: seq<Byte>, base: nat, row: seq<Byte>, format: Format, width: nat,
                          littleEndian: bool, at: nat, n: nat)
    requires ShowsRow(before, base, row, format, width, littleEndian) && Untouched(before, after, at, n)
    requires base + Footprint(format, width) <= at
    ensures ShowsRow(after, base, row, format, width, littleEndian)
  {
    if format == P6 {
      WidenedElsewhere(before, after, base, row, 0, width, littleEndian, at, n);
    }
  }

  lemma RowStaysDone(before: seq<Byte>, after: seq<Byte>, y: nat, y': nat, stride: nat, file: seq<Byte>,
                     format: Format, width: nat, littleEndian: bool)
    requires RowDone(before, y, stride, file, format, width, littleEndian) && y < y'
    requires Footprint(format, width) <= stride
    requires Untouched(before, after, RowStart(y', stride), Footprint(format, width))
    ensures RowDone(after, y, stride, file, format, width, littleEndian)
  {
    RowsFollow(y, y', stride);
    var from, n := RowStart(y, RowBytes(format, width)), RowBytes(format, width);
    ShowsRowElsewhere(before, after, RowStart(y, stride), file[from..from + n], format, width, littleEndian,
                      RowStart(y', stride), Footprint(format, width));
  }

  /** The bytes behind the last row, and the whole memory's size, are as before. */
  ghost predicate TailUntouched(before: seq<Byte>, after: seq<Byte>, end: nat) {
    |before| == |after| && forall j :: end <= j < |before| ==> after[j] == before[j]
  }

  /** The first `n` rows in memory are those of the file. */
  ghost predicate RowsDone(memory: seq<Byte>, n: nat, stride: nat, file: seq<Byte>, format: Format, width: nat,
                           littleEndian: bool)
  {
    forall k {:trigger RowDone(memory, k, stride, file, format, width, littleEndian)} :: 0 <= k < n ==>
      RowDone(memory, k, stride, file, format, width, littleEndian)
  }

  lemma NextRowDone(before: seq<Byte>, after: seq<Byte>, y: nat, stride: nat, file: seq<Byte>,
                    format: Format, width: nat, littleEndian: bool)
    requires RowsDone(before, y, stride, file, format, width, littleEndian)
    requires Footprint(format, width) <= stride
    requires Untouched(before, after, RowStart(y, stride), Footprint(format, width))
    requires RowDone(after, y, stride, file, format, width, littleEndian)
    ensures RowsDone(after, y + 1, stride, file, format, width, littleEndian)
  {
    forall k | 0 <= k < y ensures RowDone(after, k, stride, file, format, width, littleEndian) {
      RowStaysDone(before, after, k, y, stride, file, format, width, littleEndian);
    }
  }

  /** The bytes between the rows and behind the last one are as before. */
  ghost predicate OnlyRowsTouched(before: seq<Byte>, after: seq<Byte>, height: nat, stride: nat, footprint: nat) {
    && TailUntouched(before, after, RowStart(height, stride))
    && forall y :: 0 <= y < height ==> GapUntouched(before, after, y, stride, footprint)
  }

  lemma RowTouched(start: seq<Byte>, before: seq<Byte>, after: seq<Byte>, y: nat, height: nat, stride: nat, footprint: nat)
    requires OnlyRowsTouched(start, before, height, stride, footprint) && y < height && footprint <= stride
    requires Untouched(before, after, RowStart(y, stride), footprint)
    ensures OnlyRowsTouched(start, after, height, stride, footprint)
  {
    RowsFollow(y, height, stride);
    forall k | 0 <= k < height ensures GapUntouched(start, after, k, stride, footprint) {
      GapStaysUntouched(start, before, after, k, y, stride, footprint);
    }
  }

  // ----- The image -----

  lemma {:induction false} RowStartIsProduct(y: nat, size: nat)
    ensures RowStart(y, size) == y * size
  {
    if y > 0 {
      RowStartIsProduct(y - 1, size);
    }
  }

  /** The pixel in memory is the one in the file. */
  ghost predicate SamePixel(memory: seq<Byte>, at: nat, file: seq<Byte>, from: nat, format: Format, littleEndian: bool) {
    match format
    case P5 => at < |memory| && from < |file| && memory[at] == file[from]
    case P6 => from + 3 <= |file| && ShowsPixel(memory, at, file[from], file[from + 1], file[from + 2], littleEndian)
    case P7 => at + 4 <= |memory| && from + 4 <= |file| && memory[at..at + 4] == file[from..from + 4]
  }

  /** Pixel `x` of the row at `base` is the `x`-th pixel from pixel `first` on: one, three or four bytes each. */
  ghost predicate PixelOfRow(memory: seq<Byte>, base: nat, file: seq<Byte>, first: nat, format: Format,
                             littleEndian: bool, x: nat)
  {
    match format
    case P5 => SamePixel(memory, base + x, file, first + x, P5, littleEndian)
    case P6 => SamePixel(memory, base + 4 * x, file, 3 * (first + x), P6, littleEndian)
    case P7 => SamePixel(memory, base + 4 * x, file, 4 * (first + x), P7, littleEndian)
  }

  ghost predicate PixelRead(memory: seq<Byte>, file: seq<Byte>, format: Format, width: nat, stride: nat,
                            littleEndian: bool, x: nat, y: nat)
  {
    PixelOfRow(memory, y * stride, file, y * width, format, littleEndian, x)
  }

  lemma PixelOfCoverage(memory: seq<Byte>, base: nat, file: seq<Byte>, from: nat, width: nat, littleEndian: bool, x: nat)
    requires from + width <= |file| && x < width
    requires ShowsRow(memory, base, file[from..from + width], P5, width, littleEndian)
    ensures PixelOfRow(memory, base, file, from, P5, littleEndian, x)
  {
    assert memory[base..base + width][x] == memory[base + x] && file[from..from + width][x] == file[from + x];
  }

  lemma PixelOfColor(memory: seq<Byte>, base: nat, file: seq<Byte>, from: nat, first: nat, width: nat,
                     littleEndian: bool, x: nat)
    requires from == 3 * first && from + 3 * width <= |file| && x < width
    requires ShowsRow(memory, base, file[from..from + 3 * width], P6, width, littleEndian)
    ensures PixelOfRow(memory, base, file, first, P6, littleEndian, x)
  {
    var row := file[from..from + 3 * width];
    assert row[3 * x] == file[from + 3 * x];
    assert row[3 * x + 1] == file[from + 3 * x + 1] && row[3 * x + 2] == file[from + 3 * x + 2];
  }

  lemma PixelWithAlpha(memory: seq<Byte>, base: nat, file: seq<Byte>, from: nat, first: nat, width: nat,
                       littleEndian: bool, x: nat)
    requires from == 4 * first && from + 4 * width <= |file| && x < width
    requires ShowsRow(memory, base, file[from..from + 4 * width], P7, width, littleEndian)
    ensures PixelOfRow(memory, base, file, first, P7, littleEndian, x)
  {
    var row := file[from..from + 4 * width];
    assert memory[base..base + 4 * width] == row;
    SliceOfSlice(file, from, 4 * width, 4 * x, 4);
    SliceOfSlice(memory, base, 4 * width, 4 * x, 4);
  }

  lemma SliceOfSlice<T>(s: seq<T>, a: nat, n: nat, i: nat, k: nat)
    requires a + n <= |s| && i + k <= n
    ensures s[a..a + n][i..i + k] == s[a + i..a + i + k]
  {
    var slice := s[a..a + n];
    var left, right := slice[i..i + k], s[a + i..a + i + k];
    forall j | 0 <= j < k ensures left[j] == right[j] {
      assert slice[i + j] == s[a + (i + j)];
    }
    assert left == right;
  }

  lemma RowHasPixel(memory: seq<Byte>, base: nat, file: seq<Byte>, from: nat, first: nat, format: Format, width: nat,
                    littleEndian: bool, x: nat)
    requires from == RowBytes(format, first) && x < width && from + RowBytes(format, width) <= |file|
    requires ShowsRow(memory, base, file[from..from + RowBytes(format, width)], format, width, littleEndian)
    ensures PixelOfRow(memory, base, file, first, format, littleEndian, x)
  {
    match format
    case P5 => PixelOfCoverage(memory, base, file, from, width, littleEndian, x);
    case P6 => PixelOfColor(memory, base, file, from, first, width, littleEndian, x);
    case P7 => PixelWithAlpha(memory, base, file, from, first, width, littleEndian, x);
  }

  lemma RowBytesOfRows(format: Format, width: nat, y: nat, first: nat)
    requires first == y * width
    ensures y * RowBytes(format, width) == RowBytes(format, first)
  {
  }

  lemma RowIsRead(memory: seq<Byte>, y: nat, stride: nat, file: seq<Byte>, format: Format, width: nat,
                  littleEndian: bool, x: nat)
    requires RowDone(memory, y, stride, file, format, width, littleEndian) && x < width
    ensures PixelRead(memory, file, format, width, stride, littleEndian, x, y)
  {
    var n := RowBytes(format, width);
    RowStartIsProduct(y, n);
    RowStartIsProduct(y, stride);
    RowBytesOfRows(format, width, y, y * width);
    RowHasPixel(memory, RowStart(y, stride), file, RowStart(y, n), y * width, format, width, littleEndian, x);
  }

  ghost predicate ImageRead(memory: seq<Byte>, file: seq<Byte>, format: Format, width: nat, height: nat, stride: nat,
                            littleEndian: bool)
  {
    forall x: nat, y: nat {:trigger PixelRead(memory, file, format, width, stride, littleEndian, x, y)} ::
      x < width && y < height ==> PixelRead(memory, file, format, width, stride, littleEndian, x, y)
  }

  lemma RowsAreImage(memory: seq<Byte>, height: nat, stride: nat, file: seq<Byte>, format: Format, width: nat,
                     littleEndian: bool)
    requires RowsDone(memory, height, stride, file, format, width, littleEndian)
    ensures ImageRead(memory, file, format, width, height, stride, littleEndian)
  {
    forall x: nat, y: nat | x < width && y < height
      ensures PixelRead(memory, file, format, width, stride, littleEndian, x, y)
    {
      RowIsRead(memory, y, stride, file, format, width, littleEndian, x);
    }
  }

  /** Reads row after row, as long as the file has them. */
  method ReadEachRow(data: array<Byte>, format: Format, width: nat, height: nat, stride: nat, littleEndian: bool,
                  file: seq<Byte>)
    returns (ok: bool)
    requires Footprint(format, width) <= stride && RowStart(height, stride) <= data.Length
    modifies data
    ensures ok <==> RowStart(height, RowBytes(format, width)) <= |file|
    ensures ok ==> RowsDone(data[..], height, stride, file, format, width, littleEndian)
    ensures OnlyRowsTouched(old(data[..]), data[..], height, stride, Footprint(format, width))
  {
    ghost var start := data[..];
    var y, base, pos := 0, 0, 0;
    while y < height
      invariant y <= height && base == RowStart(y, stride) && pos == RowStart(y, RowBytes(format, width)) <= |file|
      invariant RowsDone(data[..], y, stride, file, format, width, littleEndian)
      invariant OnlyRowsTouched(start, data[..], height, stride, Footprint(format, width))
    {
      RowsFollow(y, height, stride);
      RowsFollow(y, height, RowBytes(format, width));
      ghost var before := data[..];
      ok := ReadRow(data, base, format, width, littleEndian, file, pos);
      RowTouched(start, before, data[..], y, height, stride, Footprint(format, width));
      if !ok {
        return;
      }
      NextRowDone(before, data[..], y, stride, file, format, width, littleEndian);
      y, base, pos := y + 1, base + stride, pos + RowBytes(format, width);
    }
    ok := true;
  }

  /**
   Reads an image: it succeeds if the file has all rows, and then every pixel in memory, where the rows are
   `stride` bytes apart, is that pixel of the file.  In either case no other byte changes.
   */
  method ReadRows(data: array<Byte>, format: Format, width: nat, height: nat, stride: nat, littleEndian: bool,
                  file: seq<Byte>)
    returns (ok: bool)
    requires Footprint(format, width) <= stride && RowStart(height, stride) <= data.Length
    modifies data
    ensures ok <==> height * RowBytes(format, width) <= |file|
    ensures ok ==> ImageRead(data[..], file, format, width, height, stride, littleEndian)
    ensures OnlyRowsTouched(old(data[..]), data[..], height, stride, Footprint(format, width))
  {
    RowStartIsProduct(height, RowBytes(format, width));
    ok := ReadEachRow(data, format, width, height, stride, littleEndian, file);
    if ok {
      RowsAreImage(data[..], height, stride, file, format, width, littleEndian);
    }
  }
}
