/**
 The command line as one reads it at once: guidelines 5, 6 and 10 of section 12.2 of the POSIX base
 definitions, with operands allowed between options.
 */
module OptionGrammar {
  import opened Wrappers

  datatype Kind = Unknown | Flag | Required | Optional

  function IndexOf(s: string, c: char): (i: nat)
    ensures i <= |s| && (i < |s| ==> s[i] == c)
  {
    if s == [] || s[0] == c then 0 else 1 + IndexOf(s[1..], c)
  }

  /** What `optstr` says about the option letter `c`: "c", "c:" or "c::". */
  function KindOf(optstr: string, c: char): Kind {
    var i := IndexOf(optstr, c);
    if i == |optstr| then Unknown
    else if i + 1 == |optstr| || optstr[i + 1] != ':' then Flag
    else if i + 2 == |optstr| || optstr[i + 2] != ':' then Required
    else Optional
  }

  predicate Dashed(w: string) {
    w != "" && w[0] == '-'
  }

  /** A word of option letters. */
  predicate IsOption(w: string) {
    Dashed(w) && |w| >= 2 && w != "--"
  }

  /** A word that is an operand wherever it stands. */
  predicate Plain(w: string) {
    !Dashed(w) || w == "-"
  }

  /** What one call reports: an option with its argument, or an unknown option or a missing argument. */
  datatype Item = Opt(c: char, arg: Option<string>) | Bad(c: char)

  /**
   The next item of a command line after the operands `passed`, with the words `used` up by it, and
   the words and the offset where parsing goes on; or the end, with the delimiter if there is one.
   */
  datatype Step =
    | Found(item: Item, passed: seq<string>, used: seq<string>, rest: seq<string>, off: nat, detached: bool)
    | End(passed: seq<string>, delimiter: seq<string>, after: seq<string>)
  {
    function Behind(operand: string): Step {
      this.(passed := [operand] + passed)
    }
  }

  /** Parsing is at the first letter of a word, or at a later letter of an option word. */
  predicate AtLetter(ws: seq<string>, off: nat) {
    off == 1 || (1 <= off && ws != [] && IsOption(ws[0]) && off < |ws[0]|)
  }

  function Take(ws: seq<string>, off: nat, optstr: string): (s: Step)
    requires ws != [] && IsOption(ws[0]) && 1 <= off < |ws[0]|
    ensures s.Found? && AtLetter(s.rest, s.off) && ws == s.used + s.rest
    ensures |s.rest| < |ws| || (s.rest == ws && off < s.off)
  {
    var w, c, last := ws[0], ws[0][off], off + 1 == |ws[0]|;
    match KindOf(optstr, c)
    case Unknown => Found(Bad(c), [], [w], ws[1..], 1, false)
    case Flag =>
      if last then Found(Opt(c, None), [], [w], ws[1..], 1, false)
      else Found(Opt(c, None), [], [], ws, off + 1, false)
    case Optional => Found(Opt(c, if last then None else Some(w[off + 1..])), [], [w], ws[1..], 1, false)
    case Required =>
      if !last then Found(Opt(c, Some(w[off + 1..])), [], [w], ws[1..], 1, false)
      else if |ws| == 1 then Found(Bad(c), [], [w], [], 1, false)
      else Found(Opt(c, Some(ws[1])), [], ws[..2], ws[2..], 1, true)
  }

  /** An unknown letter takes up its word. */
  lemma TakeUnknown(ws: seq<string>, off: nat, optstr: string, c: char)
    requires ws != [] && IsOption(ws[0]) && 1 <= off < |ws[0]| && ws[0][off] == c
    requires KindOf(optstr, c) == Unknown
    ensures Take(ws, off, optstr) == Found(Bad(c), [], [ws[0]], ws[1..], 1, false)
  {
  }

  /** A flag does so if it is the last letter. */
  lemma TakeFlag(ws: seq<string>, off: nat, optstr: string, c: char)
    requires ws != [] && IsOption(ws[0]) && 1 <= off < |ws[0]| && ws[0][off] == c
    requires KindOf(optstr, c) == Flag
    ensures off + 1 == |ws[0]| ==> Take(ws, off, optstr) == Found(Opt(c, None), [], [ws[0]], ws[1..], 1, false)
    ensures off + 1 < |ws[0]| ==> Take(ws, off, optstr) == Found(Opt(c, None), [], [], ws, off + 1, false)
  {
  }

  function Next(ws: seq<string>, off: nat, optstr: string): (s: Step)
    requires AtLetter(ws, off)
    ensures s.Found? ==> AtLetter(s.rest, s.off)
    ensures s.Found? ==> |s.rest| < |ws| || (s.rest == ws && off < s.off)
  {
    if ws == [] then End([], [], [])
    else if ws[0] == "--" then End([], ws[..1], ws[1..])
    else if IsOption(ws[0]) then Take(ws, off, optstr)
    else Next(ws[1..], 1, optstr).Behind(ws[0])
  }

  datatype Parsed = Parsed(items: seq<Item>, options: seq<string>, operands: seq<string>)

  /** All items, the words they take up, and the operands, each in their original order. */
  function Parse(ws: seq<string>, off: nat, optstr: string): Parsed
    requires AtLetter(ws, off)
    decreases |ws|, if ws == [] then 0 else |ws[0]| + 1 - off
  {
    match Next(ws, off, optstr)
    case Found(item, passed, used, rest, off', _) =>
      var p := Parse(rest, off', optstr);
      Parsed([item] + p.items, used + p.options, passed + p.operands)
    case End(passed, delimiter, after) => Parsed([], delimiter, passed + after)
  }

  // ----- The command lines on which the program follows the grammar -----

  /** No argument in a word of its own starts with a dash; no "--" comes after the first operand behind "--". */
  predicate Tame(s: Step) {
    match s
    case Found(item, _, _, _, _, detached) => detached && item.Opt? && item.arg.Some? ==> !Dashed(item.arg.value)
    case End(_, _, after) => forall i :: 1 <= i < |after| ==> after[i] != "--"
  }

  predicate WellFormed(ws: seq<string>, off: nat, optstr: string)
    requires AtLetter(ws, off)
    decreases |ws|, if ws == [] then 0 else |ws[0]| + 1 - off
  {
    var s := Next(ws, off, optstr);
    Tame(s) && (s.Found? ==> WellFormed(s.rest, s.off, optstr))
  }

  /** Command lines on which the program does not follow the grammar. */
  lemma IllFormedExamples()
    ensures !WellFormed(["-o", "-x"], 1, "o:x")
    ensures !WellFormed(["--", "a", "--"], 1, "o:x")
    ensures WellFormed(["--", "--", "a"], 1, "o:x")
  {
    var ws := ["-o", "-x"];
    assert IndexOf("o:x", 'o') == 0;
    assert ws[0][1] == 'o' && Next(ws, 1, "o:x") == Take(ws, 1, "o:x");
    assert ["--", "a", "--"][1..] == ["a", "--"] && ["a", "--"][1] == "--";
    assert ["--", "--", "a"][1..] == ["--", "a"];
  }

  // ----- The grammar loses no word and keeps the order of words -----

  /** `ws` is made of `a` and `b`, each in order. */
  ghost predicate Interleaves(ws: seq<string>, a: seq<string>, b: seq<string>) {
    if ws == [] then a == [] && b == []
    else
      || (a != [] && a[0] == ws[0] && Interleaves(ws[1..], a[1..], b))
      || (b != [] && b[0] == ws[0] && Interleaves(ws[1..], a, b[1..]))
  }

  lemma {:induction false} InterleavesAll(ws: seq<string>)
    ensures Interleaves(ws, ws, []) && Interleaves(ws, [], ws)
  {
    if ws != [] {
      InterleavesAll(ws[1..]);
    }
  }

  lemma {:induction false} InterleavesBehind(p: seq<string>, ws: seq<string>, a: seq<string>, b: seq<string>)
    requires Interleaves(ws, a, b)
    ensures Interleaves(p + ws, p + a, b) && Interleaves(p + ws, a, p + b)
  {
    if p == [] {
      assert p + ws == ws && p + a == a && p + b == b;
    } else {
      InterleavesBehind(p[1..], ws, a, b);
      assert (p + ws)[1..] == p[1..] + ws && (p + a)[1..] == p[1..] + a && (p + b)[1..] == p[1..] + b;
    }
  }

  lemma {:induction false} NextSplits(ws: seq<string>, off: nat, optstr: string)
    requires AtLetter(ws, off)
    ensures var s := Next(ws, off, optstr);
            ws == s.passed + if s.Found? then s.used + s.rest else s.delimiter + s.after
  {
    if ws != [] && !IsOption(ws[0]) && ws[0] != "--" {
      NextSplits(ws[1..], 1, optstr);
    }
  }

  /** Options and operands interleave to the command line: it is a permutation that keeps both orders. */
  lemma {:induction false} ParseInterleaves(ws: seq<string>, off: nat, optstr: string)
    requires AtLetter(ws, off)
    ensures Interleaves(ws, Parse(ws, off, optstr).options, Parse(ws, off, optstr).operands)
    decreases |ws|, if ws == [] then 0 else |ws[0]| + 1 - off
  {
    var s := Next(ws, off, optstr);
    NextSplits(ws, off, optstr);
    match s {
      case Found(item, passed, used, rest, off', _) =>
        var p := Parse(rest, off', optstr);
        ParseInterleaves(rest, off', optstr);
        InterleavesBehind(used, rest, p.options, p.operands);
        InterleavesBehind(passed, used + rest, used + p.options, p.operands);
      case End(passed, delimiter, after) =>
        InterleavesAll(after);
        InterleavesBehind(delimiter, after, [], after);
        assert delimiter + [] == delimiter;
        InterleavesBehind(passed, delimiter + after, delimiter, after);
    }
  }

  lemma {:induction false} InterleavingIsPermutation(ws: seq<string>, a: seq<string>, b: seq<string>)
    requires Interleaves(ws, a, b)
    ensures multiset(ws) == multiset(a) + multiset(b)
  {
    if ws != [] {
      assert ws == [ws[0]] + ws[1..];
      if a != [] && a[0] == ws[0] && Interleaves(ws[1..], a[1..], b) {
        InterleavingIsPermutation(ws[1..], a[1..], b);
        assert a == [a[0]] + a[1..];
      } else {
        InterleavingIsPermutation(ws[1..], a, b[1..]);
        assert b == [b[0]] + b[1..];
      }
    }
  }

  // ----- Option letters -----

  lemma {:induction false} IndexOfLetter(p: string, c: char, q: string)
    requires c !in p
    ensures IndexOf(p + [c] + q, c) == |p|
  {
    if p != [] {
      IndexOfLetter(p[1..], c, q);
      assert (p + [c] + q)[1..] == p[1..] + [c] + q;
    }
  }

  /** What stands behind the first place of a letter decides its kind. */
  lemma KindOfLetter(p: string, c: char, q: string)
    requires c !in p
    ensures KindOf(p + [c] + q, c) == if !(":" <= q) then Flag else if !("::" <= q) then Required else Optional
  {
    var optstr := p + [c] + q;
    IndexOfLetter(p, c, q);
    assert forall k :: 0 <= k < |q| ==> optstr[|p| + 1 + k] == q[k];
  }

  lemma {:induction false} UnknownIff(optstr: string, c: char)
    ensures KindOf(optstr, c) == Unknown <==> c !in optstr
  {
    if optstr != [] && optstr[0] != c {
      UnknownIff(optstr[1..], c);
    }
  }

  // ----- What is written is what is read -----

  /** What may stand in a word of options behind its flags. */
  datatype Last =
    | Nothing
    | Attached(c: char, arg: string)
    | Detached(c: char, arg: string)
    | Omitted(c: char)
    | Stray(c: char, tail: string)
  {
    function Letters(): string {
      match this
      case Nothing => []
      case Attached(c, arg) => [c] + arg
      case Detached(c, _) => [c]
      case Omitted(c) => [c]
      case Stray(c, tail) => [c] + tail
    }

    function Items(): seq<Item> {
      match this
      case Nothing => []
      case Attached(c, arg) => [Opt(c, Some(arg))]
      case Detached(c, arg) => [Opt(c, Some(arg))]
      case Omitted(c) => [Opt(c, None)]
      case Stray(c, _) => [Bad(c)]
    }

    predicate Fits(optstr: string) {
      match this
      case Nothing => true
      case Attached(c, arg) => KindOf(optstr, c) in {Required, Optional} && arg != ""
      case Detached(c, _) => KindOf(optstr, c) == Required
      case Omitted(c) => KindOf(optstr, c) == Optional
      case Stray(c, _) => KindOf(optstr, c) == Unknown
    }
  }

  /** An operand, or flags in one word with at most one option behind them that takes an argument. */
  datatype Element = Operand(word: string) | Options(flags: string, last: Last)
  {
    function Words(): seq<string> {
      match this
      case Operand(w) => [w]
      case Options(flags, last) =>
        ["-" + flags + last.Letters()] + if last.Detached? then [last.arg] else []
    }

    function Items(): seq<Item> {
      match this
      case Operand(_) => []
      case Options(flags, last) => FlagItems(flags) + last.Items()
    }

    function Operands(): seq<string> {
      match this
      case Operand(w) => [w]
      case Options(_, _) => []
    }

    predicate Fits(optstr: string) {
      match this
      case Operand(w) => Plain(w)
      case Options(flags, last) =>
        IsOption("-" + flags + last.Letters()) && last.Fits(optstr) && AllFlags(flags, optstr)
    }

    /** The program follows the grammar at this element. */
    predicate Followed() {
      Options? && last.Detached? ==> !Dashed(last.arg)
    }
  }

  /** How a command line ends: with its last element, with a delimiter, or with an argument missing. */
  datatype Ending = Open | Delimited(operands: seq<string>) | Missing(flags: string, c: char)
  {
    function Words(): seq<string> {
      match this
      case Open => []
      case Delimited(operands) => ["--"] + operands
      case Missing(flags, c) => ["-" + flags + [c]]
    }

    function Items(): seq<Item> {
      match this
      case Missing(flags, c) => FlagItems(flags) + [Bad(c)]
      case _ => []
    }

    function Operands(): seq<string> {
      match this
      case Delimited(operands) => operands
      case _ => []
    }

    predicate Fits(optstr: string) {
      Missing? ==> IsOption("-" + flags + [c]) && AllFlags(flags, optstr) && KindOf(optstr, c) == Required
    }

    predicate Followed() {
      Delimited? ==> forall i :: 1 <= i < |operands| ==> operands[i] != "--"
    }
  }

  predicate AllFlags(flags: string, optstr: string) {
    forall i :: 0 <= i < |flags| ==> KindOf(optstr, flags[i]) == Flag
  }

  function FlagItems(flags: string): (items: seq<Item>)
    ensures |items| == |flags| && forall i :: 0 <= i < |flags| ==> items[i] == Opt(flags[i], None)
  {
    seq(|flags|, i requires 0 <= i < |flags| => Opt(flags[i], None))
  }

  /** A command line is some elements and an ending. */
  datatype Line = Line(elements: seq<Element>, ending: Ending)
  {
    function Behind(e: Element): Line {
      Line([e] + elements, ending)
    }

    function Words(): seq<string>
      decreases |elements|
    {
      if elements == [] then ending.Words() else elements[0].Words() + Line(elements[1..], ending).Words()
    }

    function Items(): seq<Item>
      decreases |elements|
    {
      if elements == [] then ending.Items() else elements[0].Items() + Line(elements[1..], ending).Items()
    }

    function Operands(): seq<string>
      decreases |elements|
    {
      if elements == [] then ending.Operands() else elements[0].Operands() + Line(elements[1..], ending).Operands()
    }

    predicate Fits(optstr: string) {
      ending.Fits(optstr) && forall i :: 0 <= i < |elements| ==> elements[i].Fits(optstr)
    }

    predicate Followed() {
      ending.Followed() && forall i :: 0 <= i < |elements| ==> elements[i].Followed()
    }
  }

  /** The parse from here on reads `items` and `operands` first, and then what it reads of `more`. */
  ghost predicate ReadsFirst(ws: seq<string>, off: nat, optstr: string, items: seq<Item>, operands: seq<string>,
                             followed: bool, more: seq<string>, off': nat)
    requires AtLetter(ws, off) && AtLetter(more, off')
  {
    && Parse(ws, off, optstr).items == items + Parse(more, off', optstr).items
    && Parse(ws, off, optstr).operands == operands + Parse(more, off', optstr).operands
    && (WellFormed(ws, off, optstr) <==> followed && WellFormed(more, off', optstr))
  }

  lemma ReadsOne(ws: seq<string>, off: nat, optstr: string, s: Step)
    requires AtLetter(ws, off) && Next(ws, off, optstr) == s && s.Found?
    ensures ReadsFirst(ws, off, optstr, [s.item], s.passed, Tame(s), s.rest, s.off)
  {
  }

  lemma ReadsOn(ws: seq<string>, off: nat, optstr: string, items: seq<Item>, operands: seq<string>, followed: bool,
                ws': seq<string>, off': nat, items': seq<Item>, followed': bool, ws'': seq<string>, off'': nat)
    requires AtLetter(ws, off) && AtLetter(ws', off') && AtLetter(ws'', off'')
    requires ReadsFirst(ws, off, optstr, items, operands, followed, ws', off')
    requires ReadsFirst(ws', off', optstr, items', [], followed', ws'', off'')
    ensures ReadsFirst(ws, off, optstr, items + items', operands, followed && followed', ws'', off'')
  {
    TwoSteps(items, items', Parse(ws'', off'', optstr).items);
    OneStep(operands, Parse(ws'', off'', optstr).operands);
  }

  lemma TwoSteps<T>(a: seq<T>, b: seq<T>, c: seq<T>)
    ensures a + b + c == a + (b + c)
  {
  }

  lemma OneStep<T>(a: seq<T>, b: seq<T>)
    ensures a + ([] + b) == a + b
  {
  }

  lemma FlagIsNext(ws: seq<string>, off: nat, optstr: string, c: char)
    requires ws != [] && IsOption(ws[0]) && 1 <= off < |ws[0]| - 1 && ws[0][off] == c && KindOf(optstr, c) == Flag
    ensures Next(ws, off, optstr) == Found(Opt(c, None), [], [], ws, off + 1, false)
  {
    TakeFlag(ws, off, optstr, c);
  }

  lemma FlagIsRead(ws: seq<string>, off: nat, optstr: string, c: char)
    requires ws != [] && IsOption(ws[0]) && 1 <= off < |ws[0]| - 1 && ws[0][off] == c && KindOf(optstr, c) == Flag
    ensures ReadsFirst(ws, off, optstr, [Opt(c, None)], [], true, ws, off + 1)
  {
    FlagIsNext(ws, off, optstr, c);
    ReadsOne(ws, off, optstr, Found(Opt(c, None), [], [], ws, off + 1, false));
  }

  lemma NothingIsRead(ws: seq<string>, off: nat, optstr: string)
    requires AtLetter(ws, off)
    ensures ReadsFirst(ws, off, optstr, [], [], true, ws, off)
  {
  }

  lemma FlagItemsSplit(flags: string)
    requires flags != []
    ensures FlagItems(flags) == [Opt(flags[0], None)] + FlagItems(flags[1..])
    ensures FlagItems(flags) == FlagItems(flags[..|flags| - 1]) + [Opt(flags[|flags| - 1], None)]
  {
  }

  /** Flags in front of another letter of their word are read one by one. */
  lemma {:induction false} FlagsAreRead(ws: seq<string>, off: nat, n: nat, optstr: string, flags: string)
    requires ws != [] && IsOption(ws[0]) && 1 <= off <= n < |ws[0]| && ws[0][off..n] == flags && AllFlags(flags, optstr)
    ensures ReadsFirst(ws, off, optstr, FlagItems(flags), [], true, ws, n)
    decreases n - off
  {
    if off == n {
      NothingIsRead(ws, off, optstr);
    } else {
      assert ws[0][off] == flags[0] && ws[0][off + 1..n] == flags[1..];
      FlagIsRead(ws, off, optstr, flags[0]);
      FlagsAreRead(ws, off + 1, n, optstr, flags[1..]);
      ReadsOn(ws, off, optstr, [Opt(flags[0], None)], [], true, ws, off + 1, FlagItems(flags[1..]), true, ws, n);
      FlagItemsSplit(flags);
    }
  }

  lemma WordSplits(flags: string, letters: string)
    requires letters != []
    ensures var w := "-" + flags + letters;
            w[1..1 + |flags|] == flags && w[1 + |flags|] == letters[0] && w[2 + |flags|..] == letters[1..]
  {
  }

  /** The option behind the flags takes up the rest of its word, and the next word if that is its argument. */
  lemma LastIsTaken(flags: string, last: Last, more: seq<string>, optstr: string)
    requires Options(flags, last).Fits(optstr) && last != Nothing
    ensures var ws := Options(flags, last).Words() + more;
            && AtLetter(ws, 1 + |flags|)
            && Next(ws, 1 + |flags|, optstr) == Found(last.Items()[0], [], ws[..|ws| - |more|], more, 1, last.Detached?)
  {
    var ws := Options(flags, last).Words() + more;
    var w, n := ws[0], 1 + |flags|;
    WordSplits(flags, last.Letters());
    assert ws[1..] == if last.Detached? then [last.arg] + more else more;
    assert last.Detached? ==> ws[1] == last.arg && ws[2..] == more && ws[..2] == ws[..|ws| - |more|];
    assert ws[..1] == [w];
    assert Next(ws, n, optstr) == Take(ws, n, optstr);
    if last.Stray? {
      TakeUnknown(ws, n, optstr, last.c);
    }
  }

  lemma FlagIsTaken(flags: string, more: seq<string>, optstr: string)
    requires Options(flags, Nothing).Fits(optstr)
    ensures var ws := Options(flags, Nothing).Words() + more;
            && flags != [] && AtLetter(ws, |flags|)
            && Next(ws, |flags|, optstr) == Found(Opt(flags[|flags| - 1], None), [], [ws[0]], more, 1, false)
  {
    var ws := Options(flags, Nothing).Words() + more;
    var c := flags[|flags| - 1];
    assert ws[0][|flags|] == c && ws[1..] == more;
    TakeFlag(ws, |flags|, optstr, c);
    assert Next(ws, |flags|, optstr) == Take(ws, |flags|, optstr);
  }

  lemma FlagWordIsRead(flags: string, more: seq<string>, optstr: string)
    requires Options(flags, Nothing).Fits(optstr)
    ensures ReadsFirst(Options(flags, Nothing).Words() + more, 1, optstr, FlagItems(flags), [], true, more, 1)
  {
    var ws, n := Options(flags, Nothing).Words() + more, |flags|;
    FlagIsTaken(flags, more, optstr);
    assert ws[0][1..n] == flags[..n - 1];
    FlagsAreRead(ws, 1, n, optstr, flags[..n - 1]);
    var item := Opt(flags[n - 1], None);
    ReadsOne(ws, n, optstr, Found(item, [], [ws[0]], more, 1, false));
    ReadsOn(ws, 1, optstr, FlagItems(flags[..n - 1]), [], true, ws, n, [item], true, more, 1);
    FlagItemsSplit(flags);
  }

  lemma OptionsAreRead(flags: string, last: Last, more: seq<string>, optstr: string)
    requires Options(flags, last).Fits(optstr) && last != Nothing
    ensures var e := Options(flags, last);
            ReadsFirst(e.Words() + more, 1, optstr, e.Items(), [], e.Followed(), more, 1)
  {
    var ws, n := Options(flags, last).Words() + more, 1 + |flags|;
    var s := Found(last.Items()[0], [], ws[..|ws| - |more|], more, 1, last.Detached?);
    LastIsTaken(flags, last, more, optstr);
    assert ws[0][1..n] == flags;
    FlagsAreRead(ws, 1, n, optstr, flags);
    ReadsOne(ws, n, optstr, s);
    ReadsOn(ws, 1, optstr, FlagItems(flags), [], true, ws, n, [s.item], Tame(s), more, 1);
    assert last.Items() == [s.item];
  }

  lemma OperandIsRead(w: string, more: seq<string>, optstr: string)
    requires Plain(w)
    ensures ReadsFirst([w] + more, 1, optstr, [], [w], true, more, 1)
  {
    var ws := [w] + more;
    assert ws[1..] == more && Next(ws, 1, optstr) == Next(more, 1, optstr).Behind(w);
  }

  lemma ElementIsRead(e: Element, more: seq<string>, optstr: string)
    requires e.Fits(optstr)
    ensures ReadsFirst(e.Words() + more, 1, optstr, e.Items(), e.Operands(), e.Followed(), more, 1)
  {
    match e
    case Operand(w) => OperandIsRead(w, more, optstr);
    case Options(flags, last) =>
      if last == Nothing {
        FlagWordIsRead(flags, more, optstr);
        assert FlagItems(flags) + [] == FlagItems(flags);
      } else {
        OptionsAreRead(flags, last, more, optstr);
      }
  }

  /** The parse is this, and the program follows it just if `followed`. */
  ghost predicate ParsesTo(ws: seq<string>, optstr: string, items: seq<Item>, operands: seq<string>, followed: bool) {
    && Parse(ws, 1, optstr).items == items && Parse(ws, 1, optstr).operands == operands
    && (WellFormed(ws, 1, optstr) <==> followed)
  }

  lemma DelimiterIsRead(operands: seq<string>, optstr: string)
    ensures ParsesTo(["--"] + operands, optstr, [], operands, Delimited(operands).Followed())
  {
    var ws := ["--"] + operands;
    assert ws[0] == "--" && ws[1..] == operands;
  }

  lemma MissingIsRead(flags: string, c: char, optstr: string)
    requires Missing(flags, c).Fits(optstr)
    ensures ParsesTo(["-" + flags + [c]], optstr, FlagItems(flags) + [Bad(c)], [], true)
  {
    var ws, n := ["-" + flags + [c]], 1 + |flags|;
    assert ws[0][n] == c && ws[0][1..n] == flags;
    FlagsAreRead(ws, 1, n, optstr, flags);
    assert Next(ws, n, optstr) == Take(ws, n, optstr);
    ReadsOne(ws, n, optstr, Found(Bad(c), [], ws, [], 1, false));
    ReadsOn(ws, 1, optstr, FlagItems(flags), [], true, ws, n, [Bad(c)], true, [], 1);
    NothingLeft(optstr);
  }

  lemma NothingLeft(optstr: string)
    ensures ParsesTo([], optstr, [], [], true)
  {
  }

  lemma EndingIsRead(ending: Ending, optstr: string)
    requires ending.Fits(optstr)
    ensures ParsesTo(ending.Words(), optstr, ending.Items(), ending.Operands(), ending.Followed())
  {
    match ending
    case Open =>
    case Delimited(operands) => DelimiterIsRead(operands, optstr);
    case Missing(flags, c) => MissingIsRead(flags, c, optstr);
  }

  lemma FollowedSplits(line: Line)
    requires line.elements != []
    ensures line.Followed() <==> line.elements[0].Followed() && Line(line.elements[1..], line.ending).Followed()
  {
    assert line.elements == [line.elements[0]] + line.elements[1..];
  }

  lemma ParseElement(e: Element, rest: Line, optstr: string)
    requires e.Fits(optstr) && ParsesTo(rest.Words(), optstr, rest.Items(), rest.Operands(), rest.Followed())
    ensures ParsesTo(e.Words() + rest.Words(), optstr, e.Items() + rest.Items(), e.Operands() + rest.Operands(),
                     e.Followed() && rest.Followed())
  {
    ElementIsRead(e, rest.Words(), optstr);
  }

  /**
   Writing a command line and parsing it gives back its options with their arguments, its mistakes and its
   operands, each in order.  The program follows that just if no detached argument starts with a dash and no
   other delimiter stands behind the first operand after the delimiter.
   */
  lemma {:induction false} ParseWritten(line: Line, optstr: string)
    requires line.Fits(optstr)
    ensures ParsesTo(line.Words(), optstr, line.Items(), line.Operands(), line.Followed())
    decreases |line.elements|
  {
    if line.elements == [] {
      EndingIsRead(line.ending, optstr);
    } else {
      var e, rest := line.elements[0], Line(line.elements[1..], line.ending);
      FollowedSplits(line);
      ParseWritten(rest, optstr);
      ParseElement(e, rest, optstr);
    }
  }

  // ----- Every command line can be written so -----

  /** The flags that an option word starts with, and the letters behind them. */
  lemma {:induction false} FlagsInFront(letters: string, optstr: string) returns (flags: string, more: string)
    ensures letters == flags + more && AllFlags(flags, optstr)
    ensures more != "" ==> KindOf(optstr, more[0]) != Flag
  {
    flags, more := "", letters;
    if letters != "" && KindOf(optstr, letters[0]) == Flag {
      flags, more := FlagsInFront(letters[1..], optstr);
      flags := [letters[0]] + flags;
      assert letters == [letters[0]] + letters[1..];
    }
  }

  /** What stands behind the flags of the first word, unless an argument is missing. */
  lemma LastOf(more: string, next: seq<string>, optstr: string) returns (last: Last)
    requires more != "" ==> KindOf(optstr, more[0]) != Flag
    requires |more| == 1 && KindOf(optstr, more[0]) == Required ==> next != []
    ensures last.Letters() == more && last.Fits(optstr) && (last.Detached? ==> next != [] && last.arg == next[0])
  {
    if more == "" {
      return Nothing;
    }
    var c, tail := more[0], more[1..];
    assert more == [c] + tail;
    match KindOf(optstr, c)
    case Unknown => last := Stray(c, tail);
    case Required => last := if tail == "" then Detached(c, next[0]) else Attached(c, tail);
    case Optional => last := if tail == "" then Omitted(c) else Attached(c, tail);
  }

  lemma OptionWord(ws: seq<string>, optstr: string) returns (e: Element, ending: Ending)
    requires ws != [] && IsOption(ws[0])
    ensures if ending.Missing? then ending.Fits(optstr) && ws == ending.Words()
            else ending == Open && e.Fits(optstr) && 1 <= |e.Words()| <= |ws| && e.Words() == ws[..|e.Words()|]
  {
    var flags, more := FlagsInFront(ws[0][1..], optstr);
    assert ws[0] == "-" + flags + more;
    ending, e := Open, Operand("");
    if |more| == 1 && KindOf(optstr, more[0]) == Required && |ws| == 1 {
      ending := Missing(flags, more[0]);
      assert more == [more[0]];
    } else {
      var last := LastOf(more, ws[1..], optstr);
      e := Options(flags, last);
      assert e.Words()[0] == ws[0];
      assert last.Detached? ==> e.Words()[1] == ws[1];
    }
  }

  lemma LineBehind(e: Element, line: Line, n: nat, ws: seq<string>, optstr: string)
    requires e.Fits(optstr) && line.Fits(optstr) && n <= |ws| && e.Words() == ws[..n] && line.Words() == ws[n..]
    ensures line.Behind(e).Fits(optstr) && line.Behind(e).Words() == ws
  {
    assert line.Behind(e).elements[1..] == line.elements;
    assert ws == ws[..n] + ws[n..];
  }

  /** Every command line is one that can be written: together with `ParseWritten` this says what any of them means. */
  lemma {:induction false} EveryLineIsWritten(ws: seq<string>, optstr: string) returns (line: Line)
    ensures line.Fits(optstr) && line.Words() == ws
    decreases |ws|
  {
    if ws == [] {
      return Line([], Open);
    } else if ws[0] == "--" {
      assert ws == ["--"] + ws[1..];
      return Line([], Delimited(ws[1..]));
    }
    var e, ending := Operand(ws[0]), Open;
    if IsOption(ws[0]) {
      e, ending := OptionWord(ws, optstr);
    }
    if ending.Missing? {
      return Line([], ending);
    }
    var n := |e.Words()|;
    line := EveryLineIsWritten(ws[n..], optstr);
    LineBehind(e, line, n, ws, optstr);
    line := line.Behind(e);
  }
}
