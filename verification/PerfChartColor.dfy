/** The colours of a chart: hue, saturation and value to red, green and blue, over exact numbers. */
module PerfChartColor {

  datatype Color = Color(red: real, green: real, blue: real)

  function Clamp(x: real): real {
    if x < 0.0 then 0.0 else if x > 1.0 then 1.0 else x
  }

  /** Of all numbers from 0 to 1 the nearest. */
  lemma ClampIsNearest(x: real, y: real)
    requires 0.0 <= y <= 1.0
    ensures 0.0 <= Clamp(x) <= 1.0 && (Clamp(x) - x) * (Clamp(x) - x) <= (y - x) * (y - x)
  {
    var c := Clamp(x);
    if x < 0.0 {
      assert (y - x) * (y - x) - x * x == y * (y - 2.0 * x);
    } else if x > 1.0 {
      var d, e := x - 1.0, 1.0 - y;
      assert (x - y) * (x - y) == (d + e) * (d + e) == d * d + e * (2.0 * d + e);
    }
  }

  function Max(c: Color): real {
    var m := if c.red >= c.green then c.red else c.green;
    if m >= c.blue then m else c.blue
  }

  function Min(c: Color): real {
    var m := if c.red <= c.green then c.red else c.green;
    if m <= c.blue then m else c.blue
  }

  /** The six sectors of the hexagon; sector 6 is its corner that is also the start of sector 0. */
  function Sector(i: int, v: real, m: real, n: real): Color {
    if i == 1 then Color(n, v, m)
    else if i == 2 then Color(m, v, n)
    else if i == 3 then Color(m, n, v)
    else if i == 4 then Color(n, m, v)
    else if i == 5 then Color(v, m, n)
    else Color(v, n, m)
  }

  /** The place in the sector, falling in the even ones. */
  function Slope(h: real): (f: real)
    ensures 0.0 <= f <= 1.0 && (h.Floor % 2 == 0 ==> f > 0.0) && (h.Floor % 2 == 1 ==> f < 1.0)
  {
    if h.Floor % 2 == 0 then 1.0 - (h - h.Floor as real) else h - h.Floor as real
  }

  function Darkest(s: real, v: real): real {
    v * (1.0 - s)
  }

  /** The colour for a hue from 0 to 6 and saturation and value from 0 to 1. */
  function Hexagon(h: real, s: real, v: real): Color {
    Sector(h.Floor, v, Darkest(s, v), v * (1.0 - s * Slope(h)))
  }

  /** `h` up to a multiple of 6, in the range from 0 up to but excluding 6. */
  function Turn(h: real): real {
    h - 6.0 * (h / 6.0).Floor as real
  }

  /** The colour for any hue, saturation and value. */
  function Hsv(h: real, s: real, v: real): Color {
    Hexagon(Turn(h), Clamp(s), Clamp(v))
  }

  lemma TurnInRange(h: real)
    ensures 0.0 <= Turn(h) < 6.0
  {
    var q := h / 6.0;
    assert q.Floor as real <= q < q.Floor as real + 1.0;
    assert h == 6.0 * q;
  }

  /** Only whole turns leave the angle the same. */
  lemma TurnIsUnique(h: real, h': real, k: int)
    requires h' == h + 6.0 * k as real && 0.0 <= h' < 6.0
    ensures Turn(h) == h'
  {
    var q := h / 6.0;
    assert h == 6.0 * q;
    assert (h' - 6.0 * k as real) / 6.0 == h' / 6.0 - k as real;
    assert q == h' / 6.0 - k as real;
    assert q.Floor == -k;
  }

  /** The end of the last sector is the start of the first. */
  lemma HexagonCloses(s: real, v: real)
    ensures Hexagon(6.0, s, v) == Hexagon(0.0, s, v)
  {
    assert (6.0).Floor == 6 && (0.0).Floor == 0;
  }

  lemma HsvIsPeriodic(h: real, k: int, s: real, v: real)
    ensures Hsv(h + 6.0 * k as real, s, v) == Hsv(h, s, v)
  {
    TurnInRange(h);
    TurnIsUnique(h + 6.0 * k as real, Turn(h), -k - (h / 6.0).Floor);
  }

  /** The hue from 0 to 6, both included, that is whole turns away. */
  method TurnHue(h0: real) returns (h: real, ghost k: int)
    ensures 0.0 <= h <= 6.0 && h == h0 + 6.0 * k as real
  {
    h, k := h0, 0;
    while h < 0.0
      invariant h == h0 + 6.0 * k as real && (h <= 6.0 || h == h0 >= 0.0)
      decreases -h.Floor
    {
      h, k := h + 6.0, k + 1;
    }
    while h > 6.0
      invariant h == h0 + 6.0 * k as real && h >= 0.0
      decreases h.Floor
    {
      h, k := h - 6.0, k - 1;
    }
  }

  method HexagonToRgb(h: real, s: real, v: real) returns (color: Color)
    requires 0.0 <= h <= 6.0
    ensures color == Hexagon(h, s, v)
  {
    var i := h.Floor;
    var f := h - i as real;
    if i % 2 == 0 {
      f := 1.0 - f;
    }
    var m, n := v * (1.0 - s), v * (1.0 - s * f);
    match i {
      case 1 => color := Color(n, v, m);
      case 2 => color := Color(m, v, n);
      case 3 => color := Color(m, n, v);
      case 4 => color := Color(n, m, v);
      case 5 => color := Color(v, m, n);
      case _ => color := Color(v, n, m);
    }
  }

  lemma TurnOfHue(h0: real, h: real, k: int, s: real, v: real)
    requires 0.0 <= h <= 6.0 && h == h0 + 6.0 * k as real
    ensures Hexagon(h, s, v) == Hexagon(Turn(h0), s, v)
  {
    if h == 6.0 {
      HexagonCloses(s, v);
      TurnIsUnique(h0, 0.0, k - 1);
    } else {
      TurnIsUnique(h0, h, k);
    }
  }

  method HsvToRgb(h0: real, s0: real, v0: real) returns (color: Color)
    ensures color == Hsv(h0, s0, v0)
  {
    var s, v := s0, v0;
    var h, k := TurnHue(h0);
    if s < 0.0 { s := 0.0; }
    if s > 1.0 { s := 1.0; }
    if v < 0.0 { v := 0.0; }
    if v > 1.0 { v := 1.0; }
    TurnOfHue(h0, h, k, s, v);
    color := HexagonToRgb(h, s, v);
  }

  lemma Between(v: real, s: real, f: real)
    requires 0.0 <= v && 0.0 <= s && 0.0 <= f <= 1.0
    ensures v * (1.0 - s) <= v * (1.0 - s * f) <= v
    ensures v * (1.0 - s * f) == v - (v * s) * f && v * (1.0 - s) == v - v * s
  {
    assert 0.0 <= v * s;
    assert 0.0 <= (v * s) * f <= v * s;
  }

  lemma SectorExtremes(i: int, v: real, m: real, n: real)
    requires m <= n <= v
    ensures Max(Sector(i, v, m, n)) == v && Min(Sector(i, v, m, n)) == m
  {
  }

  lemma MiddleIsBetween(h: real, s: real, v: real)
    requires 0.0 <= s <= 1.0 && 0.0 <= v <= 1.0
    ensures Darkest(s, v) <= v * (1.0 - s * Slope(h)) <= v
  {
    Between(v, s, Slope(h));
  }

  lemma HexagonBrightest(h: real, s: real, v: real)
    requires 0.0 <= s <= 1.0 && 0.0 <= v <= 1.0
    ensures Max(Hexagon(h, s, v)) == v
  {
    MiddleIsBetween(h, s, v);
    SectorExtremes(h.Floor, v, Darkest(s, v), v * (1.0 - s * Slope(h)));
  }

  lemma HexagonDarkest(h: real, s: real, v: real)
    requires 0.0 <= s <= 1.0 && 0.0 <= v <= 1.0
    ensures Min(Hexagon(h, s, v)) == Darkest(s, v)
  {
    MiddleIsBetween(h, s, v);
    SectorExtremes(h.Floor, v, Darkest(s, v), v * (1.0 - s * Slope(h)));
  }

  /** The brightest component is the value, the darkest is the value reduced by the saturation. */
  lemma Extremes(h: real, s: real, v: real)
    ensures Max(Hsv(h, s, v)) == Clamp(v)
    ensures Min(Hsv(h, s, v)) == Clamp(v) * (1.0 - Clamp(s))
  {
    HexagonBrightest(Turn(h), Clamp(s), Clamp(v));
    HexagonDarkest(Turn(h), Clamp(s), Clamp(v));
  }

  // ----- The way back -----

  /** The place of the middle component between the darkest and the brightest. */
  function Part(x: real, min: real, max: real): real
    requires max > min
  {
    (x - min) / (max - min)
  }

  function HueBetween(c: Color, min: real, max: real): real
    requires max > min
  {
    if c.red == max && c.green < max && c.blue == min then Part(c.green, min, max)
    else if c.green == max && c.blue == min then 2.0 - Part(c.red, min, max)
    else if c.green == max && c.blue < max then 2.0 + Part(c.blue, min, max)
    else if c.blue == max && c.red == min then 4.0 - Part(c.green, min, max)
    else if c.blue == max && c.red < max then 4.0 + Part(c.red, min, max)
    else 6.0 - Part(c.blue, min, max)
  }

  /** The hue of a colour that is not grey. */
  function Hue(c: Color): real
    requires Max(c) > Min(c)
  {
    HueBetween(c, Min(c), Max(c))
  }

  function Saturation(c: Color): real
    requires Max(c) > 0.0
  {
    1.0 - Min(c) / Max(c)
  }

  lemma Quotient(x: real, d: real, q: real)
    requires d != 0.0 && x == d * q
    ensures x / d == q
  {
    var p := x / d;
    assert p * d == x;
    assert (p - q) * d == 0.0;
  }

  /** Reading the hue off a colour of sector `i`. */
  lemma HueOfSector(i: int, v: real, m: real, n: real, f: real)
    requires 0 <= i <= 5 && m <= n <= v && m < v && Part(n, m, v) == 1.0 - f
    requires i % 2 == 0 ==> n < v
    requires i % 2 == 1 ==> m < n
    ensures HueBetween(Sector(i, v, m, n), m, v) == if i % 2 == 0 then i as real + (1.0 - f) else i as real + f
  {
    assert Part(m, m, v) == 0.0;
    assert Part(v, m, v) == 1.0 by { Quotient(v - m, v - m, 1.0); }
  }

  /** The middle component tells the place in the sector. */
  lemma PartOfMiddle(v: real, s: real, f: real)
    requires 0.0 < v && 0.0 < s <= 1.0 && 0.0 <= f <= 1.0
    ensures var m, n := Darkest(s, v), v * (1.0 - s * f);
            && m <= n <= v && m < v && (n < v <==> f > 0.0) && (n > m <==> f < 1.0)
            && Part(n, m, v) == 1.0 - f
  {
    var m, n := Darkest(s, v), v * (1.0 - s * f);
    Between(v, s, f);
    var d := v * s;
    assert d > 0.0 && v - m == d;
    assert v - n == d * f;
    assert n - m == d * (1.0 - f);
    Quotient(n - m, v - m, 1.0 - f);
  }

  lemma DarkestIsBelow(s: real, v: real)
    requires 0.0 < s <= 1.0 && 0.0 < v
    ensures Darkest(s, v) < v && Darkest(s, v) / v == 1.0 - s
  {
    assert v * s > 0.0;
    Quotient(Darkest(s, v), v, 1.0 - s);
  }

  lemma PlaceOfSlope(h: real)
    ensures h == h.Floor as real + if h.Floor % 2 == 0 then 1.0 - Slope(h) else Slope(h)
  {
  }

  /** `HueOfSector` for a given colour. */
  lemma HueOfColor(c: Color, i: int, v: real, m: real, n: real, f: real, h: real)
    requires 0 <= i <= 5 && m <= n <= v && m < v && Part(n, m, v) == 1.0 - f
    requires i % 2 == 0 ==> n < v
    requires i % 2 == 1 ==> m < n
    requires c == Sector(i, v, m, n) && h == i as real + if i % 2 == 0 then 1.0 - f else f
    ensures HueBetween(c, m, v) == h
  {
    HueOfSector(i, v, m, n, f);
  }

  lemma HexagonHue(h: real, s: real, v: real)
    requires 0.0 <= h < 6.0 && 0.0 < s <= 1.0 && 0.0 < v <= 1.0
    ensures Darkest(s, v) < v && HueBetween(Hexagon(h, s, v), Darkest(s, v), v) == h
  {
    PartOfMiddle(v, s, Slope(h));
    PlaceOfSlope(h);
    HueOfColor(Hexagon(h, s, v), h.Floor, v, Darkest(s, v), v * (1.0 - s * Slope(h)), Slope(h), h);
  }

  lemma ReadOff(c: Color, h: real, s: real, v: real, m: real)
    requires 0.0 < v && m < v && Max(c) == v && Min(c) == m && m / v == 1.0 - s && HueBetween(c, m, v) == h
    ensures Max(c) > Min(c) && Saturation(c) == s && Hue(c) == h
  {
  }

  lemma HsvIsHexagon(h: real, s: real, v: real)
    requires 0.0 <= h < 6.0 && 0.0 <= s <= 1.0 && 0.0 <= v <= 1.0
    ensures Hsv(h, s, v) == Hexagon(h, s, v)
  {
    TurnIsUnique(h, h, 0);
  }

  /** Hue, saturation and value can be read off the colour, unless it is grey. */
  lemma HsvCanBeRead(h: real, s: real, v: real)
    requires 0.0 <= h < 6.0 && 0.0 < s <= 1.0 && 0.0 < v <= 1.0
    ensures var c := Hsv(h, s, v);
            Max(c) > Min(c) && Max(c) == v && Saturation(c) == s && Hue(c) == h
  {
    HsvIsHexagon(h, s, v);
    HexagonBrightest(h, s, v);
    HexagonDarkest(h, s, v);
    HexagonHue(h, s, v);
    DarkestIsBelow(s, v);
    ReadOff(Hexagon(h, s, v), h, s, v, Darkest(s, v));
  }

  /** Black has neither hue nor saturation, grey has no hue. */
  lemma NoHue(h: real, s: real, v: real)
    requires 0.0 <= h < 6.0 && 0.0 <= s <= 1.0 && 0.0 <= v <= 1.0 && (v == 0.0 || s == 0.0)
    ensures Hsv(h, s, v) == Color(v, v, v)
  {
    HsvIsHexagon(h, s, v);
    assert Darkest(s, v) == v && v * (1.0 - s * Slope(h)) == v;
  }

  lemma SameProduct(v: real, x: real, y: real)
    requires v != 0.0 && v * x == v * y
    ensures x == y
  {
    assert v * (x - y) == 0.0;
  }

  lemma Tone(c: Color, h: real, s: real, v: real)
    requires 0.0 <= h < 6.0 && 0.0 <= s <= 1.0 && 0.0 <= v <= 1.0 && c == Hsv(h, s, v)
    ensures Max(c) == v && Min(c) == Darkest(s, v)
  {
    Extremes(h, s, v);
  }

  /** Value and saturation can be read off any colour but black. */
  lemma SameColorSameTone(c: Color, s: real, v: real, s': real, v': real)
    requires Max(c) == v && Min(c) == Darkest(s, v) && Max(c) == v' && Min(c) == Darkest(s', v')
    ensures v == v' && (v == 0.0 || s == s')
  {
    if v != 0.0 {
      SameProduct(v, 1.0 - s, 1.0 - s');
    }
  }

  lemma SameColorSameHue(h: real, s: real, v: real, h': real, s': real, v': real)
    requires 0.0 <= h < 6.0 && 0.0 < s <= 1.0 && 0.0 < v <= 1.0
    requires 0.0 <= h' < 6.0 && 0.0 < s' <= 1.0 && 0.0 < v' <= 1.0
    requires Hsv(h, s, v) == Hsv(h', s', v')
    ensures h == h'
  {
    HsvCanBeRead(h, s, v);
    HsvCanBeRead(h', s', v');
  }

  lemma SameColorOnlyIf(h: real, s: real, v: real, h': real, s': real, v': real)
    requires 0.0 <= h < 6.0 && 0.0 <= s <= 1.0 && 0.0 <= v <= 1.0
    requires 0.0 <= h' < 6.0 && 0.0 <= s' <= 1.0 && 0.0 <= v' <= 1.0
    requires Hsv(h, s, v) == Hsv(h', s', v')
    ensures v == v' && (v == 0.0 || s == s')
    ensures v != 0.0 && s != 0.0 ==> h == h'
  {
    Tone(Hsv(h, s, v), h, s, v);
    Tone(Hsv(h, s, v), h', s', v');
    SameColorSameTone(Hsv(h, s, v), s, v, s', v');
    if v != 0.0 && s != 0.0 {
      SameColorSameHue(h, s, v, h', s', v');
    }
  }

  /** Two settings give the same colour just when they differ only in what the colour does not have. */
  lemma SameColorIff(h: real, s: real, v: real, h': real, s': real, v': real)
    requires 0.0 <= h < 6.0 && 0.0 <= s <= 1.0 && 0.0 <= v <= 1.0
    requires 0.0 <= h' < 6.0 && 0.0 <= s' <= 1.0 && 0.0 <= v' <= 1.0
    ensures Hsv(h, s, v) == Hsv(h', s', v')
       <==> v == v' && (v == 0.0 || (s == s' && (s == 0.0 || h == h')))
  {
    if Hsv(h, s, v) == Hsv(h', s', v') {
      SameColorOnlyIf(h, s, v, h', s', v');
    }
    if v == v' && (v == 0.0 || (s == s' && s == 0.0)) {
      NoHue(h, s, v);
      NoHue(h', s', v');
    }
  }

  /** The hue of a report's bars: the reports go once around the hexagon. */
  function ReportHue(report: nat, numReports: nat): real
    requires numReports > 0
  {
    6.0 / numReports as real * report as real
  }

  lemma ReportHueInRange(report: nat, numReports: nat)
    requires report < numReports
    ensures 0.0 <= ReportHue(report, numReports) < 6.0
  {
    var step := 6.0 / numReports as real;
    assert step * numReports as real == 6.0;
    assert step > 0.0;
    assert step * report as real + step * (numReports - report) as real == 6.0;
    assert step * (numReports - report) as real > 0.0;
  }

  lemma ReportHuesDiffer(report: nat, report': nat, numReports: nat)
    requires report < report' < numReports
    ensures ReportHue(report, numReports) != ReportHue(report', numReports)
  {
    var step := 6.0 / numReports as real;
    assert step * numReports as real == 6.0;
    assert step > 0.0;
    assert step * (report' - report) as real > 0.0;
  }

  function ReportColor(report: nat, numReports: nat): Color
    requires numReports > 0
  {
    Hsv(ReportHue(report, numReports), 0.7, 0.7)
  }

  method SetReportColor(report: nat, numReports: nat) returns (color: Color)
    requires report < numReports
    ensures color == ReportColor(report, numReports)
  {
    color := HsvToRgb(6.0 / numReports as real * report as real, 0.7, 0.7);
  }

  /** The reports' colours are equally bright and strong, in the hue of each report. */
  lemma ReportColorIs(report: nat, numReports: nat)
    requires report < numReports
    ensures var c := ReportColor(report, numReports);
            Max(c) > Min(c) && Max(c) == 0.7 && Saturation(c) == 0.7 && Hue(c) == ReportHue(report, numReports)
  {
    ReportHueInRange(report, numReports);
    HsvCanBeRead(ReportHue(report, numReports), 0.7, 0.7);
  }

  /** The hues are equally far apart, once around the hexagon. */
  lemma ReportHueIs(report: nat, numReports: nat)
    requires numReports > 0
    ensures ReportHue(report, numReports) * numReports as real == 6.0 * report as real
  {
    var step := 6.0 / numReports as real;
    assert step * numReports as real == 6.0;
    HueTimesReports(step, report, numReports);
  }

  lemma HueTimesReports(step: real, report: nat, numReports: nat)
    requires step * numReports as real == 6.0
    ensures (step * report as real) * numReports as real == 6.0 * report as real
  {
    assert (step * report as real) * numReports as real == (step * numReports as real) * report as real;
  }

  /** No two reports of a chart have the same colour. */
  lemma ReportColorsDiffer(report: nat, report': nat, numReports: nat)
    requires report < report' < numReports
    ensures ReportColor(report, numReports) != ReportColor(report', numReports)
  {
    var h, h' := ReportHue(report, numReports), ReportHue(report', numReports);
    ReportHueInRange(report, numReports);
    ReportHueInRange(report', numReports);
    ReportHuesDiffer(report, report', numReports);
    SameColorIff(h, 0.7, 0.7, h', 0.7, 0.7);
  }
}
