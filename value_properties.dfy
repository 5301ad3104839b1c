/** Properties of the value formatter: what a formatted number denotes, how the pattern
    fixes the places, which texts read as dates, and how a date pattern is translated. */
module ValueProperties {
  import opened Strings
  import opened Values
  import opened ValueMorpher

  // ---------------------------------------------------------------------------
  // Helpers about digits and splitting
  // ---------------------------------------------------------------------------

  lemma SplitOnThree(a: string, b: string, c: string, sep: char)
    requires sep !in a && sep !in b && sep !in c
    ensures SplitOn(a + [sep] + b + [sep] + c, sep) == [a, b, c]
  {
    var parts := [a, b, c];
    assert parts[1..] == [b, c] && parts[1..][1..] == [c];
    assert JoinOn([b, c], sep) == b + [sep] + c;
    assert JoinOn(parts, sep) == a + [sep] + (b + [sep] + c);
    assert a + [sep] + (b + [sep] + c) == a + [sep] + b + [sep] + c;
    SplitOnJoin(parts, sep);
  }

  // ---------------------------------------------------------------------------
  // Decimals: the text `f'{x:.{n}f}'` gives denotes `x` rounded to `n` places
  // ---------------------------------------------------------------------------

  /** The number the fixed-point text of `x` stands for. */
  function FixedValue(x: real, places: nat): real {
    SignedPoint(x < 0.0, Scaled(x, places), places)
  }

  /** `q / 10^places`, negated when `negative`. */
  function SignedPoint(negative: bool, q: nat, places: nat): real {
    if negative then -PointValue(q, places) else PointValue(q, places)
  }

  /** `q / 10^places`. */
  function PointValue(q: nat, places: nat): real {
    q as real / Pow10(places) as real
  }

  lemma RealSplit(a: nat, b: nat, p: nat, q: nat)
    requires p >= 1 && q == a * p + b
    ensures a as real + b as real / p as real == q as real / p as real
  {
    var pr := p as real;
    assert a as real == (a as real * pr) / pr;
    assert q as real == a as real * pr + b as real;
  }

  lemma PointJoinValue(whole: nat, frac: nat, places: nat)
    requires places > 0 && frac < Pow10(places)
    ensures ParseUnsigned(PointJoin(whole, frac, places))
            == Some(whole as real + frac as real / Pow10(places) as real)
  {
    var a := NatText(whole);
    var b := ZeroPad(frac, places);
    NoDotInDigits(a);
    NoDotInDigits(b);
    assert PointJoin(whole, frac, places) == a + "." + b;
    assert JoinOn([a, b], '.') == a + "." + b;
    SplitOnJoin([a, b], '.');
  }

  lemma PointTextValue(q: nat, places: nat)
    ensures ParseUnsigned(PointText(q, places)) == Some(PointValue(q, places))
  {
    if places == 0 {
      assert Pow10(0) == 1;
      assert PointValue(q, 0) == q as real;
      NoDotInDigits(NatText(q));
      SplitOnAbsent(NatText(q), '.');
    } else {
      var p := Pow10(places);
      DivModBounds(q, p);
      PointJoinValue(q / p, q % p, places);
      RealSplit(q / p, q % p, p, q);
    }
  }

  lemma PointTextUnsigned(q: nat, places: nat)
    ensures |PointText(q, places)| > 0
    ensures PointText(q, places)[0] != '+' && PointText(q, places)[0] != '-'
  {
    var body := PointText(q, places);
    if places == 0 {
      assert IsDigit(body[0]);
    } else {
      assert body[..|body| - places - 1][0] == body[0];
    }
  }

  lemma ParseRealMinus(body: string)
    requires |body| > 0 && body[0] != '+' && body[0] != '-'
    ensures ParseReal(body) == ParseUnsigned(body)
    ensures ParseReal("-" + body) == (match ParseUnsigned(body)
                                      case Some(u) => Some(-u)
                                      case None => None)
  {
    assert ("-" + body)[1..] == body;
  }

  /** A sign and a point text read back as the signed quotient. */
  lemma SignedPointTextValue(negative: bool, q: nat, places: nat)
    ensures ParseReal(SignedPointText(negative, q, places)) == Some(SignedPoint(negative, q, places))
  {
    SignedBodyValue(negative, q, places);
    assert SignedPointText(negative, q, places) == (if negative then "-" else "") + PointText(q, places);
  }

  lemma SignedBodyValue(negative: bool, q: nat, places: nat)
    ensures ParseReal((if negative then "-" else "") + PointText(q, places)) == Some(SignedPoint(negative, q, places))
  {
    var body := PointText(q, places);
    var u := PointValue(q, places);
    assert ParseUnsigned(body) == Some(u) && |body| > 0 && body[0] != '+' && body[0] != '-' by {
      PointTextValue(q, places);
      PointTextUnsigned(q, places);
    }
    SignedText(negative, body, u);
    assert SignedPoint(negative, q, places) == if negative then -u else u;
  }

  lemma SignedText(negative: bool, body: string, u: real)
    requires |body| > 0 && body[0] != '+' && body[0] != '-'
    requires ParseUnsigned(body) == Some(u)
    ensures ParseReal((if negative then "-" else "") + body) == Some(if negative then -u else u)
  {
    ParseRealMinus(body);
    if negative {
      assert (if negative then "-" else "") + body == "-" + body;
    } else {
      assert (if negative then "-" else "") + body == body;
    }
  }

  /** The text `f'{x:.{n}f}'` gives reads back, with Python's `float()`, as the value
      of the rounding. */
  lemma FixedPointReadsBack(x: real, places: nat)
    ensures ParseReal(FixedPoint(x, places)) == Some(FixedValue(x, places))
  {
    SignedPointTextValue(x < 0.0, Scaled(x, places), places);
  }

  lemma DivLe(a: real, b: real, p: real)
    requires p > 0.0 && a <= b
    ensures a / p <= b / p
  {
    assert (b / p - a / p) * p == b - a;
  }

  /** The arithmetic of the rounding bound, on plain numbers. */
  lemma RoundingGap(x: real, mag: real, y: real, q: real, p: real)
    requires p >= 1.0 && mag == (if x < 0.0 then -x else x) && y == mag * p
    requires q - y <= 0.5 && y - q <= 0.5
    ensures (if x < 0.0 then -(q / p) else q / p) - x <= 0.5 / p
    ensures x - (if x < 0.0 then -(q / p) else q / p) <= 0.5 / p
  {
    var u := q / p;
    assert u - mag == (q - mag * p) / p;
    assert mag - u == (mag * p - q) / p;
    DivLe(q - mag * p, 0.5, p);
    DivLe(mag * p - q, 0.5, p);
  }

  /** Shifting by `places` multiplies by the power of ten. */
  lemma {:induction false} ShiftedIsProduct(m: real, places: nat)
    ensures Shifted(m, places) == m * Pow10(places) as real
  {
    if places > 0 {
      ShiftedIsProduct(m, places - 1);
      assert Pow10(places) as real == 10.0 * Pow10(places - 1) as real;
    }
  }

  /** A scaled magnitude within half a unit gives a signed point value within half a
      unit of the last place. */
  lemma SignedPointGap(x: real, q: nat, places: nat)
    requires q as real - Shifted(Magnitude(x), places) <= 0.5
    requires Shifted(Magnitude(x), places) - q as real <= 0.5
    ensures SignedPoint(x < 0.0, q, places) - x <= 0.5 / Pow10(places) as real
    ensures x - SignedPoint(x < 0.0, q, places) <= 0.5 / Pow10(places) as real
  {
    var mag, p := Magnitude(x), Pow10(places) as real;
    ShiftedIsProduct(mag, places);
    RoundingGap(x, mag, Shifted(mag, places), q as real, p);
  }

  /** The rounding is within half a unit of the last place shown. */
  lemma FixedValueClose(x: real, places: nat)
    ensures FixedValue(x, places) - x <= 0.5 / Pow10(places) as real
    ensures x - FixedValue(x, places) <= 0.5 / Pow10(places) as real
  {
    SignedPointGap(x, Scaled(x, places), places);
  }

  /** `_decimal_format` keeps the places of the pattern: none for a pattern without a
      `.`, and otherwise exactly as many digits after the point as the pattern has
      between its first `.` and the next one. */
  lemma {:induction false} DecimalPlacesFirstSegment(a: string, b: string, rest: seq<string>)
    requires '.' !in a && '.' !in b
    requires forall i :: 0 <= i < |rest| ==> '.' !in rest[i]
    ensures DecimalPlaces(JoinOn([a, b] + rest, '.')) == |b|
  {
    var parts := [a, b] + rest;
    assert parts[1..] == [b] + rest;
    assert JoinOn(parts, '.') == a + "." + JoinOn([b] + rest, '.');
    assert '.' in JoinOn(parts, '.') by {
      assert JoinOn(parts, '.')[|a|] == '.';
    }
    forall i | 0 <= i < |parts| ensures '.' !in parts[i] {
      if i >= 2 {
        assert parts[i] == rest[i - 2];
      }
    }
    SplitOnJoin(parts, '.');
  }

  lemma DecimalPlacesNone(fmt: string)
    requires '.' !in fmt
    ensures DecimalPlaces(fmt) == 0
  {
  }

  /** What `_decimal_format` returns reads back as the number rounded to the places of
      the pattern, and has exactly that many digits after its point. */
  lemma DecimalFormatMeaning(fmt: string, x: real)
    ensures ParseReal(DecimalFormat(fmt, x)) == Some(FixedValue(x, DecimalPlaces(fmt)))
    ensures DecimalPlaces(fmt) == 0 ==> '.' !in DecimalFormat(fmt, x)
    ensures DecimalPlaces(fmt) > 0 ==>
              var r := DecimalFormat(fmt, x);
              r[|r| - DecimalPlaces(fmt) - 1] == '.' && AllDigits(r[|r| - DecimalPlaces(fmt)..])
  {
    var places := DecimalPlaces(fmt);
    assert DecimalFormat(fmt, x) == FixedPoint(x, places);
    FixedPointReadsBack(x, places);
  }

  /** An integer shows as itself with no places. */
  lemma FixedPointOfInteger(n: int)
    ensures FixedPoint(n as real, 0) == IntText(n)
  {
    assert Pow10(0) == 1;
    var m := Magnitude(n as real);
    assert m == (if n < 0 then -n else n) as real;
    assert Scaled(n as real, 0) == if n < 0 then -n else n;
  }

  // ---------------------------------------------------------------------------
  // Percentages
  // ---------------------------------------------------------------------------

  lemma {:induction false} DropTrailingPercent(b: string)
    requires '%' !in b
    ensures Replace(b + "%", "%", "") == b
    decreases |b|
  {
    if |b| == 0 {
      assert b + "%" == "%";
    } else {
      var s := b + "%";
      assert s[0] == b[0] && b[0] != '%';
      assert s[1..] == b[1..] + "%";
      DropTrailingPercent(b[1..]);
      assert b == [b[0]] + b[1..];
    }
  }

  /** The places of `_percentage_format` are the pattern's fractional characters other
      than the trailing `%`. */
  lemma PercentagePlacesCount(a: string, b: string)
    requires '.' !in a && '.' !in b && '%' !in b
    ensures PercentagePlaces(a + "." + b + "%") == |b|
  {
    var fmt := a + "." + b + "%";
    assert '.' !in b + "%";
    assert fmt == a + ['.'] + (b + "%");
    assert JoinOn([a, b + "%"], '.') == fmt;
    SplitOnJoin([a, b + "%"], '.');
    assert fmt[|a|] == '.';
    DropTrailingPercent(b);
  }

  // ---------------------------------------------------------------------------
  // Reading dates
  // ---------------------------------------------------------------------------

  lemma Pow10Values()
    ensures Pow10(2) == 100 && Pow10(4) == 10000
  {
  }

  /** The zero-padded fields of a valid date are what `strptime` reads back. */
  lemma PaddedFields(y: nat, m: nat, d: nat)
    requires ValidDate(y, m, d)
    ensures FieldValue(YearField, ZeroPad(y, 4)) == Some(y)
    ensures FieldValue(MonthField, ZeroPad(m, 2)) == Some(m)
    ensures FieldValue(DayField, ZeroPad(d, 2)) == Some(d)
  {
    Pow10Values();
    assert DaysInMonth(y, m) <= 31;
  }

  /** The day, month and year of a valid date, joined by `sep`, split back into those
      three pieces. */
  lemma PaddedSplit(y: nat, m: nat, d: nat, sep: char, dayFirst: bool)
    requires ValidDate(y, m, d) && !IsDigit(sep)
    ensures var ys, ms, ds := ZeroPad(y, 4), ZeroPad(m, 2), ZeroPad(d, 2);
            if dayFirst then SplitOn(ds + [sep] + ms + [sep] + ys, sep) == [ds, ms, ys]
            else SplitOn(ys + [sep] + ms + [sep] + ds, sep) == [ys, ms, ds]
  {
    var ys, ms, ds := ZeroPad(y, 4), ZeroPad(m, 2), ZeroPad(d, 2);
    DigitsExclude(ys, sep);
    DigitsExclude(ms, sep);
    DigitsExclude(ds, sep);
    if dayFirst {
      SplitOnThree(ds, ms, ys, sep);
    } else {
      SplitOnThree(ys, ms, ds, sep);
    }
  }

  /** The first layout that reads the text is the first of the list. */
  lemma FirstLayoutHead(s: string, layouts: seq<Layout>)
    requires |layouts| > 0 && ParseLayout(s, layouts[0]).Some?
    ensures FirstLayout(s, layouts) == ParseLayout(s, layouts[0])
  {
  }

  lemma FirstLayoutSkip(s: string, layouts: seq<Layout>)
    requires |layouts| > 0 && ParseLayout(s, layouts[0]).None?
    ensures FirstLayout(s, layouts) == FirstLayout(s, layouts[1..])
  {
  }

  /** `strptime` with one layout, once the text is known to split into three pieces
      that each read as their field. */
  lemma ParseLayoutFields(s: string, l: Layout, p0: string, p1: string, p2: string, a: nat, b: nat, c: nat)
    requires SplitOn(s, l.sep) == [p0, p1, p2]
    requires FieldValue(l.first, p0) == Some(a)
    requires FieldValue(l.second, p1) == Some(b)
    requires FieldValue(l.third, p2) == Some(c)
    requires ValidDate(Pick(l, YearField, a, b, c), Pick(l, MonthField, a, b, c), Pick(l, DayField, a, b, c))
    ensures ParseLayout(s, l) == Some(Moment(Pick(l, YearField, a, b, c), Pick(l, MonthField, a, b, c),
                                             Pick(l, DayField, a, b, c), 0, 0, 0))
  {
  }

  lemma IsoSplit(y: nat, m: nat, d: nat)
    requires ValidDate(y, m, d)
    ensures SplitOn(IsoDate(y, m, d), '-') == [ZeroPad(y, 4), ZeroPad(m, 2), ZeroPad(d, 2)]
  {
    assert IsoDate(y, m, d) == ZeroPad(y, 4) + ['-'] + ZeroPad(m, 2) + ['-'] + ZeroPad(d, 2);
    PaddedSplit(y, m, d, '-', false);
  }

  lemma IsoLayoutReads(y: nat, m: nat, d: nat)
    requires ValidDate(y, m, d)
    ensures ParseLayout(IsoDate(y, m, d), Layouts[0]) == Some(Moment(y, m, d, 0, 0, 0))
  {
    var l := Layout(YearField, MonthField, DayField, '-');
    assert Layouts[0] == l;
    IsoSplit(y, m, d);
    PaddedFields(y, m, d);
    ParseLayoutFields(IsoDate(y, m, d), l, ZeroPad(y, 4), ZeroPad(m, 2), ZeroPad(d, 2), y, m, d);
  }

  /** `date.isoformat()` of a valid date reads back, with the first layout, as that
      date at midnight. */
  lemma IsoDateReadsBack(y: nat, m: nat, d: nat, utcOffset: int)
    requires ValidDate(y, m, d)
    ensures ToMoment(Str(IsoDate(y, m, d)), utcOffset) == Ok(Moment(y, m, d, 0, 0, 0))
  {
    IsoLayoutReads(y, m, d);
    FirstLayoutHead(IsoDate(y, m, d), Layouts);
  }

  /** The dotted day-first text of a valid date. */
  function DottedDate(y: nat, m: nat, d: nat): string {
    ZeroPad(d, 2) + "." + ZeroPad(m, 2) + "." + ZeroPad(y, 4)
  }

  lemma DottedFailsIso(y: nat, m: nat, d: nat)
    requires ValidDate(y, m, d)
    ensures ParseLayout(DottedDate(y, m, d), Layouts[0]).None?
  {
    var ys, ms, ds := ZeroPad(y, 4), ZeroPad(m, 2), ZeroPad(d, 2);
    DigitsExclude(ys, '-');
    DigitsExclude(ms, '-');
    DigitsExclude(ds, '-');
    assert DottedDate(y, m, d) == ds + ['.'] + ms + ['.'] + ys;
    SplitOnAbsent(DottedDate(y, m, d), '-');
  }

  lemma DottedSplit(y: nat, m: nat, d: nat)
    requires ValidDate(y, m, d)
    ensures SplitOn(DottedDate(y, m, d), '.') == [ZeroPad(d, 2), ZeroPad(m, 2), ZeroPad(y, 4)]
  {
    assert DottedDate(y, m, d) == ZeroPad(d, 2) + ['.'] + ZeroPad(m, 2) + ['.'] + ZeroPad(y, 4);
    PaddedSplit(y, m, d, '.', true);
  }

  lemma DottedLayoutReads(y: nat, m: nat, d: nat)
    requires ValidDate(y, m, d)
    ensures ParseLayout(DottedDate(y, m, d), Layouts[1]) == Some(Moment(y, m, d, 0, 0, 0))
  {
    var l := Layout(DayField, MonthField, YearField, '.');
    assert Layouts[1] == l;
    DottedSplit(y, m, d);
    PaddedFields(y, m, d);
    ParseLayoutFields(DottedDate(y, m, d), l, ZeroPad(d, 2), ZeroPad(m, 2), ZeroPad(y, 4), d, m, y);
  }

  /** `DD.MM.YYYY` text fails the first layout and is read by the second. */
  lemma DottedDateReadsBack(y: nat, m: nat, d: nat, utcOffset: int)
    requires ValidDate(y, m, d)
    ensures ToMoment(Str(DottedDate(y, m, d)), utcOffset) == Ok(Moment(y, m, d, 0, 0, 0))
  {
    var s := DottedDate(y, m, d);
    DottedFailsIso(y, m, d);
    DottedLayoutReads(y, m, d);
    FirstLayoutSkip(s, Layouts);
    assert Layouts[1..][0] == Layouts[1];
    FirstLayoutHead(s, Layouts[1..]);
  }

  /** Text without any of the separators `-`, `.` and `/` is never a date. */
  lemma SeparatorFreeRejected(s: string, utcOffset: int)
    requires '-' !in s && '.' !in s && '/' !in s
    ensures ToMoment(Str(s), utcOffset) == Err(DateError(Str(s)))
  {
    SplitOnAbsent(s, '-');
    SplitOnAbsent(s, '.');
    SplitOnAbsent(s, '/');
    forall j | 0 <= j < |Layouts| ensures ParseLayout(s, Layouts[j]).None? {
      assert Layouts[j].sep in {'-', '.', '/'};
    }
  }

  /** Dotted text whose year has two digits is not read by any layout (`%Y` takes
      exactly four). */
  lemma TwoDigitYearRejected(a: string, b: string, c: string, utcOffset: int)
    requires AllDigits(a) && AllDigits(b) && AllDigits(c) && |c| == 2
    ensures ToMoment(Str(a + "." + b + "." + c), utcOffset).Err?
  {
    var s := a + "." + b + "." + c;
    DigitPieces(a, b, c);
    assert FieldValue(YearField, c).None?;
    forall j | 0 <= j < |Layouts| ensures ParseLayout(s, Layouts[j]).None? {
      if j != 1 {
        assert Layouts[j].sep in {'-', '/'};
      }
    }
  }

  /** How digit runs joined by dots split on each separator. */
  lemma DigitPieces(a: string, b: string, c: string)
    requires AllDigits(a) && AllDigits(b) && AllDigits(c)
    ensures var s := a + "." + b + "." + c;
            SplitOn(s, '.') == [a, b, c] && SplitOn(s, '-') == [s] && SplitOn(s, '/') == [s]
  {
    var s := a + "." + b + "." + c;
    assert s == a + ['.'] + b + ['.'] + c;
    DigitsExclude(a, '.');
    DigitsExclude(b, '.');
    DigitsExclude(c, '.');
    SplitOnThree(a, b, c, '.');
    assert forall k :: 0 <= k < |s| ==> IsDigit(s[k]) || s[k] == '.';
    SplitOnAbsent(s, '-');
    SplitOnAbsent(s, '/');
  }

  // ---------------------------------------------------------------------------
  // The calendar, counted day by day
  // ---------------------------------------------------------------------------

  function DaysInYear(y: int): nat {
    if IsLeapYear(y) then 366 else 365
  }

  /** Days from 1970-01-01 to 1 January of year `y`, counted a whole year at a time. */
  function YearStart(y: int): int
    decreases if y >= 1970 then y - 1970 else 1970 - y
  {
    if y == 1970 then 0
    else if y > 1970 then YearStart(y - 1) + DaysInYear(y - 1)
    else YearStart(y + 1) - DaysInYear(y)
  }

  /** Days from 1 January to the first of month `m`, counted a whole month at a time. */
  function MonthStart(y: int, m: nat): nat
    requires 1 <= m <= 12
  {
    if m == 1 then 0 else MonthStart(y, m - 1) + DaysInMonth(y, m - 1)
  }

  /** Days from 1970-01-01 to the date `y`-`m`-`d`: whole years, then whole months, then
      days. */
  function DaysFromCivil(y: int, m: nat, d: int): int
    requires 1 <= m <= 12
  {
    YearStart(y) + MonthStart(y, m) + d - 1
  }

  /** Days from 1970-01-01 to 1 March of year `y`, in closed form. */
  function MarchStart(y: int): int {
    365 * y + y / 4 - y / 100 + y / 400 - 719468
  }

  lemma MarchStartStep(y: int)
    ensures MarchStart(y) - MarchStart(y - 1) == DaysInYear(y)
  {
    assert y / 4 - (y - 1) / 4 == (if y % 4 == 0 then 1 else 0);
    assert y / 100 - (y - 1) / 100 == (if y % 100 == 0 then 1 else 0);
    assert y / 400 - (y - 1) / 400 == (if y % 400 == 0 then 1 else 0);
  }

  /** 1 January comes 306 days after the 1 March before it. */
  lemma {:induction false} YearStartClosed(y: int)
    ensures YearStart(y) == MarchStart(y - 1) + 306
    decreases if y >= 1970 then y - 1970 else 1970 - y
  {
    if y > 1970 {
      YearStartClosed(y - 1);
      MarchStartStep(y - 1);
    } else if y < 1970 {
      YearStartClosed(y + 1);
      MarchStartStep(y);
    }
  }

  /** From March on, the months start where the 153-day five-month pattern puts them. */
  lemma {:induction false} MonthStartMarch(y: int, m: nat)
    requires 3 <= m <= 12
    ensures MonthStart(y, m) == 59 + (if IsLeapYear(y) then 1 else 0) + (153 * (m - 3) + 2) / 5
  {
    if m > 3 {
      MonthStartMarch(y, m - 1);
      assert (153 * (m - 3) + 2) / 5 - (153 * (m - 4) + 2) / 5 == DaysInMonth(y, m - 1);
    } else {
      assert MonthStart(y, 2) == 31;
    }
  }

  /** Year `yoe` of era `era` starts where the era's day count puts it. */
  lemma MarchStartEra(yoe: int, era: int)
    requires 0 <= yoe < 400
    ensures MarchStart(yoe + era * 400) == era * 146097 + EraYearStart(yoe) - 719468
  {
    var y := yoe + era * 400;
    assert y / 4 == yoe / 4 + era * 100;
    assert y / 100 == yoe / 100 + era * 4;
    assert y / 400 == era;
  }

  /** The date `CivilFromDays` gives for a day count lies that many days after
      1970-01-01. */
  lemma CivilRoundTrip(n: int)
    ensures DaysFromCivil(CivilFromDays(n).0, CivilFromDays(n).1, CivilFromDays(n).2) == n
  {
    var era := (n + 719468) / 146097;
    EraRoundTrip(era, n + 719468 - era * 146097);
  }

  /** Day `doe` of era `era` lies that many days after the era's first day. */
  lemma EraRoundTrip(era: int, doe: int)
    requires 0 <= doe < 146097
    ensures var r := EraDate(era, doe);
            DaysFromCivil(r.0, r.1, r.2) == era * 146097 + doe - 719468
  {
    YearOfEraBounds(doe);
    var yoe := YearOfEra(doe);
    MarchDate(era, yoe, doe - EraYearStart(yoe));
  }

  /** Day `doy`, counted from 1 March, of year `yoe` of era `era` lies that many days
      after the era's first day. */
  lemma MarchDate(era: int, yoe: int, doy: int)
    requires 0 <= yoe < 400 && 0 <= doy < (if IsLeapYear(yoe + 1) then 366 else 365)
    ensures var r := YearDate(era, yoe, doy);
            DaysFromCivil(r.0, r.1, r.2) == era * 146097 + EraYearStart(yoe) + doy - 719468
  {
    MonthOfYear(doy, yoe + 1);
    var mp := (5 * doy + 2) / 153;
    var d := doy - (153 * mp + 2) / 5 + 1;
    MarchStartEra(yoe, era);
    if mp < 10 {
      LateMonthDays(yoe + era * 400, mp + 3, d);
    } else {
      EarlyMonthDays(yoe + era * 400 + 1, mp - 9, d);
    }
  }

  /** A date from March on, counted from 1 March of its year. */
  lemma LateMonthDays(y: int, m: nat, d: int)
    requires 3 <= m <= 12
    ensures DaysFromCivil(y, m, d) == MarchStart(y) + (153 * (m - 3) + 2) / 5 + d - 1
  {
    YearStartClosed(y);
    MarchStartStep(y);
    MonthStartMarch(y, m);
  }

  /** A date in January or February, counted from 1 March of the year before. */
  lemma EarlyMonthDays(y: int, m: nat, d: int)
    requires 1 <= m <= 2
    ensures DaysFromCivil(y, m, d) == MarchStart(y - 1) + (153 * (m + 9) + 2) / 5 + d - 1
  {
    YearStartClosed(y);
    assert MonthStart(y, m) == (if m == 1 then 0 else 31);
  }

  /** A month's days follow its start without reaching the next month or year. */
  lemma MonthEnd(y: int, m: nat)
    requires 1 <= m <= 12
    ensures m < 12 ==> MonthStart(y, m + 1) == MonthStart(y, m) + DaysInMonth(y, m)
    ensures m == 12 ==> MonthStart(y, m) + DaysInMonth(y, m) == DaysInYear(y)
  {
    if m == 12 {
      MonthStartMarch(y, 12);
    }
  }

  lemma {:induction false} MonthStartMonotone(y: int, a: nat, b: nat)
    requires 1 <= a <= b <= 12
    ensures MonthStart(y, a) <= MonthStart(y, b)
  {
    if a < b {
      MonthStartMonotone(y, a, b - 1);
    }
  }

  lemma {:induction false} YearStartMonotone(a: int, b: int)
    requires a <= b
    ensures YearStart(a) <= YearStart(b)
    decreases b - a
  {
    if a < b {
      YearStartMonotone(a, b - 1);
      assert YearStart(b) == YearStart(b - 1) + DaysInYear(b - 1);
    }
  }

  /** A date lies within its year. */
  lemma WithinYear(y: int, m: nat, d: int)
    requires 1 <= m <= 12 && 1 <= d <= DaysInMonth(y, m)
    ensures YearStart(y) <= DaysFromCivil(y, m, d) < YearStart(y + 1)
  {
    MonthEnd(y, m);
    if m < 12 {
      MonthStartMonotone(y, m + 1, 12);
      MonthEnd(y, 12);
    }
    assert YearStart(y + 1) == YearStart(y) + DaysInYear(y);
  }

  /** Different dates are different days. */
  lemma DaysFromCivilInjective(y: int, m: nat, d: int, y2: int, m2: nat, d2: int)
    requires 1 <= m <= 12 && 1 <= d <= DaysInMonth(y, m)
    requires 1 <= m2 <= 12 && 1 <= d2 <= DaysInMonth(y2, m2)
    requires DaysFromCivil(y, m, d) == DaysFromCivil(y2, m2, d2)
    ensures y == y2 && m == m2 && d == d2
  {
    WithinYear(y, m, d);
    WithinYear(y2, m2, d2);
    if y < y2 {
      YearStartMonotone(y + 1, y2);
    } else if y2 < y {
      YearStartMonotone(y2 + 1, y);
    } else if m < m2 {
      MonthEnd(y, m);
      MonthStartMonotone(y, m + 1, m2);
    } else if m2 < m {
      MonthEnd(y, m2);
      MonthStartMonotone(y, m2 + 1, m);
    }
  }

  /** Every date comes back from its day count. */
  lemma CivilFromDaysOf(y: int, m: nat, d: int)
    requires 1 <= m <= 12 && 1 <= d <= DaysInMonth(y, m)
    ensures CivilFromDays(DaysFromCivil(y, m, d)) == (y, m, d)
  {
    var n := DaysFromCivil(y, m, d);
    var r := CivilFromDays(n);
    CivilRoundTrip(n);
    DaysFromCivilInjective(y, m, d, r.0, r.1, r.2);
  }

  /** Seconds from 1970-01-01 00:00 to a moment, on the same clock. */
  function LocalSeconds(mo: Moment): int
    requires 1 <= mo.month <= 12
  {
    DaysFromCivil(mo.year, mo.month, mo.day) * SecondsPerDay + mo.hour * 3600 + mo.minute * 60 + mo.second
  }

  /** A moment converted from a second count lies that many seconds after 1970-01-01
      00:00. */
  lemma MomentAtMeaning(secs: int)
    requires MomentAt(secs).Ok?
    ensures LocalSeconds(MomentAt(secs).value) == secs
  {
    var days := secs / SecondsPerDay;
    var rem := secs % SecondsPerDay;
    CivilRoundTrip(days);
    ClockSplit(rem);
  }

  /** Every moment `datetime` can hold comes back from its second count. */
  lemma MomentAtOf(mo: Moment)
    requires ValidDate(mo.year, mo.month, mo.day) && mo.hour < 24 && mo.minute < 60 && mo.second < 60
    ensures MomentAt(LocalSeconds(mo)) == Ok(mo)
  {
    var days := DaysFromCivil(mo.year, mo.month, mo.day);
    var secs := LocalSeconds(mo);
    ClockParts(days, mo.hour, mo.minute, mo.second);
    assert secs / SecondsPerDay == days;
    CivilFromDaysOf(mo.year, mo.month, mo.day);
    assert CivilFromDays(secs / SecondsPerDay) == (mo.year, mo.month, mo.day);
    var rem := secs % SecondsPerDay;
    assert rem / 3600 == mo.hour && rem % 3600 / 60 == mo.minute && rem % 60 == mo.second;
    assert mo == Moment(mo.year, mo.month, mo.day, rem / 3600, rem % 3600 / 60, rem % 60);
  }

  /** What `fromtimestamp` gives is the instant, rounded to the microsecond and then to
      the second below, shifted by the zone's offset. */
  lemma TimestampMeaning(t: real, utcOffset: int)
    requires FromTimestamp(t, utcOffset).Ok?
    ensures LocalSeconds(FromTimestamp(t, utcOffset).value) == WholeSecond(t) + utcOffset
  {
    MomentAtMeaning(WallSecond(t, utcOffset));
  }

  /** `datetime(...).timestamp()` in a zone `utcOffset` seconds east of UTC reads back as
      the same date and time, for every moment. */
  lemma TimestampReadsBack(mo: Moment, utcOffset: int)
    requires ValidDate(mo.year, mo.month, mo.day) && mo.hour < 24 && mo.minute < 60 && mo.second < 60
    ensures FromTimestamp((LocalSeconds(mo) - utcOffset) as real, utcOffset) == Ok(mo)
  {
    WholeSeconds(LocalSeconds(mo) - utcOffset);
    assert WallSecond((LocalSeconds(mo) - utcOffset) as real, utcOffset) == LocalSeconds(mo);
    MomentAtOf(mo);
  }

  /** A whole number of seconds needs no rounding. */
  lemma WholeSeconds(k: int)
    ensures WholeSecond(k as real) == k
  {
  }

  /** `fromtimestamp` rounds the instant half-to-even to the microsecond and drops the
      microseconds: that is the second below the instant plus half a microsecond. */
  lemma WholeSecondRounds(t: real)
    ensures WholeSecond(t) == RoundSigned(t * 1000000.0) / 1000000
  {
    var n := WholeSecond(t);
    var us := RoundSigned(t * 1000000.0);
    assert n as real * 1000000.0 - 0.5 <= t * 1000000.0 < (n + 1) as real * 1000000.0 - 0.5;
    assert (n * 1000000 - 1) % 2 == 1;
    assert us != n * 1000000 - 1;
    assert n * 1000000 <= us < (n + 1) * 1000000;
  }

  /** The hour, minute and second of a second of the day give it back. */
  lemma ClockSplit(rem: int)
    requires 0 <= rem < SecondsPerDay
    ensures (rem / 3600) * 3600 + (rem % 3600 / 60) * 60 + rem % 60 == rem
  {
    assert rem % 3600 == rem - (rem / 3600) * 3600;
    assert rem % 60 == rem % 3600 % 60;
  }

  /** A second count splits back into its day, hour, minute and second. */
  lemma ClockParts(days: int, h: nat, mi: nat, sec: nat)
    requires h < 24 && mi < 60 && sec < 60
    ensures var secs := days * SecondsPerDay + h * 3600 + mi * 60 + sec;
            secs / SecondsPerDay == days && secs % SecondsPerDay == h * 3600 + mi * 60 + sec
    ensures var rem := h * 3600 + mi * 60 + sec;
            rem / 3600 == h && rem % 3600 / 60 == mi && rem % 60 == sec
  {
    var rem := h * 3600 + mi * 60 + sec;
    assert rem == 60 * (60 * h + mi) + sec;
    assert rem % 3600 == 60 * mi + sec;
  }

  // ---------------------------------------------------------------------------
  // Writing dates
  // ---------------------------------------------------------------------------

  /** A character that the translation and `strftime` both copy unchanged. */
  predicate Literal(c: char) {
    c !in DateLetters && c != '%' && c != 'd' && c != 'y' && c != 'S'
  }

  /** `strftime` on a directive or `%%` at the front. */
  lemma StrftimePairStep(f: string, m: Moment)
    requires |f| >= 2 && f[0] == '%' && (Directive(f[1], m).Some? || f[1] == '%')
    ensures Strftime(f, m) == (if Directive(f[1], m).Some? then Directive(f[1], m).value else "%") + Strftime(f[2..], m)
  {
  }

  /** `strftime` on any other first character. */
  lemma StrftimeCopyStep(f: string, m: Moment)
    requires |f| >= 1 && !(f[0] == '%' && |f| >= 2 && (Directive(f[1], m).Some? || f[1] == '%'))
    ensures Strftime(f, m) == [f[0]] + Strftime(f[1..], m)
  {
  }

  lemma ConcatRegroup(h: string, a: string, c: char, b: string)
    ensures h + (a + [c] + b) == (h + a) + [c] + b
  {
  }

  lemma DropFront(x: string, c: char, y: string, k: nat)
    requires k <= |x|
    ensures (x + [c] + y)[k..] == x[k..] + [c] + y
  {
  }

  lemma {:induction false} StrftimeSplits(x: string, c: char, y: string, m: Moment)
    requires c != '%' && Directive(c, m).None?
    ensures Strftime(x + [c] + y, m) == Strftime(x, m) + [c] + Strftime(y, m)
    decreases |x|
  {
    var s := x + [c] + y;
    if |x| == 0 {
      assert s == [c] + y && s[1..] == y;
      StrftimeCopyStep(s, m);
    } else {
      assert s[0] == x[0];
      assert |x| >= 2 ==> s[1] == x[1];
      assert |x| == 1 ==> s[1] == c;
      if x[0] == '%' && |x| >= 2 && (Directive(x[1], m).Some? || x[1] == '%') {
        var h := if Directive(x[1], m).Some? then Directive(x[1], m).value else "%";
        StrftimePairStep(x, m);
        StrftimePairStep(s, m);
        DropFront(x, c, y, 2);
        StrftimeSplits(x[2..], c, y, m);
        ConcatRegroup(h, Strftime(x[2..], m), c, Strftime(y, m));
      } else {
        StrftimeCopyStep(x, m);
        StrftimeCopyStep(s, m);
        DropFront(x, c, y, 1);
        StrftimeSplits(x[1..], c, y, m);
        ConcatRegroup([x[0]], Strftime(x[1..], m), c, Strftime(y, m));
      }
    }
  }

  lemma {:induction false} TranslateWithSplits(a: string, c: char, b: string, table: seq<(string, string)>)
    requires ValidTable(table)
    requires forall i :: 0 <= i < |table| ==> c !in table[i].0
    ensures TranslateWith(a + [c] + b, table) == TranslateWith(a, table) + [c] + TranslateWith(b, table)
    decreases |table|
  {
    if |table| > 0 {
      var init := table[..|table| - 1];
      var last := table[|table| - 1];
      assert forall i :: 0 <= i < |init| ==> init[i] == table[i];
      TranslateWithSplits(a, c, b, init);
      ReplaceSplits(TranslateWith(a, init), c, TranslateWith(b, init), last.0, last.1);
    }
  }

  /** No pattern token contains a literal character. */
  lemma LiteralOutsideTokens(c: char)
    requires Literal(c)
    ensures forall i :: 0 <= i < |TokenTable| ==> c !in TokenTable[i].0
  {
    forall i | 0 <= i < |TokenTable| ensures c !in TokenTable[i].0 {
      assert forall k :: 0 <= k < |TokenTable[i].0| ==> TokenTable[i].0[k] in DateLetters;
    }
  }

  /** A literal character splits a date pattern: each side is translated and formatted
      on its own. */
  lemma DateTextSplits(a: string, c: char, b: string, m: Moment)
    requires Literal(c)
    ensures DateText(a + [c] + b, m) == DateText(a, m) + [c] + DateText(b, m)
  {
    LiteralOutsideTokens(c);
    TranslateWithSplits(a, c, b, TokenTable);
    StrftimeSplits(Translate(a), c, Translate(b), m);
  }

  /** `replace` leaves text shorter than the pattern alone. */
  lemma ReplaceShorter(s: string, pat: string, rep: string)
    requires |s| < |pat|
    ensures Replace(s, pat, rep) == s
  {
    ReplaceAbsent(s, pat, rep);
  }

  /** ... or when the text is `%` and one character and the pattern does not start
      with `%`. */
  lemma ReplaceDirective(x: char, pat: string, rep: string)
    requires |pat| >= 2 && pat[0] != '%'
    ensures Replace(['%', x], pat, rep) == ['%', x]
  {
    forall i: nat ensures !OccursAt(['%', x], pat, i) {
      if i == 0 && |pat| <= 2 {
        assert ['%', x][0..|pat|][0] == '%';
      }
    }
    ReplaceAbsent(['%', x], pat, rep);
  }

  lemma ReplaceWhole(pat: string, rep: string)
    requires |pat| > 0
    ensures Replace(pat, pat, rep) == rep
  {
    assert pat[|pat|..] == [];
  }

  lemma TranslateStep(f: string, table: seq<(string, string)>, k: nat)
    requires ValidTable(table) && 0 < k <= |table|
    ensures TranslateWith(f, table[..k]) == Replace(TranslateWith(f, table[..k - 1]), table[k - 1].0, table[k - 1].1)
  {
    assert table[..k][..k - 1] == table[..k - 1];
  }

  /** The translation is the seven replacements of the table, in order. */
  lemma TranslateChain(f: string)
    ensures Translate(f) ==
      Replace(Replace(Replace(Replace(Replace(Replace(Replace(f,
        "DD", "%d"), "MM", "%m"), "YYYY", "%Y"), "YY", "%y"), "HH", "%H"), "mm", "%M"), "ss", "%S")
  {
    var t := TokenTable;
    assert t[..0] == [] && t[..7] == t;
    TranslateStep(f, t, 1);
    TranslateStep(f, t, 2);
    TranslateStep(f, t, 3);
    TranslateStep(f, t, 4);
    TranslateStep(f, t, 5);
    TranslateStep(f, t, 6);
    TranslateStep(f, t, 7);
  }

  /** Every directive the table produces is left alone by the replacements after it. */
  lemma DirectiveSurvives(x: char)
    ensures Replace(['%', x], "DD", "%d") == ['%', x] && Replace(['%', x], "MM", "%m") == ['%', x]
    ensures Replace(['%', x], "YYYY", "%Y") == ['%', x] && Replace(['%', x], "YY", "%y") == ['%', x]
    ensures Replace(['%', x], "HH", "%H") == ['%', x] && Replace(['%', x], "mm", "%M") == ['%', x]
    ensures Replace(['%', x], "ss", "%S") == ['%', x]
  {
    ReplaceDirective(x, "DD", "%d");
    ReplaceDirective(x, "MM", "%m");
    ReplaceDirective(x, "YYYY", "%Y");
    ReplaceDirective(x, "YY", "%y");
    ReplaceDirective(x, "HH", "%H");
    ReplaceDirective(x, "mm", "%M");
    ReplaceDirective(x, "ss", "%S");
  }

  lemma DirectiveText(x: char, m: Moment)
    requires Directive(x, m).Some?
    ensures Strftime(['%', x], m) == Directive(x, m).value
  {
    assert ['%', x][2..] == [];
  }

  lemma DayToken(m: Moment)
    ensures DateText("DD", m) == ZeroPad(m.day, 2)
  {
    TranslateChain("DD");
    ReplaceWhole("DD", "%d");
    DirectiveSurvives('d');
    DirectiveText('d', m);
  }

  lemma MonthToken(m: Moment)
    ensures DateText("MM", m) == ZeroPad(m.month, 2)
  {
    TranslateChain("MM");
    ReplaceLacking("MM", "DD", "%d");
    ReplaceWhole("MM", "%m");
    DirectiveSurvives('m');
    DirectiveText('m', m);
  }

  lemma YearToken(m: Moment)
    ensures DateText("YYYY", m) == ZeroPad(m.year, 4)
  {
    TranslateChain("YYYY");
    ReplaceLacking("YYYY", "DD", "%d");
    ReplaceLacking("YYYY", "MM", "%m");
    ReplaceWhole("YYYY", "%Y");
    DirectiveSurvives('Y');
    DirectiveText('Y', m);
  }

  lemma ShortYearToken(m: Moment)
    ensures DateText("YY", m) == ZeroPad(m.year % 100, 2)
  {
    TranslateChain("YY");
    ReplaceLacking("YY", "DD", "%d");
    ReplaceLacking("YY", "MM", "%m");
    ReplaceShorter("YY", "YYYY", "%Y");
    ReplaceWhole("YY", "%y");
    DirectiveSurvives('y');
    DirectiveText('y', m);
  }

  lemma HourToken(m: Moment)
    ensures DateText("HH", m) == ZeroPad(m.hour, 2)
  {
    TranslateChain("HH");
    ReplaceLacking("HH", "DD", "%d");
    ReplaceLacking("HH", "MM", "%m");
    ReplaceLacking("HH", "YYYY", "%Y");
    ReplaceLacking("HH", "YY", "%y");
    ReplaceWhole("HH", "%H");
    DirectiveSurvives('H');
    DirectiveText('H', m);
  }

  lemma MinuteToken(m: Moment)
    ensures DateText("mm", m) == ZeroPad(m.minute, 2)
  {
    TranslateChain("mm");
    ReplaceLacking("mm", "DD", "%d");
    ReplaceLacking("mm", "MM", "%m");
    ReplaceLacking("mm", "YYYY", "%Y");
    ReplaceLacking("mm", "YY", "%y");
    ReplaceLacking("mm", "HH", "%H");
    ReplaceWhole("mm", "%M");
    DirectiveSurvives('M');
    DirectiveText('M', m);
  }

  lemma SecondToken(m: Moment)
    ensures DateText("ss", m) == ZeroPad(m.second, 2)
  {
    TranslateChain("ss");
    ReplaceLacking("ss", "DD", "%d");
    ReplaceLacking("ss", "MM", "%m");
    ReplaceLacking("ss", "YYYY", "%Y");
    ReplaceLacking("ss", "YY", "%y");
    ReplaceLacking("ss", "HH", "%H");
    ReplaceLacking("ss", "mm", "%M");
    ReplaceWhole("ss", "%S");
    DirectiveSurvives('S');
    DirectiveText('S', m);
  }

  lemma QuirkMonthStep()
    ensures Replace("MMmm", "MM", "%m") == "%mmm"
  {
    assert "MM" <= "MMmm" && "MMmm"[2..] == "mm";
    ReplaceLacking("mm", "MM", "%m");
  }

  lemma QuirkMinuteStep()
    ensures Replace("%mmm", "mm", "%M") == "%%Mm"
  {
    var t := "%mmm";
    assert t[..2][0] == '%';
    assert t[1..] == "mmm";
    assert "mm" <= "mmm" && "mmm"[2..] == "m";
    ReplaceShorter("m", "mm", "%M");
  }

  lemma QuirkFirstHalf()
    ensures Replace(Replace(Replace(Replace("MMmm", "DD", "%d"), "MM", "%m"), "YYYY", "%Y"), "YY", "%y") == "%mmm"
  {
    ReplaceLacking("MMmm", "DD", "%d");
    QuirkMonthStep();
    ReplaceLacking("%mmm", "YYYY", "%Y");
    ReplaceLacking("%mmm", "YY", "%y");
  }

  lemma QuirkSecondHalf()
    ensures Replace(Replace(Replace("%mmm", "HH", "%H"), "mm", "%M"), "ss", "%S") == "%%Mm"
  {
    ReplaceLacking("%mmm", "HH", "%H");
    QuirkMinuteStep();
    ReplaceLacking("%%Mm", "ss", "%S");
  }

  lemma QuirkTranslation()
    ensures Translate("MMmm") == "%%Mm"
  {
    TranslateChain("MMmm");
    QuirkFirstHalf();
    QuirkSecondHalf();
  }

  /** The replacements run one after another over the whole pattern, so a month token
      written right before a minute token turns into `%%M` and prints as a literal
      `%M`. */
  lemma MonthThenMinuteQuirk(m: Moment)
    ensures DateText("MMmm", m) == "%Mm"
  {
    QuirkTranslation();
    var u := "%%Mm";
    assert u[0] == '%' && u[1] == '%' && Directive('%', m).None?;
    assert u[2..] == "Mm" && "Mm"[1..] == "m" && "m"[1..] == [];
    assert Strftime("Mm", m) == "Mm";
  }

  // ---------------------------------------------------------------------------
  // The value formatter end to end
  // ---------------------------------------------------------------------------

  /** A pattern with a date letter and no `0` is a date pattern. */
  lemma DateLetterPattern(fmt: string, i: nat)
    requires i < |fmt| && fmt[i] in DateLetters && '0' !in fmt
    ensures KindOf(fmt) == Some(DateKind)
  {
  }

  /** A pattern with neither a point nor a date letter shows `str(value)`, whatever the
      value. */
  lemma PlainPatternFallback(fmt: string, v: Value, utcOffset: int)
    requires '.' !in fmt && forall i :: 0 <= i < |fmt| ==> fmt[i] !in DateLetters
    ensures Morph(fmt, v, utcOffset) == Ok(ToText(v))
  {
    assert !HasDateLetter(fmt);
  }

  /** A date pattern of three tokens and two literal separators. */
  lemma ThreeTokens(t1: string, c1: char, t2: string, c2: char, t3: string, m: Moment)
    requires Literal(c1) && Literal(c2)
    ensures DateText(t1 + [c1] + t2 + [c2] + t3, m)
            == DateText(t1, m) + [c1] + DateText(t2, m) + [c2] + DateText(t3, m)
  {
    assert t1 + [c1] + t2 + [c2] + t3 == t1 + [c1] + (t2 + [c2] + t3);
    DateTextSplits(t2, c2, t3, m);
    DateTextSplits(t1, c1, t2 + [c2] + t3, m);
  }

  /** `DD.MM.YYYY` writes the dotted day-first text of the date. */
  lemma DottedPattern(m: Moment)
    ensures DateText("DD.MM.YYYY", m) == DottedDate(m.year, m.month, m.day)
  {
    assert "DD.MM.YYYY" == "DD" + ['.'] + "MM" + ['.'] + "YYYY";
    ThreeTokens("DD", '.', "MM", '.', "YYYY", m);
    DayToken(m);
    MonthToken(m);
    YearToken(m);
  }

  /** `YYYY-MM-DD` writes `date.isoformat()`. */
  lemma IsoPattern(m: Moment)
    ensures DateText("YYYY-MM-DD", m) == IsoDate(m.year, m.month, m.day)
  {
    assert "YYYY-MM-DD" == "YYYY" + ['-'] + "MM" + ['-'] + "DD";
    ThreeTokens("YYYY", '-', "MM", '-', "DD", m);
    DayToken(m);
    MonthToken(m);
    YearToken(m);
  }

  /** Formatting a valid date with `DD.MM.YYYY` or `YYYY-MM-DD` and converting the text
      back gives midnight of that date. */
  lemma PatternRoundTrip(m: Moment, utcOffset: int)
    requires ValidDate(m.year, m.month, m.day)
    ensures ToMoment(Str(DateText("DD.MM.YYYY", m)), utcOffset) == Ok(Moment(m.year, m.month, m.day, 0, 0, 0))
    ensures ToMoment(Str(DateText("YYYY-MM-DD", m)), utcOffset) == Ok(Moment(m.year, m.month, m.day, 0, 0, 0))
  {
    DottedPattern(m);
    DottedDateReadsBack(m.year, m.month, m.day, utcOffset);
    IsoPattern(m);
    IsoDateReadsBack(m.year, m.month, m.day, utcOffset);
  }

  lemma ClockPattern(m: Moment)
    ensures DateText("HH:mm", m) == ZeroPad(m.hour, 2) + ":" + ZeroPad(m.minute, 2)
  {
    assert "HH:mm" == "HH" + [':'] + "mm";
    DateTextSplits("HH", ':', "mm", m);
    HourToken(m);
    MinuteToken(m);
  }

  lemma YearClockPattern(m: Moment)
    ensures DateText("YY HH:mm", m) == ZeroPad(m.year % 100, 2) + " " + ZeroPad(m.hour, 2) + ":" + ZeroPad(m.minute, 2)
  {
    assert "YY HH:mm" == "YY" + [' '] + "HH:mm";
    DateTextSplits("YY", ' ', "HH:mm", m);
    ShortYearToken(m);
    ClockPattern(m);
  }

  lemma SlashedHead(m: Moment)
    ensures DateText("DD/MM/YY HH:mm", m)
            == ZeroPad(m.day, 2) + "/" + ZeroPad(m.month, 2) + "/" + DateText("YY HH:mm", m)
  {
    assert "DD/MM/YY HH:mm" == "DD" + ['/'] + "MM" + ['/'] + "YY HH:mm";
    ThreeTokens("DD", '/', "MM", '/', "YY HH:mm", m);
    DayToken(m);
    MonthToken(m);
  }

  /** `DD/MM/YY HH:mm`: day, month, two-digit year, hour and minute. */
  lemma SlashedPattern(m: Moment)
    ensures DateText("DD/MM/YY HH:mm", m)
            == ZeroPad(m.day, 2) + "/" + ZeroPad(m.month, 2) + "/" + ZeroPad(m.year % 100, 2)
               + " " + ZeroPad(m.hour, 2) + ":" + ZeroPad(m.minute, 2)
  {
    var dd, mo := ZeroPad(m.day, 2), ZeroPad(m.month, 2);
    var yy, hh, mi := ZeroPad(m.year % 100, 2), ZeroPad(m.hour, 2), ZeroPad(m.minute, 2);
    SlashedHead(m);
    YearClockPattern(m);
    RegroupTail(dd + "/" + mo + "/", yy, " ", hh, ":", mi);
  }

  lemma RegroupTail(a: string, b: string, c: string, d: string, e: string, f: string)
    ensures a + (b + c + d + e + f) == a + b + c + d + e + f
  {
  }

  /** A date written by `date.isoformat()` comes out of `DD.MM.YYYY` as the dotted
      day-first text. */
  lemma IsoTextToDotted(y: nat, m: nat, d: nat, utcOffset: int)
    requires ValidDate(y, m, d)
    ensures Morph("DD.MM.YYYY", Str(IsoDate(y, m, d)), utcOffset) == Ok(DottedDate(y, m, d))
  {
    DateLetterPattern("DD.MM.YYYY", 0);
    IsoDateReadsBack(y, m, d, utcOffset);
    DottedPattern(Moment(y, m, d, 0, 0, 0));
  }

  /** An object that is neither a date/time, a number nor text cannot be a date. */
  lemma UnsupportedDateValue(attrs: map<string, Value>, text: string, utcOffset: int)
    ensures Morph("DD.MM.YYYY", Obj(attrs, text), utcOffset).Err?
  {
    DateLetterPattern("DD.MM.YYYY", 0);
  }

  /** Unsigned decimal text holding a character other than a digit or `.` is no
      number. */
  lemma {:induction false} ParseUnsignedRejects(t: string, i: nat)
    requires i < |t| && !IsDigit(t[i]) && t[i] != '.'
    ensures ParseUnsigned(t).None?
  {
    var parts := SplitOn(t, '.');
    if |parts| == 2 {
      assert parts[1..] == [parts[1]];
      assert JoinOn(parts[1..], '.') == parts[1];
      assert t == parts[0] + ['.'] + parts[1];
      if i < |parts[0]| {
        assert parts[0][i] == t[i];
      } else {
        assert t[|parts[0]|] == '.';
        assert parts[1][i - |parts[0]| - 1] == t[i];
      }
    }
  }

  /** An ASCII character that `float()` accepts in no numeral: not a digit, point, sign or
      underscore, not an exponent marker, and no letter of `inf`, `infinity` or `nan` in
      either case. */
  predicate NeverNumeric(c: char) {
    (c as int) < 128 && !IsDigit(c)
    && c !in {'.', '+', '-', '_', 'e', 'E', 'i', 'I', 'n', 'N', 'f', 'F', 't', 'T', 'y', 'Y', 'a', 'A'}
  }

  /** A string whose stripped text holds such a character is the number conversion
      error. */
  lemma DecimalConvertRejects(s: string, i: nat)
    requires i < |Strip(s)| && NeverNumeric(Strip(s)[i])
    ensures DecimalConvert(Str(s)) == Err(NumberError(Str(s)))
  {
    var t := Strip(s);
    if t[0] == '+' || t[0] == '-' {
      assert i > 0 && t[1..][i - 1] == t[i];
      ParseUnsignedRejects(t[1..], i - 1);
    } else {
      ParseUnsignedRejects(t, i);
    }
  }

  /** Such text is the conversion error, whatever the decimal pattern. */
  lemma DecimalRejectsText(fmt: string, s: string, i: nat, utcOffset: int)
    requires '.' in fmt && '0' in fmt
    requires i < |Strip(s)| && NeverNumeric(Strip(s)[i])
    ensures Morph(fmt, Str(s), utcOffset) == Err(NumberError(Str(s)))
  {
    DecimalConvertRejects(s, i);
    assert KindOf(fmt) == Some(DecimalKind);
  }
}
