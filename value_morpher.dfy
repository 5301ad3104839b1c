/** The value formatter: infers from a pattern whether it asks for a decimal or a
    date/time rendering, coerces the value to that kind, and renders it. */
module ValueMorpher {
  import opened Strings
  import opened Values

  // ---------------------------------------------------------------------------
  // Kind inference
  // ---------------------------------------------------------------------------

  /** The two entries of the formatter's table, in the order they are tried. */
  datatype Kind = DecimalKind | DateKind

  const FormatTypes: seq<Kind> := [DecimalKind, DateKind]

  /** The single-character tokens whose presence marks a date pattern. */
  const DateLetters: set<char> := {'D', 'M', 'Y', 'H', 'm', 's'}

  predicate HasDateLetter(fmt: string) {
    exists i :: 0 <= i < |fmt| && fmt[i] in DateLetters
  }

  /** The matcher of each table entry. */
  predicate Matches(k: Kind, fmt: string) {
    match k
    case DecimalKind => '.' in fmt && '0' in fmt
    case DateKind => HasDateLetter(fmt)
  }

  /** The first entry of `kinds` whose matcher accepts `fmt`. */
  function FirstMatch(kinds: seq<Kind>, fmt: string): (r: Option<Kind>)
    ensures r.Some? ==> exists i :: 0 <= i < |kinds| && kinds[i] == r.value && Matches(r.value, fmt)
                          && forall j :: 0 <= j < i ==> !Matches(kinds[j], fmt)
    ensures r.None? ==> forall j :: 0 <= j < |kinds| ==> !Matches(kinds[j], fmt)
  {
    if |kinds| == 0 then None
    else if Matches(kinds[0], fmt) then Some(kinds[0])
    else
      var r := FirstMatch(kinds[1..], fmt);
      assert forall j :: 1 <= j < |kinds| ==> kinds[j] == kinds[1..][j - 1];
      r
  }

  /** The kind a pattern is rendered as: decimal wins over date, and a pattern that is
      neither is no kind at all. */
  function KindOf(fmt: string): (r: Option<Kind>)
    ensures r == Some(DecimalKind) <==> '.' in fmt && '0' in fmt
    ensures r == Some(DateKind) <==> !('.' in fmt && '0' in fmt) && HasDateLetter(fmt)
    ensures r == None <==> !('.' in fmt && '0' in fmt) && !HasDateLetter(fmt)
  {
    assert FormatTypes[0] == DecimalKind && FormatTypes[1] == DateKind && |FormatTypes| == 2;
    FirstMatch(FormatTypes, fmt)
  }

  // ---------------------------------------------------------------------------
  // Decimal path
  // ---------------------------------------------------------------------------

  predicate OptDigits(s: string) {
    forall i :: 0 <= i < |s| ==> IsDigit(s[i])
  }

  /** Unsigned decimal text: digits, optionally a `.` and more digits, at least one
      digit in all. */
  function ParseUnsigned(t: string): (r: Option<real>)
    ensures AllDigits(t) ==> r == Some(DigitsValue(t) as real)
    ensures r.Some? ==> t != []
  {
    var parts := SplitOn(t, '.');
    assert '.' !in t ==> parts == [t] by {
      if '.' !in t { SplitOnAbsent(t, '.'); }
    }
    assert AllDigits(t) ==> '.' !in t by {
      if AllDigits(t) { NoDotInDigits(t); }
    }
    if |parts| == 1 then
      if AllDigits(t) then Some(DigitsValue(t) as real) else None
    else if |parts| == 2 && OptDigits(parts[0]) && OptDigits(parts[1]) && |parts[0]| + |parts[1]| > 0 then
      Some(DigitsValue(parts[0]) as real + DigitsValue(parts[1]) as real / Pow10(|parts[1]|) as real)
    else None
  }

  /** Python's `float(s)` on a decimal numeral (after stripping): an optional sign and an
      unsigned decimal. */
  function ParseReal(t: string): (r: Option<real>)
    ensures AllDigits(t) ==> r == Some(DigitsValue(t) as real)
    ensures r.Some? ==> t != []
  {
    if |t| > 0 && (t[0] == '+' || t[0] == '-') then
      match ParseUnsigned(t[1..])
      case Some(x) => Some(if t[0] == '-' then -x else x)
      case None => None
    else ParseUnsigned(t)
  }

  function NumberError(v: Value): string {
    "Cannot convert '" + ToText(v) + "' to number"
  }

  /** `_decimal_convert`: numbers and numeric strings become a number (a `bool` is an
      `int` in Python); anything else is the conversion error naming the value. */
  function DecimalConvert(v: Value): (r: Result<real>)
    ensures r.Err? ==> r.msg == NumberError(v)
    ensures v.Int? ==> r == Ok(v.i as real)
    ensures v.Bool? ==> r == Ok(if v.b then 1.0 else 0.0)
    ensures v.Float? ==> r == Ok(v.f)
    ensures (v.Null? || v.Date? || v.DateTime? || v.List? || v.Dict? || v.Obj?) ==> r.Err?
    ensures v.Str? ==> (r.Ok? <==> ParseReal(Strip(v.s)).Some?)
  {
    match v
    case Int(i) => Ok(i as real)
    case Bool(b) => Ok(if b then 1.0 else 0.0)
    case Float(f, _) => Ok(f)
    case Str(s) =>
      (match ParseReal(Strip(s))
       case Some(x) => Ok(x)
       case None => Err(NumberError(v)))
    case _ => Err(NumberError(v))
  }

  /** The number of places a decimal pattern asks for: the length of the text between its
      first point and the next one (or the end), and none without a point. */
  function DecimalPlaces(fmt: string): (r: nat)
    ensures '.' !in fmt ==> r == 0
    ensures '.' in fmt ==> r < |fmt|
  {
    if '.' in fmt then SplitOnSecond(fmt, '.'); |SplitOn(fmt, '.')[1]| else 0
  }

  /** Rounds a non-negative number to the nearest integer, a tie going to the even one. */
  function RoundHalfEven(y: real): (q: nat)
    requires y >= 0.0
    ensures q as real - y <= 0.5 && y - q as real <= 0.5
  {
    RoundCases(y, y.Floor)
  }

  function RoundCases(y: real, fl: int): (q: nat)
    requires y >= 0.0 && fl == y.Floor
    ensures q as real - y <= 0.5 && y - q as real <= 0.5
  {
    var frac := y - fl as real;
    if frac > 0.5 then fl + 1
    else if frac < 0.5 then fl
    else if fl % 2 == 0 then fl
    else fl + 1
  }

  /** `q / 10^places` written with exactly `places` fractional digits. */
  function PointText(q: nat, places: nat): (r: string)
    ensures places == 0 ==> r == NatText(q)
    ensures places > 0 ==> |r| > places && r[|r| - places - 1] == '.'
                           && AllDigits(r[|r| - places..]) && AllDigits(r[..|r| - places - 1])
  {
    if places == 0 then NatText(q)
    else
      DivModBounds(q, Pow10(places));
      PointJoin(q / Pow10(places), q % Pow10(places), places)
  }

  /** The whole part, a point, and the fraction padded to `places` digits. */
  function PointJoin(whole: nat, frac: nat, places: nat): (r: string)
    requires places > 0 && frac < Pow10(places)
    ensures |r| > places && r[|r| - places - 1] == '.'
    ensures AllDigits(r[|r| - places..]) && AllDigits(r[..|r| - places - 1])
  {
    var a := NatText(whole);
    var b := ZeroPad(frac, places);
    var r := a + "." + b;
    assert r[|a| + 1..] == b;
    assert r[..|a|] == a;
    r
  }

  /** `m * 10^places`, as repeated multiplication by ten. */
  function Shifted(m: real, places: nat): (r: real)
    ensures m >= 0.0 ==> r >= 0.0
  {
    if places == 0 then m else 10.0 * Shifted(m, places - 1)
  }

  /** Python's `f'{x:.{places}f}'`: the sign, then the magnitude rounded half-to-even
      to `places` fractional digits. */
  function FixedPoint(x: real, places: nat): (r: string)
    ensures places == 0 ==> '.' !in r
    ensures places > 0 ==> |r| > places && r[|r| - places - 1] == '.' && AllDigits(r[|r| - places..])
  {
    SignedPointText(x < 0.0, Scaled(x, places), places)
  }

  /** A minus sign when `negative`, then `q / 10^places` with `places` fractional digits. */
  function SignedPointText(negative: bool, q: nat, places: nat): (r: string)
    ensures places == 0 ==> '.' !in r
    ensures places > 0 ==> |r| > places && r[|r| - places - 1] == '.' && AllDigits(r[|r| - places..])
  {
    var sign := if negative then "-" else "";
    var body := PointText(q, places);
    assert places == 0 ==> '.' !in body by {
      if places == 0 { NoDotInDigits(body); }
    }
    var r := sign + body;
    assert r[|sign|..] == body;
    r
  }

  /** `|x| * 10^places`, rounded half to even: the digits `f'{x:.{places}f}'` shows. */
  function Scaled(x: real, places: nat): (q: nat)
    ensures q as real - Shifted(Magnitude(x), places) <= 0.5
    ensures Shifted(Magnitude(x), places) - q as real <= 0.5
  {
    RoundHalfEven(Shifted(Magnitude(x), places))
  }

  function Magnitude(x: real): (m: real)
    ensures m >= 0.0 && (m == x || m == -x)
  {
    if x < 0.0 then -x else x
  }

  lemma NoDotInDigits(s: string)
    requires AllDigits(s)
    ensures '.' !in s
  {
  }

  /** `_decimal_format`. */
  function DecimalFormat(fmt: string, num: real): string {
    FixedPoint(num, DecimalPlaces(fmt))
  }

  /** The places of a percentage pattern: as for a decimal pattern, with the percent signs
      of that stretch not counted. */
  function PercentagePlaces(fmt: string): (r: nat)
    ensures r <= DecimalPlaces(fmt)
  {
    if '.' in fmt then |Replace(SplitOn(fmt, '.')[1], "%", "")| else 0
  }

  /** `_percentage_format`: a hundred times the number, with the places of the pattern,
      followed by a percent sign. */
  function PercentageFormat(fmt: string, num: real): (r: string)
    ensures |r| > 0 && r[|r| - 1] == '%'
    ensures r[..|r| - 1] == FixedPoint(num * 100.0, PercentagePlaces(fmt))
  {
    FixedPoint(num * 100.0, PercentagePlaces(fmt)) + "%"
  }

  // ---------------------------------------------------------------------------
  // Date conversion
  // ---------------------------------------------------------------------------

  predicate IsLeapYear(y: int) {
    (y % 4 == 0 && y % 100 != 0) || y % 400 == 0
  }

  function DaysInMonth(y: int, m: nat): nat
    requires 1 <= m <= 12
  {
    if m == 2 then (if IsLeapYear(y) then 29 else 28)
    else if m == 4 || m == 6 || m == 9 || m == 11 then 30
    else 31
  }

  /** The dates `datetime` accepts. */
  predicate ValidDate(y: nat, m: nat, d: nat) {
    1 <= y <= 9999 && 1 <= m <= 12 && 1 <= d <= DaysInMonth(y, m)
  }

  /** A `strptime` directive of the input layouts: `%Y`, `%m`, `%d`. */
  datatype Field = YearField | MonthField | DayField

  /** A layout: three fields separated by one character, such as `%d.%m.%Y`. */
  datatype Layout = Layout(first: Field, second: Field, third: Field, sep: char)

  /** The input layouts of `_date_convert`, in the order they are tried. */
  const Layouts: seq<Layout> := [
    Layout(YearField, MonthField, DayField, '-'),  // %Y-%m-%d
    Layout(DayField, MonthField, YearField, '.'),  // %d.%m.%Y
    Layout(DayField, MonthField, YearField, '/'),  // %d/%m/%Y
    Layout(YearField, MonthField, DayField, '/'),  // %Y/%m/%d
    Layout(DayField, MonthField, YearField, '-')   // %d-%m-%Y
  ]

  /** What `strptime` reads for one directive from a run of digits: `%Y` exactly four
      digits, `%m` one or two digits naming 1..12, `%d` one or two digits naming 1..31. */
  function FieldValue(f: Field, piece: string): (r: Option<nat>)
    ensures r.Some? ==> AllDigits(piece) && r.value == DigitsValue(piece)
  {
    if !AllDigits(piece) then None
    else
      var n := DigitsValue(piece);
      match f
      case YearField => if |piece| == 4 then Some(n) else None
      case MonthField => if |piece| <= 2 && 1 <= n <= 12 then Some(n) else None
      case DayField => if |piece| <= 2 && 1 <= n <= 31 then Some(n) else None
  }

  /** Which of the three fields of `l` holds `f` (each layout names each field once). */
  function Pick(l: Layout, f: Field, a: nat, b: nat, c: nat): nat {
    if l.first == f then a else if l.second == f then b else c
  }

  /** `datetime.strptime(s, layout)`: the three digit runs, then the calendar check. */
  function ParseLayout(s: string, l: Layout): (r: Option<Moment>)
    ensures r.Some? ==> ValidDate(r.value.year, r.value.month, r.value.day)
    ensures r.Some? ==> r.value.hour == 0 && r.value.minute == 0 && r.value.second == 0
  {
    var pieces := SplitOn(s, l.sep);
    if |pieces| != 3 then None
    else
      match (FieldValue(l.first, pieces[0]), FieldValue(l.second, pieces[1]), FieldValue(l.third, pieces[2]))
      case (Some(a), Some(b), Some(c)) =>
        var y := Pick(l, YearField, a, b, c);
        var m := Pick(l, MonthField, a, b, c);
        var d := Pick(l, DayField, a, b, c);
        if ValidDate(y, m, d) then Some(Moment(y, m, d, 0, 0, 0)) else None
      case _ => None
  }

  /** The first layout of `layouts` that reads `s`, and which one it is. */
  function FirstLayout(s: string, layouts: seq<Layout>): (r: Option<Moment>)
    ensures r.Some? ==> exists i :: 0 <= i < |layouts| && ParseLayout(s, layouts[i]) == r
                          && forall j :: 0 <= j < i ==> ParseLayout(s, layouts[j]).None?
    ensures r.None? ==> forall j :: 0 <= j < |layouts| ==> ParseLayout(s, layouts[j]).None?
  {
    if |layouts| == 0 then None
    else
      match ParseLayout(s, layouts[0])
      case Some(m) => Some(m)
      case None =>
        var r := FirstLayout(s, layouts[1..]);
        assert forall j :: 1 <= j < |layouts| ==> layouts[j] == layouts[1..][j - 1];
        r
  }

  function DateError(v: Value): string {
    "Cannot convert '" + ToText(v) + "' to date"
  }

  const SecondsPerDay := 86400

  /** Days from 1 March of the first year of a 400-year era to 1 March of its year `yoe`
      (the era's last leap day, in its year 400, is not counted). */
  function EraYearStart(yoe: int): int {
    365 * yoe + yoe / 4 - yoe / 100
  }

  /** The year of the era that holds day `doe` of the era, counting from 1 March. */
  function YearOfEra(doe: int): int {
    (doe - doe / 1460 + doe / 36524 - doe / 146096) / 365
  }

  /** Day `doe` of an era lies in year `YearOfEra(doe)`, on a day that year (1 March to
      the end of February) has. */
  lemma YearOfEraBounds(doe: int)
    requires 0 <= doe < 146097
    ensures 0 <= YearOfEra(doe) < 400
    ensures 0 <= doe - EraYearStart(YearOfEra(doe)) < (if IsLeapYear(YearOfEra(doe) + 1) then 366 else 365)
  {
    // doe = 36524 * k + 1461 * i + 365 * t + u: k centuries, i leap cycles, t years
    var k := if doe == 146096 then 3 else doe / 36524;
    var r := doe - 36524 * k;
    var i := r / 1461;
    var s := r - 1461 * i;
    var t := if s == 1460 then 3 else s / 365;
    var u := s - 365 * t;
    assert 0 <= k <= 3 && 0 <= i <= 24 && 0 <= t <= 3 && 0 <= u <= 365;
    var extra := if 24 * k + i + s >= 1460 then 1 else 0;
    assert doe == 1460 * (25 * k + i) + (24 * k + i + s);
    assert doe / 1460 == 25 * k + i + extra;
    assert doe / 36524 == (if doe == 146096 then 4 else k);
    assert doe / 146096 == (if doe == 146096 then 1 else 0);
    assert u == 365 ==> extra == 1;
    var yoe := 100 * k + 4 * i + t;
    assert doe - doe / 1460 + doe / 36524 - doe / 146096 == 365 * yoe + u - extra;
    assert YearOfEra(doe) == yoe;
    EraYearParts(k, i, t);
    assert u == 365 ==> t == 3 && (i == 24 ==> k == 3);
  }

  /** Year `100 * k + 4 * i + t` of an era starts after `k` centuries of 36524 days, `i`
      four-year cycles of 1461 days and `t` years of 365 days; the year after a
      cycle's third year is a leap year unless it ends a century other than the era's
      last. */
  lemma EraYearParts(k: int, i: int, t: int)
    requires 0 <= k <= 3 && 0 <= i <= 24 && 0 <= t <= 3
    ensures EraYearStart(100 * k + 4 * i + t) == 36524 * k + 1461 * i + 365 * t
    ensures t == 3 && (i == 24 ==> k == 3) ==> IsLeapYear(100 * k + 4 * i + t + 1)
  {
    var yoe := 100 * k + 4 * i + t;
    assert yoe / 4 == 25 * k + i;
    assert yoe / 100 == k;
  }

  /** The proleptic Gregorian calendar date `days` days after 1970-01-01. Day 0 of an
      era of 400 years is 1 March of a year divisible by 400, 719468 days before the
      epoch. */
  function CivilFromDays(days: int): (r: (int, int, int))
    ensures 1 <= r.1 <= 12 && 1 <= r.2 <= DaysInMonth(r.0, r.1)
  {
    var z := days + 719468;
    var era := z / 146097;
    EraDate(era, z - era * 146097)
  }

  /** The date on day `doe` of era `era`. */
  function EraDate(era: int, doe: int): (r: (int, int, int))
    requires 0 <= doe < 146097
    ensures 1 <= r.1 <= 12 && 1 <= r.2 <= DaysInMonth(r.0, r.1)
  {
    YearOfEraBounds(doe);
    var yoe := YearOfEra(doe);
    YearDate(era, yoe, doe - EraYearStart(yoe))
  }

  /** The date on day `doy`, counted from 1 March, of year `yoe` of era `era`. */
  function YearDate(era: int, yoe: int, doy: int): (r: (int, int, int))
    requires 0 <= doy < (if IsLeapYear(yoe + 1) then 366 else 365)
    ensures 1 <= r.1 <= 12 && 1 <= r.2 <= DaysInMonth(r.0, r.1)
  {
    var mp := (5 * doy + 2) / 153;
    var d := doy - (153 * mp + 2) / 5 + 1;
    var m := if mp < 10 then mp + 3 else mp - 9;
    var y := yoe + era * 400 + (if m <= 2 then 1 else 0);
    MonthOfYear(doy, yoe + 1);
    assert m <= 2 ==> IsLeapYear(y) == IsLeapYear(yoe + 1) by {
      if m <= 2 {
        LeapEveryEra(yoe + 1, era);
      }
    }
    (y, m, d)
  }

  /** The leap years repeat every 400 years. */
  lemma LeapEveryEra(y: int, era: int)
    ensures IsLeapYear(y + era * 400) == IsLeapYear(y)
  {
    var x := y + era * 400;
    assert x / 4 == y / 4 + era * 100;
    assert x / 100 == y / 100 + era * 4;
    assert x / 400 == y / 400 + era;
  }

  /** Day `doy` of a year counted from 1 March falls on day `d` of month `m`, a day that
      month has; February is the last month and falls in year `feb`. */
  lemma MonthOfYear(doy: int, feb: int)
    requires 0 <= doy < (if IsLeapYear(feb) then 366 else 365)
    ensures var mp := (5 * doy + 2) / 153;
            var m := if mp < 10 then mp + 3 else mp - 9;
            0 <= mp < 12 && 1 <= m <= 12 && 1 <= doy - (153 * mp + 2) / 5 + 1 <= DaysInMonth(feb, m)
  {
    var mp := (5 * doy + 2) / 153;
    assert 0 <= mp <= 11;
    assert (153 * mp + 2) / 5 <= doy < (153 * (mp + 1) + 2) / 5;
  }

  /** Rounds a number to the nearest integer, a tie going to the even one. */
  function RoundSigned(y: real): (q: int)
    ensures q as real - y <= 0.5 && y - q as real <= 0.5
    ensures (q as real - y == 0.5 || y - q as real == 0.5) ==> q % 2 == 0
  {
    if y >= 0.0 then RoundHalfEven(y) else 0 - RoundHalfEven(-y) as int
  }

  /** `datetime.fromtimestamp(t)` in a zone `utcOffset` seconds east of UTC: the instant
      is rounded half-to-even to the microsecond, then the microseconds are dropped. */
  function FromTimestamp(t: real, utcOffset: int): (r: Result<Moment>)
    ensures r.Ok? ==> ValidDate(r.value.year, r.value.month, r.value.day)
    ensures r.Ok? ==> r.value.hour < 24 && r.value.minute < 60 && r.value.second < 60
  {
    MomentAt(WallSecond(t, utcOffset))
  }

  /** The second that instant `t` shows on the wall clock of a zone `utcOffset` seconds
      east of UTC, counted from 1970-01-01 00:00 on that clock. */
  function WallSecond(t: real, utcOffset: int): int {
    WholeSecond(t) + utcOffset
  }

  /** The seconds of instant `t` once it is rounded half-to-even to the microsecond and
      the microseconds are dropped; `ValueProperties.WholeSecondRounds` shows this is
      the second below `t` plus half a microsecond. */
  function WholeSecond(t: real): int {
    (t + 0.0000005).Floor
  }

  /** The date and time `secs` seconds after 1970-01-01 00:00 on the same clock, when its
      year is one `datetime` can hold. */
  function MomentAt(secs: int): (r: Result<Moment>)
    ensures r.Ok? ==> ValidDate(r.value.year, r.value.month, r.value.day)
    ensures r.Ok? ==> r.value.hour < 24 && r.value.minute < 60 && r.value.second < 60
  {
    var (y, m, d) := CivilFromDays(secs / SecondsPerDay);
    var rem := secs % SecondsPerDay;
    if 1 <= y <= 9999 then
      Ok(Moment(y, m, d, rem / 3600, rem % 3600 / 60, rem % 60))
    else Err("year " + IntText(y) + " is out of range")
  }

  /** `_date_convert`: a `datetime` passes through, a number is a Unix timestamp, a string
      is read with the first layout that accepts it; a plain `date` and every other value
      are the conversion error. */
  function ToMoment(v: Value, utcOffset: int): (r: Result<Moment>)
    ensures v.DateTime? ==> r == Ok(v.at)
    ensures v.Int? ==> r == FromTimestamp(v.i as real, utcOffset)
    ensures v.Bool? ==> r == FromTimestamp(if v.b then 1.0 else 0.0, utcOffset)
    ensures v.Float? ==> r == FromTimestamp(v.f, utcOffset)
    ensures v.Str? ==> r == (match FirstLayout(v.s, Layouts)
                             case Some(m) => Ok(m)
                             case None => Err(DateError(v)))
    ensures (v.Null? || v.Date? || v.List? || v.Dict? || v.Obj?) ==> r == Err(DateError(v))
  {
    match v
    case DateTime(at) => Ok(at)
    case Int(i) => FromTimestamp(i as real, utcOffset)
    case Bool(b) => FromTimestamp(if b then 1.0 else 0.0, utcOffset)
    case Float(f, _) => FromTimestamp(f, utcOffset)
    case Str(s) =>
      (match FirstLayout(s, Layouts)
       case Some(m) => Ok(m)
       case None => Err(DateError(v)))
    case _ => Err(DateError(v))
  }

  /** `_date_convert` as the source writes it: the layouts are tried in a loop and the
      first success returns. */
  method DateConvert(v: Value, utcOffset: int) returns (r: Result<Moment>)
    ensures r == ToMoment(v, utcOffset)
  {
    if v.DateTime? {
      return Ok(v.at);
    }
    if v.Int? || v.Bool? || v.Float? {
      var t := if v.Int? then v.i as real else if v.Float? then v.f else if v.b then 1.0 else 0.0;
      return FromTimestamp(t, utcOffset);
    }
    if v.Str? {
      for i := 0 to |Layouts|
        invariant forall j :: 0 <= j < i ==> ParseLayout(v.s, Layouts[j]).None?
      {
        var parsed := ParseLayout(v.s, Layouts[i]);
        if parsed.Some? {
          return Ok(parsed.value);
        }
      }
      return Err(DateError(v));
    }
    return Err(DateError(v));
  }

  // ---------------------------------------------------------------------------
  // Date formatting
  // ---------------------------------------------------------------------------

  /** The pattern tokens and the `strftime` directives they become, in replacement order. */
  const TokenTable: seq<(string, string)> := [
    ("DD", "%d"), ("MM", "%m"), ("YYYY", "%Y"), ("YY", "%y"), ("HH", "%H"), ("mm", "%M"), ("ss", "%S")
  ]

  predicate ValidTable(table: seq<(string, string)>) {
    forall i :: 0 <= i < |table| ==> |table[i].0| > 0
  }

  /** The pattern after the first `|table|` replacements, each applied to the result of
      the ones before it. */
  function TranslateWith(fmt: string, table: seq<(string, string)>): (r: string)
    requires ValidTable(table)
    ensures (forall i :: 0 <= i < |table| ==> table[i].0[0] !in fmt) ==> r == fmt
  {
    if |table| == 0 then fmt
    else
      var last := table[|table| - 1];
      var prev := TranslateWith(fmt, table[..|table| - 1]);
      assert last.0[0] !in prev ==> Replace(prev, last.0, last.1) == prev by {
        if last.0[0] !in prev { ReplaceLacking(prev, last.0, last.1); }
      }
      Replace(prev, last.0, last.1)
  }

  function Translate(fmt: string): string {
    TranslateWith(fmt, TokenTable)
  }

  /** The seven `strftime` directives the translated patterns use. */
  function Directive(c: char, m: Moment): Option<string> {
    match c
    case 'd' => Some(ZeroPad(m.day, 2))
    case 'm' => Some(ZeroPad(m.month, 2))
    case 'Y' => Some(ZeroPad(m.year, 4))
    case 'y' => Some(ZeroPad(m.year % 100, 2))
    case 'H' => Some(ZeroPad(m.hour, 2))
    case 'M' => Some(ZeroPad(m.minute, 2))
    case 'S' => Some(ZeroPad(m.second, 2))
    case _ => None
  }

  /** `strftime` over the directives above and `%%`; every other character is copied. */
  function Strftime(f: string, m: Moment): (r: string)
    ensures '%' !in f ==> r == f
    decreases |f|
  {
    if |f| == 0 then []
    else if f[0] == '%' && |f| >= 2 && Directive(f[1], m).Some? then
      Directive(f[1], m).value + Strftime(f[2..], m)
    else if f[0] == '%' && |f| >= 2 && f[1] == '%' then
      "%" + Strftime(f[2..], m)
    else
      assert f == [f[0]] + f[1..];
      [f[0]] + Strftime(f[1..], m)
  }

  /** What `_date_format` returns for a pattern and a date/time. */
  function DateText(fmt: string, m: Moment): (r: string)
    ensures (forall i :: 0 <= i < |fmt| ==> fmt[i] !in DateLetters && fmt[i] != '%') ==> r == fmt
  {
    assert forall i :: 0 <= i < |TokenTable| ==> TokenTable[i].0[0] in DateLetters;
    Strftime(Translate(fmt), m)
  }

  /** `_date_format` as the source writes it: the pattern is rewritten once per table
      entry, then handed to `strftime`. */
  method DateFormat(fmt: string, m: Moment) returns (out: string)
    ensures out == DateText(fmt, m)
  {
    var pyFmt := fmt;
    for i := 0 to |TokenTable|
      invariant pyFmt == TranslateWith(fmt, TokenTable[..i])
    {
      assert TokenTable[..i + 1][..i] == TokenTable[..i];
      pyFmt := Replace(pyFmt, TokenTable[i].0, TokenTable[i].1);
    }
    assert TokenTable[..|TokenTable|] == TokenTable;
    out := Strftime(pyFmt, m);
  }

  // ---------------------------------------------------------------------------
  // Dispatch
  // ---------------------------------------------------------------------------

  /** What `ValueMorpher(fmt, v).render()` returns or raises. */
  function Morph(fmt: string, v: Value, utcOffset: int): (r: Result<string>)
    ensures KindOf(fmt) == None ==> r == Ok(ToText(v))
    ensures KindOf(fmt) == Some(DecimalKind) ==>
              r == (match DecimalConvert(v)
                    case Ok(x) => Ok(FixedPoint(x, DecimalPlaces(fmt)))
                    case Err(e) => Err(e))
    ensures KindOf(fmt) == Some(DateKind) ==>
              r == (match ToMoment(v, utcOffset)
                    case Ok(m) => Ok(DateText(fmt, m))
                    case Err(e) => Err(e))
  {
    match KindOf(fmt)
    case Some(DecimalKind) =>
      (match DecimalConvert(v)
       case Ok(x) => Ok(DecimalFormat(fmt, x))
       case Err(e) => Err(e))
    case Some(DateKind) =>
      (match ToMoment(v, utcOffset)
       case Ok(m) => Ok(DateText(fmt, m))
       case Err(e) => Err(e))
    case None => Ok(ToText(v))
  }

  /** `render` as the source writes it: the table is walked in order and the first
      matcher that accepts the pattern converts and formats the value. */
  method Render(fmt: string, v: Value, utcOffset: int) returns (r: Result<string>)
    ensures r == Morph(fmt, v, utcOffset)
  {
    for i := 0 to |FormatTypes|
      invariant forall j :: 0 <= j < i ==> !Matches(FormatTypes[j], fmt)
    {
      var kind := FormatTypes[i];
      if Matches(kind, fmt) {
        match kind {
          case DecimalKind =>
            var x := DecimalConvert(v);
            if x.Err? {
              return Err(x.msg);
            }
            return Ok(DecimalFormat(fmt, x.value));
          case DateKind =>
            var m := DateConvert(v, utcOffset);
            if m.Err? {
              return Err(m.msg);
            }
            var text := DateFormat(fmt, m.value);
            return Ok(text);
        }
      }
    }
    return Ok(ToText(v));
  }
}
