/** The template evaluator: finds each `{{ … }}` placeholder of a template, evaluates the
    expression inside against a context tree, and splices the text of the result back. */
module TemplateMorpher {
  import opened Strings
  import opened Values
  import ValueMorpher

  /** `TemplateMorpherConfig`: the one recognised option. */
  datatype Config = Config(defaultDateFormat: Option<string>)

  // ---------------------------------------------------------------------------
  // Depth- and quote-aware splitting (`_split_args`, `_split_concat`)
  // ---------------------------------------------------------------------------

  /** The splitters' bookkeeping: parenthesis depth and one quote flag shared by both
      quote characters. */
  datatype ScanState = ScanState(depth: int, inQuotes: bool)

  const Start := ScanState(0, false)

  predicate IsQuote(c: char) {
    c == '"' || c == '\''
  }

  /** How a character that does not separate changes the state: either quote character
      flips the one flag, parentheses count only outside quotes. */
  function Advance(st: ScanState, c: char): ScanState {
    if IsQuote(c) then st.(inQuotes := !st.inQuotes)
    else if c == '(' && !st.inQuotes then st.(depth := st.depth + 1)
    else if c == ')' && !st.inQuotes then st.(depth := st.depth - 1)
    else st
  }

  /** The state after reading `t` from `st`. */
  function StateFrom(st: ScanState, t: string): ScanState
    decreases |t|
  {
    if |t| == 0 then st else Advance(StateFrom(st, t[..|t| - 1]), t[|t| - 1])
  }

  function StateAfter(t: string): ScanState {
    StateFrom(Start, t)
  }

  predicate AtTop(st: ScanState) {
    st.depth == 0 && !st.inQuotes
  }

  /** The two delimiters the source splits on. */
  predicate IsDelimiter(d: char) {
    d == ',' || d == '+'
  }

  /** The character at `i` is a delimiter at depth zero outside quotes. */
  predicate SplitsAt(s: string, i: nat, d: char)
    requires i < |s|
  {
    s[i] == d && AtTop(StateAfter(s[..i]))
  }

  /** The splitter's variables between two characters: the finished parts (not yet
      stripped), the part being read, and the state. */
  datatype Scan = Scan(done: seq<string>, current: string, state: ScanState)

  const Initial := Scan([], [], Start)

  /** One iteration of the splitter's loop. */
  function StepScan(sc: Scan, c: char, d: char): Scan {
    if c == d && AtTop(sc.state) then Scan(sc.done + [sc.current], [], sc.state)
    else Scan(sc.done, sc.current + [c], Advance(sc.state, c))
  }

  function ScanFrom(sc: Scan, s: string, d: char): Scan
    decreases |s|
  {
    if |s| == 0 then sc else StepScan(ScanFrom(sc, s[..|s| - 1], d), s[|s| - 1], d)
  }

  function ScanText(s: string, d: char): Scan {
    ScanFrom(Initial, s, d)
  }

  /** The raw segments between separating delimiters, the last one included even when
      empty. */
  function RawParts(s: string, d: char): seq<string> {
    ScanText(s, d).done + [ScanText(s, d).current]
  }

  function StripAll(xs: seq<string>): (r: seq<string>)
    ensures |r| == |xs| && forall i :: 0 <= i < |xs| ==> r[i] == Strip(xs[i])
  {
    seq(|xs|, i requires 0 <= i < |xs| => Strip(xs[i]))
  }

  /** What `_split_args` (`d` = `,`) and `_split_concat` (`d` = `+`) return: the stripped
      raw segments, the last one left out when it is empty. */
  function Split(s: string, d: char): (r: seq<string>)
    requires IsDelimiter(d)
    ensures forall i :: 0 <= i < |r| ==> Strip(r[i]) == r[i]
    ensures s == [] ==> r == []
  {
    var sc := ScanText(s, d);
    var r := StripAll(sc.done) + (if sc.current != [] then [Strip(sc.current)] else []);
    assert forall i :: 0 <= i < |r| ==> Strip(r[i]) == r[i] by {
      forall i | 0 <= i < |r| ensures Strip(r[i]) == r[i] {
        var raw := if i < |sc.done| then sc.done[i] else sc.current;
        assert r[i] == Strip(raw);
        StripIdempotent(raw);
      }
    }
    r
  }

  /** The splitter loop the source writes twice, once per delimiter. */
  method SplitTopLevel(s: string, delim: char) returns (parts: seq<string>)
    requires IsDelimiter(delim)
    ensures parts == Split(s, delim)
  {
    parts := [];
    var current: string := [];
    var depth := 0;
    var inQuotes := false;
    for i := 0 to |s|
      invariant ScanText(s[..i], delim).current == current
      invariant ScanText(s[..i], delim).state == ScanState(depth, inQuotes)
      invariant parts == StripAll(ScanText(s[..i], delim).done)
    {
      assert s[..i + 1][..i] == s[..i];
      var c := s[i];
      if IsQuote(c) {
        inQuotes := !inQuotes;
      } else if c == '(' && !inQuotes {
        depth := depth + 1;
      } else if c == ')' && !inQuotes {
        depth := depth - 1;
      } else if c == delim && depth == 0 && !inQuotes {
        parts := parts + [Strip(current)];
        current := [];
        continue;
      }
      current := current + [c];
    }
    assert s[..|s|] == s;
    if current != [] {
      parts := parts + [Strip(current)];
    }
  }

  /** `_split_args`. */
  method SplitArgs(s: string) returns (args: seq<string>)
    ensures args == Split(s, ',')
  {
    args := SplitTopLevel(s, ',');
  }

  /** `_split_concat`. */
  method SplitConcat(s: string) returns (parts: seq<string>)
    ensures parts == Split(s, '+')
  {
    parts := SplitTopLevel(s, '+');
  }

  // ---------------------------------------------------------------------------
  // Facts about splitting that evaluation needs for termination
  // ---------------------------------------------------------------------------

  lemma {:induction false} ScanStateIsStateAfter(s: string, d: char)
    requires IsDelimiter(d)
    ensures ScanText(s, d).state == StateAfter(s)
    decreases |s|
  {
    if |s| > 0 {
      ScanStateIsStateAfter(s[..|s| - 1], d);
    }
  }

  lemma {:induction false} JoinOnSnoc(xs: seq<string>, y: string, c: char)
    requires |xs| >= 1
    ensures JoinOn(xs + [y], c) == JoinOn(xs, c) + [c] + y
    decreases |xs|
  {
    if |xs| > 1 {
      assert (xs + [y])[1..] == xs[1..] + [y];
      JoinOnSnoc(xs[1..], y, c);
    }
  }

  lemma {:induction false} JoinOnExtendLast(xs: seq<string>, y: string, ch: char, c: char)
    ensures JoinOn(xs + [y + [ch]], c) == JoinOn(xs + [y], c) + [ch]
    decreases |xs|
  {
    if |xs| > 0 {
      assert (xs + [y + [ch]])[1..] == xs[1..] + [y + [ch]];
      assert (xs + [y])[1..] == xs[1..] + [y];
      JoinOnExtendLast(xs[1..], y, ch, c);
    }
  }

  /** Splitting loses nothing: the raw segments, joined by the delimiter, give the input. */
  lemma {:induction false} RawPartsJoin(s: string, d: char)
    ensures JoinOn(RawParts(s, d), d) == s
    decreases |s|
  {
    if |s| > 0 {
      var t := s[..|s| - 1];
      var c := s[|s| - 1];
      var sc := ScanText(t, d);
      RawPartsJoin(t, d);
      assert s == t + [c];
      if c == d && AtTop(sc.state) {
        assert RawParts(s, d) == (sc.done + [sc.current]) + [[]];
        JoinOnSnoc(sc.done + [sc.current], [], d);
      } else {
        assert RawParts(s, d) == sc.done + [sc.current + [c]];
        JoinOnExtendLast(sc.done, sc.current, c, d);
      }
    }
  }

  lemma {:induction false} JoinOnLengths(xs: seq<string>, c: char)
    requires |xs| >= 1
    ensures forall i :: 0 <= i < |xs| ==> |xs[i]| + |xs| - 1 <= |JoinOn(xs, c)|
    decreases |xs|
  {
    if |xs| > 1 {
      JoinOnLengths(xs[1..], c);
      assert forall i :: 1 <= i < |xs| ==> xs[i] == xs[1..][i - 1];
    }
  }

  /** Without a separating delimiter there is one raw segment, the whole input. */
  lemma {:induction false} NoSplitSinglePart(s: string, d: char)
    requires IsDelimiter(d)
    requires forall i :: 0 <= i < |s| ==> !SplitsAt(s, i, d)
    ensures ScanText(s, d).done == [] && ScanText(s, d).current == s
    decreases |s|
  {
    if |s| > 0 {
      var t := s[..|s| - 1];
      forall i | 0 <= i < |t| ensures !SplitsAt(t, i, d) {
        assert !SplitsAt(s, i, d);
        assert t[..i] == s[..i];
      }
      NoSplitSinglePart(t, d);
      ScanStateIsStateAfter(t, d);
      assert !SplitsAt(s, |s| - 1, d);
      assert s[..|s| - 1] == t;
      assert t + [s[|s| - 1]] == s;
    }
  }

  /** A separating delimiter closes at least one segment. */
  lemma {:induction false} SplitCloses(s: string, d: char, i: nat)
    requires IsDelimiter(d)
    requires i < |s| && SplitsAt(s, i, d)
    ensures |ScanText(s, d).done| >= 1
    decreases |s|
  {
    var t := s[..|s| - 1];
    if i == |s| - 1 {
      ScanStateIsStateAfter(t, d);
    } else {
      assert t[..i] == s[..i];
      assert SplitsAt(t, i, d);
      SplitCloses(t, d, i);
    }
  }

  /** Without a separating delimiter, splitting gives the stripped input alone. */
  lemma SingleUnlessSplit(s: string, d: char)
    requires IsDelimiter(d)
    ensures (forall i :: 0 <= i < |s| ==> !SplitsAt(s, i, d)) ==> Split(s, d) == (if s == [] then [] else [Strip(s)])
  {
    if forall i :: 0 <= i < |s| ==> !SplitsAt(s, i, d) {
      NoSplitSinglePart(s, d);
    }
  }

  lemma RawPartsNoLonger(s: string, d: char)
    ensures forall k :: 0 <= k < |RawParts(s, d)| ==> |RawParts(s, d)[k]| + |ScanText(s, d).done| <= |s|
  {
    RawPartsJoin(s, d);
    JoinOnLengths(RawParts(s, d), d);
  }

  /** Every part is at most as long as the input, and shorter by one for each delimiter
      that separates. */
  lemma PartsNoLonger(s: string, d: char)
    requires IsDelimiter(d)
    ensures forall i :: 0 <= i < |Split(s, d)| ==> |Split(s, d)[i]| + |ScanText(s, d).done| <= |s|
  {
    RawPartsNoLonger(s, d);
    var sc := ScanText(s, d);
    var raw := RawParts(s, d);
    var parts := Split(s, d);
    forall i | 0 <= i < |parts| ensures |parts[i]| + |sc.done| <= |s| {
      if i < |sc.done| {
        assert raw[i] == sc.done[i];
        assert parts[i] == Strip(raw[i]);
      } else {
        assert raw[|raw| - 1] == sc.current;
        assert parts[i] == Strip(raw[|raw| - 1]);
      }
    }
  }

  /** The fact that lets concatenation recurse: when splitting a stripped, non-empty
      expression does not give back the expression itself, every part is shorter. */
  lemma ConcatPartsShorter(e: string)
    requires e != [] && Strip(e) == e
    requires Split(e, '+') != [e]
    ensures forall i :: 0 <= i < |Split(e, '+')| ==> |Split(e, '+')[i]| < |e|
  {
    PartsNoLonger(e, '+');
    SingleUnlessSplit(e, '+');
    var i :| 0 <= i < |e| && SplitsAt(e, i, '+');
    SplitCloses(e, '+', i);
  }

  lemma ArgsNoLonger(s: string)
    ensures forall i :: 0 <= i < |Split(s, ',')| ==> |Split(s, ',')[i]| <= |s|
  {
    PartsNoLonger(s, ',');
  }

  // ---------------------------------------------------------------------------
  // Variable paths (`_resolve_variable_path`)
  // ---------------------------------------------------------------------------

  /** The value stored under `key` in a dict. */
  function Lookup(entries: seq<(string, Value)>, key: string): (r: Option<Value>)
    ensures r.Some? ==> exists i :: 0 <= i < |entries| && entries[i] == (key, r.value)
    ensures r.None? ==> forall i :: 0 <= i < |entries| ==> entries[i].0 != key
  {
    if |entries| == 0 then None
    else if entries[0].0 == key then Some(entries[0].1)
    else
      var r := Lookup(entries[1..], key);
      assert forall i :: 1 <= i < |entries| ==> entries[i] == entries[1..][i - 1];
      r
  }

  /** `getattr(v, name)` for the values that have attributes: an object's own, and the
      fields of a date or date/time. */
  function Attribute(v: Value, name: string): (r: Option<Value>)
    ensures (v.Str? || v.Int? || v.Bool? || v.Float? || v.Null? || v.List? || v.Dict?) ==> r.None?
    ensures v.Obj? ==> (r.Some? <==> name in v.attrs)
    ensures (v.Date? || v.DateTime?) && r.Some? ==> r.value.Int?
  {
    match v
    case Obj(attrs, _) => if name in attrs then Some(attrs[name]) else None
    case Date(y, m, d) =>
      if name == "year" then Some(Int(y))
      else if name == "month" then Some(Int(m))
      else if name == "day" then Some(Int(d))
      else None
    case DateTime(at) =>
      if name == "year" then Some(Int(at.year))
      else if name == "month" then Some(Int(at.month))
      else if name == "day" then Some(Int(at.day))
      else if name == "hour" then Some(Int(at.hour))
      else if name == "minute" then Some(Int(at.minute))
      else if name == "second" then Some(Int(at.second))
      else None
    case _ => None
  }

  /** One segment of a path: a dict key, a list index written in digits, or an
      attribute; `None` is a miss. */
  function Step(v: Value, segment: string): (r: Option<Value>)
    ensures v.Dict? ==> (r.Some? <==> exists i :: 0 <= i < |v.entries| && v.entries[i].0 == segment)
    ensures v.Dict? && r.Some? ==> (segment, r.value) in v.entries
    ensures v.List? && r.Some? ==> r.value in v.items
    ensures v.List? && !AllDigits(segment) ==> r.None?
  {
    match v
    case Dict(entries) => Lookup(entries, segment)
    case List(items) =>
      if AllDigits(segment) && DigitsValue(segment) < |items| then Some(items[DigitsValue(segment)])
      else None
    case _ => Attribute(v, segment)
  }

  /** Follows the segments in order; the first miss ends the walk. */
  function Walk(v: Value, segments: seq<string>): (r: Option<Value>)
    ensures |segments| == 1 ==> r == Step(v, segments[0])
    ensures r.None? ==> |segments| > 0
    decreases |segments|
  {
    if |segments| == 0 then Some(v)
    else
      match Step(v, segments[0])
      case None => None
      case Some(w) => Walk(w, segments[1..])
  }

  /** The value a dotted path names, or the empty string on any miss. */
  function Resolve(ctx: Value, path: string): (r: Value)
    ensures r != Str("") ==> Walk(ctx, SplitOn(path, '.')) == Some(r)
  {
    Walk(ctx, SplitOn(path, '.')).GetOr(Str(""))
  }

  /** `_resolve_variable_path` as the source writes it: `current` is reassigned segment
      by segment, and a miss returns the empty string at once. */
  method ResolveVariablePath(ctx: Value, path: string) returns (r: Value)
    ensures r == Resolve(ctx, path)
  {
    var segments := SplitOn(path, '.');
    var current := ctx;
    for i := 0 to |segments|
      invariant Walk(ctx, segments) == Walk(current, segments[i..])
    {
      var segment := segments[i];
      assert segments[i..][1..] == segments[i + 1..];
      if current.Dict? {
        var found := Lookup(current.entries, segment);
        if found.None? {
          return Str("");
        }
        current := found.value;
      } else if current.List? {
        if AllDigits(segment) {
          var idx := DigitsValue(segment);
          if 0 <= idx < |current.items| {
            current := current.items[idx];
          } else {
            return Str("");
          }
        } else {
          return Str("");
        }
      } else {
        var found := Attribute(current, segment);
        if found.None? {
          return Str("");
        }
        current := found.value;
      }
    }
    return current;
  }

  // ---------------------------------------------------------------------------
  // Expressions
  // ---------------------------------------------------------------------------

  /** The registered template functions, in registration order. */
  datatype Builtin = If | Format

  const Functions: seq<Builtin> := [If, Format]

  function Name(b: Builtin): string {
    match b
    case If => "if"
    case Format => "format"
  }

  /** The dispatch test: the text starts with the name and `(`, and ends with `)`. */
  predicate IsCall(e: string, name: string) {
    StartsWith(e, name + "(") && EndsWith(e, ")")
  }

  /** A call is longer than its name and the two parentheses. */
  lemma CallLength(e: string, name: string)
    requires IsCall(e, name)
    ensures |e| >= |name| + 2
  {
    assert e[|name|] == '(' && e[|e| - 1] == ')';
  }

  /** The first registered function whose dispatch test accepts `e`. */
  function Dispatch(e: string): (r: Option<Builtin>)
    ensures r == Some(If) <==> IsCall(e, "if")
    ensures r == Some(Format) <==> !IsCall(e, "if") && IsCall(e, "format")
  {
    assert Functions == [If, Format];
    if IsCall(e, Name(Functions[0])) then Some(Functions[0])
    else if IsCall(e, Name(Functions[1])) then Some(Functions[1])
    else None
  }

  /** Text that starts and ends with the same quote character. */
  predicate IsQuotedLiteral(e: string) {
    (StartsWith(e, "\"") && EndsWith(e, "\"")) || (StartsWith(e, "'") && EndsWith(e, "'"))
  }

  /** Python's `e[1:-1]`. */
  function Unquote(e: string): string {
    if |e| < 2 then [] else e[1..|e| - 1]
  }

  /** What the unbounded recursion of a concatenation that does not split raises. */
  const RecursionMessage := "maximum recursion depth exceeded"
  const IfArityMessage := "if() requires exactly 3 arguments"
  const FormatArityMessage := "format() requires exactly 2 arguments"
  const UnquotedPatternMessage := "value|format pattern must be quoted, e.g. 'DD.MM.YYYY'"

  /** The only errors an expression raises: the arity errors of the two functions and the
      unbounded recursion of a concatenation that does not split. A value that cannot
      be converted for `format` is reported inline instead. */
  predicate Raised(msg: string) {
    msg == RecursionMessage || msg == IfArityMessage || msg == FormatArityMessage
  }

  /** The evaluator of a template with its context and configuration, fixed when it is
      built. `localOffset` stands for the host's time zone (seconds east of UTC), which
      converting a timestamp to a date/time consults. */
  datatype Morpher = Morpher(template: string, context: Value, config: Config, localOffset: int)
  {
    /** `_eval_expr`: what an expression evaluates to, or the message it raises. */
    function EvalExpr(expr: string, ctx: Value): (r: Result<Value>)
      ensures r.Err? ==> Raised(r.msg)
      decreases |expr|, 2, 0
    {
      var e := Strip(expr);
      match Dispatch(e)
      case Some(If) => HandleIf(e, ctx)
      case Some(Format) => HandleFormat(e, ctx)
      case None =>
        if '+' in e then
          StripIdempotent(expr);
          EvalSum(e, ctx)
        else if IsQuotedLiteral(e) then Ok(Str(Unquote(e)))
        else if StartsWith(e, "$") then Ok(MaybeAutoFormat(Resolve(ctx, e[1..])))
        else Ok(Str(e))
    }

    /** A stripped expression with a `+`: the concatenation of its parts' texts, or the
      recursion error when splitting does not take it apart. */
    function EvalSum(e: string, ctx: Value): (r: Result<Value>)
      requires e != [] && Strip(e) == e
      ensures r.Err? ==> Raised(r.msg)
      decreases |e|, 1, 0
    {
      var parts := Split(e, '+');
      if parts == [e] then Err(RecursionMessage)
      else
        ConcatPartsShorter(e);
        match EvalConcat(parts, ctx, |e|)
        case Ok(text) => Ok(Str(text))
        case Err(m) => Err(m)
    }

    /** The text of each part in order, or the first error. */
    function EvalConcat(parts: seq<string>, ctx: Value, bound: nat): (r: Result<string>)
      requires forall i :: 0 <= i < |parts| ==> |parts[i]| < bound
      ensures r.Err? ==> Raised(r.msg)
      decreases bound, 0, |parts|
    {
      if |parts| == 0 then Ok([])
      else
        match EvalExpr(parts[0], ctx)
        case Err(m) => Err(m)
        case Ok(v) =>
          match EvalConcat(parts[1..], ctx, bound)
          case Err(m) => Err(m)
          case Ok(rest) => Ok(ToText(v) + rest)
    }

    /** `_handle_if`: exactly three arguments; only the branch the condition selects is
      evaluated. */
    function HandleIf(e: string, ctx: Value): (r: Result<Value>)
      requires IsCall(e, "if")
      ensures r.Err? ==> Raised(r.msg)
      decreases |e|, 1, 0
    {
      CallLength(e, "if");
      assert |e| >= 4;
      var inner := e[3..|e| - 1];
      var args := Split(inner, ',');
      ArgsNoLonger(inner);
      if |args| != 3 then Err(IfArityMessage)
      else
        assert |args[0]| <= |inner| < |e| && |args[1]| <= |inner| && |args[2]| <= |inner|;
        match EvalExpr(args[0], ctx)
        case Err(m) => Err(m)
        case Ok(condition) =>
          if Truthy(condition) then EvalExpr(args[1], ctx) else EvalExpr(args[2], ctx)
    }

    /** `_handle_format`: exactly two arguments; the pattern must be written quoted, and a
      conversion error becomes inline text. */
    function HandleFormat(e: string, ctx: Value): (r: Result<Value>)
      requires IsCall(e, "format")
      ensures r.Err? ==> Raised(r.msg)
      decreases |e|, 1, 0
    {
      CallLength(e, "format");
      assert |e| >= 8;
      var inner := e[7..|e| - 1];
      var args := Split(inner, ',');
      ArgsNoLonger(inner);
      if |args| != 2 then Err(FormatArityMessage)
      else
        assert |args[0]| <= |inner| < |e|;
        match EvalExpr(args[0], ctx)
        case Err(m) => Err(m)
        case Ok(value) =>
          Ok(Str(ApplyPattern(value, args[1])))
    }

    /** The text `format(value, pattern)` gives once the value is known: the diagnostic for
      an unquoted pattern, the formatted value, or the conversion error inline. */
    function ApplyPattern(value: Value, patternArg: string): (r: string)
      ensures !IsQuotedLiteral(Strip(patternArg)) ==> r == UnquotedPatternMessage
    {
      var pattern := Strip(patternArg);
      if !IsQuotedLiteral(pattern) then UnquotedPatternMessage
      else
        var fmt := StripChars(pattern, {'"', '\''});
        match ValueMorpher.Morph(fmt, value, localOffset)
        case Ok(text) => text
        case Err(m) => "value|" + m
    }

    /** `_maybe_auto_format`: a date or date/time is rendered with the configured default
      pattern when there is a non-empty one; every other value is left alone. */
    function MaybeAutoFormat(v: Value): (r: Value)
      ensures !(v.Date? || v.DateTime?) ==> r == v
      ensures (config.defaultDateFormat.None? || config.defaultDateFormat == Some([])) ==> r == v
      ensures (v.Date? || v.DateTime?) && config.defaultDateFormat.Some? && config.defaultDateFormat.value != []
              ==> r.Str?
    {
      if (v.Date? || v.DateTime?) && config.defaultDateFormat.Some? && config.defaultDateFormat.value != [] then
        Str(ValueMorpher.DateText(config.defaultDateFormat.value, MomentOf(v)))
      else v
    }

    /** The text that replaces a placeholder whose inner text is `inner`. */
    function Replacement(inner: string): (r: string)
      ensures EvalExpr(Strip(inner), context).Err? ==> exists msg :: Raised(msg) && r == "{{ERROR: " + msg + "}}"
    {
      match EvalExpr(Strip(inner), context)
      case Ok(v) => ToText(v)
      case Err(m) => "{{ERROR: " + m + "}}"
    }

    /** `render`. */
    function Render(): (r: string)
      ensures '{' !in template ==> r == template
    {
      RenderText(template)
    }

    /** Replaces every placeholder of `s`, scanning from the left. */
    function RenderText(s: string): (r: string)
      ensures '{' !in s ==> r == s
      decreases |s|
    {
      if |s| == 0 then []
      else
        match OpenAt(s)
        case Some(j) => Replacement(s[2..j]) + RenderText(s[j + 2..])
        case None =>
          assert s == [s[0]] + s[1..];
          [s[0]] + RenderText(s[1..])
    }
  }

  /** `TemplateMorpher(template, context, config)`: a falsy context becomes an empty dict,
      a missing configuration the default one. */
  function Create(template: string, context: Value, config: Option<Config>, localOffset: int): (m: Morpher)
    ensures m.template == template
    ensures Truthy(context) ==> m.context == context
    ensures !Truthy(context) ==> m.context == Dict([])
    ensures config.None? ==> m.config == Config(None)
    ensures config.Some? ==> m.config == config.value
    ensures m.localOffset == localOffset
  {
    Morpher(template, if Truthy(context) then context else Dict([]), config.GetOr(Config(None)), localOffset)
  }

  // ---------------------------------------------------------------------------
  // Placeholder scanning (the regular expression `{{(.*?)}}`)
  // ---------------------------------------------------------------------------

  /** A line break comes at or after `j` and before `k`. */
  predicate BreakBetween(s: string, j: nat, k: nat) {
    exists i :: j <= i < k && i < |s| && s[i] == '\n'
  }

  /** The first `}}` at or after `j`, provided no line break comes before it. */
  function CloseFrom(s: string, j: nat): (r: Option<nat>)
    ensures r.Some? ==> j <= r.value && r.value + 2 <= |s| && s[r.value] == '}' && s[r.value + 1] == '}'
    ensures r.Some? ==> forall k :: j <= k < r.value ==> s[k] != '\n' && !(s[k] == '}' && s[k + 1] == '}')
    ensures r.None? ==> forall k :: j <= k && k + 1 < |s| && s[k] == '}' && s[k + 1] == '}' ==>
                          BreakBetween(s, j, k)
    decreases |s| - j
  {
    if j + 2 > |s| then None
    else if s[j] == '}' && s[j + 1] == '}' then Some(j)
    else if s[j] == '\n' then None
    else CloseFrom(s, j + 1)
  }

  /** Where the placeholder that starts `s` closes, if `s` starts with one. */
  function OpenAt(s: string): (r: Option<nat>)
    ensures r.Some? ==> 2 <= r.value && r.value + 2 <= |s|
    ensures r.Some? ==> s[0] == '{' && s[1] == '{' && s[r.value] == '}' && s[r.value + 1] == '}'
  {
    if |s| >= 2 && s[0] == '{' && s[1] == '{' then CloseFrom(s, 2) else None
  }
}
