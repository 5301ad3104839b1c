/** What the template evaluator promises: splitting undoes joining, paths resolve one
    segment at a time and fail to the empty string, placeholders are replaced one by
    one with errors kept inline, and each kind of expression evaluates as documented. */
module TemplateProperties {
  import opened Strings
  import opened Values
  import opened TemplateMorpher
  import ValueMorpher
  import ValueProperties

  // ---------------------------------------------------------------------------
  // Splitting
  // ---------------------------------------------------------------------------

  /** A term the splitter reads in one piece and after which it is back at the top
      level: no delimiter separates inside it, and its quotes and parentheses balance. */
  predicate Whole(t: string, d: char) {
    (forall i :: 0 <= i < |t| ==> !SplitsAt(t, i, d)) && StateAfter(t) == Start
  }

  lemma {:induction false} StateFromAppend(st: ScanState, a: string, b: string)
    ensures StateFrom(st, a + b) == StateFrom(StateFrom(st, a), b)
    decreases |b|
  {
    if |b| == 0 {
      assert a + b == a;
    } else {
      var b' := b[..|b| - 1];
      StateFromAppend(st, a, b');
      assert (a + b)[..|a + b| - 1] == a + b';
      assert (a + b)[|a + b| - 1] == b[|b| - 1];
    }
  }

  /** Characters that change nothing: no quote, and no parenthesis unless quoted. */
  predicate Inert(t: string, quoted: bool) {
    forall i :: 0 <= i < |t| ==> !IsQuote(t[i]) && (quoted || (t[i] != '(' && t[i] != ')'))
  }

  lemma {:induction false} StateFromInert(st: ScanState, t: string)
    requires Inert(t, st.inQuotes)
    ensures StateFrom(st, t) == st
    decreases |t|
  {
    if |t| > 0 {
      StateFromInert(st, t[..|t| - 1]);
    }
  }

  lemma {:induction false} ScanFromAppend(sc: Scan, a: string, b: string, d: char)
    ensures ScanFrom(sc, a + b, d) == ScanFrom(ScanFrom(sc, a, d), b, d)
    decreases |b|
  {
    if |b| == 0 {
      assert a + b == a;
    } else {
      var b' := b[..|b| - 1];
      ScanFromAppend(sc, a, b', d);
      assert (a + b)[..|a + b| - 1] == a + b';
      assert (a + b)[|a + b| - 1] == b[|b| - 1];
    }
  }

  /** After a separating delimiter the splitter starts afresh: what it reads next does
      not depend on the parts already closed. */
  lemma {:induction false} ScanShift(done: seq<string>, t: string, d: char)
    ensures ScanFrom(Scan(done, [], Start), t, d)
            == Scan(done + ScanText(t, d).done, ScanText(t, d).current, ScanText(t, d).state)
    decreases |t|
  {
    if |t| > 0 {
      var t' := t[..|t| - 1];
      ScanShift(done, t', d);
      var x := ScanText(t', d);
      assert done + (x.done + [x.current]) == (done + x.done) + [x.current];
    }
  }

  lemma WholeScan(t: string, d: char)
    requires IsDelimiter(d) && Whole(t, d)
    ensures ScanText(t, d) == Scan([], t, Start)
  {
    NoSplitSinglePart(t, d);
    ScanStateIsStateAfter(t, d);
  }

  /** The raw segments of a join of whole terms are the terms. */
  lemma {:induction false} RawPartsOfJoin(ts: seq<string>, d: char)
    requires IsDelimiter(d) && |ts| >= 1
    requires forall i :: 0 <= i < |ts| ==> Whole(ts[i], d)
    ensures RawParts(JoinOn(ts, d), d) == ts
    decreases |ts|
  {
    WholeScan(ts[0], d);
    if |ts| > 1 {
      var rest := JoinOn(ts[1..], d);
      var head := ts[0] + [d];
      assert head[..|head| - 1] == ts[0];
      assert ScanText(head, d) == Scan([ts[0]], [], Start);
      assert JoinOn(ts, d) == head + rest;
      ScanFromAppend(Initial, head, rest, d);
      ScanShift([ts[0]], rest, d);
      assert forall i :: 0 <= i < |ts[1..]| ==> ts[1..][i] == ts[i + 1];
      RawPartsOfJoin(ts[1..], d);
      assert ts == [ts[0]] + ts[1..];
    }
  }

  /** The other half of the round trip with joining: splitting a join of whole terms
      gives the stripped terms, without a final empty one. */
  lemma SplitOfJoin(ts: seq<string>, d: char)
    requires IsDelimiter(d) && |ts| >= 1
    requires forall i :: 0 <= i < |ts| ==> Whole(ts[i], d)
    ensures Split(JoinOn(ts, d), d)
            == if ts[|ts| - 1] == [] then StripAll(ts[..|ts| - 1]) else StripAll(ts)
  {
    RawPartsOfJoin(ts, d);
    var sc := ScanText(JoinOn(ts, d), d);
    assert sc.done == ts[..|ts| - 1] && sc.current == ts[|ts| - 1];
  }

  /** Text without quotes, parentheses or the delimiter is whole. */
  lemma PlainWhole(t: string, d: char)
    requires Inert(t, false)
    requires d !in t
    ensures Whole(t, d)
  {
    StateFromInert(Start, t);
  }

  /** A quoted term is whole, whatever delimiters and parentheses it quotes. */
  lemma QuotedWhole(q: char, body: string, d: char)
    requires IsQuote(q) && IsDelimiter(d) && Inert(body, true)
    ensures Whole([q] + body + [q], d)
  {
    var t := [q] + body + [q];
    var inside := ScanState(0, true);
    assert StateAfter([q]) == inside by {
      assert [q][..0] == [] && [q][0] == q;
      assert StateFrom(Start, []) == Start;
      assert Advance(Start, q) == inside;
    }
    forall i | 0 <= i < |t| ensures !SplitsAt(t, i, d) {
      if i > 0 {
        assert t[..i] == [q] + body[..i - 1];
        StateFromAppend(Start, [q], body[..i - 1]);
        assert Inert(body[..i - 1], true);
        StateFromInert(inside, body[..i - 1]);
      }
    }
    assert t[..|t| - 1] == [q] + body;
    StateFromAppend(Start, [q], body);
    StateFromInert(inside, body);
  }

  /** One flag serves both quote characters, so a `"` inside `'…'` closes the quote: a
      delimiter after it separates, and the single-quoted text is taken apart. */
  lemma MixedQuotesSplit(a: string, b: string, d: char)
    requires IsDelimiter(d) && Inert(a, true)
    ensures SplitsAt("'" + a + "\"" + [d] + b, |a| + 2, d)
    ensures |ScanText("'" + a + "\"" + [d] + b, d).done| >= 1
  {
    var t := "'" + a + "\"" + [d] + b;
    var inside := ScanState(0, true);
    assert t[..|a| + 2] == "'" + a + "\"";
    assert t[|a| + 2] == d;
    StateFromAppend(Start, "'", a);
    StateFromOne(Start, '\'');
    StateFromInert(inside, a);
    StateFromAppend(Start, "'" + a, "\"");
    StateFromOne(inside, '"');
    assert SplitsAt(t, |a| + 2, d);
    SplitCloses(t, d, |a| + 2);
  }

  /** A call `name(body)` with a plain name and a body without quotes or parentheses
      is whole, whatever delimiters the body holds. */
  lemma CallWhole(name: string, body: string, d: char)
    requires IsDelimiter(d) && Inert(name, false) && d !in name && Inert(body, false)
    ensures Whole(name + "(" + body + ")", d)
  {
    var t := name + "(" + body + ")";
    var open := ScanState(1, false);
    StateFromInert(Start, name);
    assert StateAfter(name + "(") == open by {
      assert (name + "(")[..|name|] == name;
    }
    forall i | 0 <= i < |t| ensures !SplitsAt(t, i, d) {
      if i < |name| {
        assert t[i] == name[i];
      } else if i > |name| {
        assert t[..i] == (name + "(") + body[..i - |name| - 1];
        StateFromAppend(Start, name + "(", body[..i - |name| - 1]);
        assert Inert(body[..i - |name| - 1], false);
        StateFromInert(open, body[..i - |name| - 1]);
      }
    }
    assert t[..|t| - 1] == (name + "(") + body;
    StateFromAppend(Start, name + "(", body);
    StateFromInert(open, body);
  }

  // ---------------------------------------------------------------------------
  // Variable paths
  // ---------------------------------------------------------------------------

  lemma {:induction false} WalkAppend(v: Value, a: seq<string>, b: seq<string>)
    ensures Walk(v, a + b) == match Walk(v, a)
                              case None => None
                              case Some(w) => Walk(w, b)
    decreases |a|
  {
    if |a| == 0 {
      assert a + b == b;
    } else {
      assert (a + b)[0] == a[0] && (a + b)[1..] == a[1..] + b;
      match Step(v, a[0])
      case None =>
      case Some(w) => WalkAppend(w, a[1..], b);
    }
  }

  /** A path is followed one segment at a time: the first segment is a step, the rest
      is resolved from where it leads, and a miss is the empty string. */
  lemma ResolveFirstSegment(ctx: Value, segment: string, rest: string)
    requires '.' !in segment
    ensures Resolve(ctx, segment + "." + rest) == match Step(ctx, segment)
                                                  case None => Str("")
                                                  case Some(w) => Resolve(w, rest)
  {
    var ps := SplitOn(rest, '.');
    assert JoinOn([segment] + ps, '.') == segment + "." + rest by {
      assert ([segment] + ps)[1..] == ps;
    }
    forall i | 0 <= i < |[segment] + ps| ensures '.' !in ([segment] + ps)[i] {
      if i > 0 {
        assert ([segment] + ps)[i] == ps[i - 1];
      }
    }
    SplitOnJoin([segment] + ps, '.');
    WalkAppend(ctx, [segment], ps);
  }

  lemma ResolveLastSegment(ctx: Value, segment: string)
    requires '.' !in segment
    ensures Resolve(ctx, segment) == Step(ctx, segment).GetOr(Str(""))
  {
    SplitOnAbsent(segment, '.');
    var ps := [segment];
    assert ps[0] == segment && ps[1..] == [];
    match Step(ctx, segment)
    case None =>
      assert Walk(ctx, ps) == None;
    case Some(w) =>
      assert Walk(w, []) == Some(w);
      assert Walk(ctx, ps) == Some(w);
  }

  /** A dict key that is missing ends the walk with the empty string. */
  lemma MissingKey(entries: seq<(string, Value)>, key: string, rest: string)
    requires '.' !in key
    requires forall i :: 0 <= i < |entries| ==> entries[i].0 != key
    ensures Resolve(Dict(entries), key + "." + rest) == Str("")
    ensures Resolve(Dict(entries), key) == Str("")
  {
    ResolveFirstSegment(Dict(entries), key, rest);
    ResolveLastSegment(Dict(entries), key);
  }

  /** A list is indexed by a segment of decimal digits; an index past the end is a
      miss. */
  lemma ListIndex(items: seq<Value>, i: nat)
    ensures Resolve(List(items), NatText(i)) == if i < |items| then items[i] else Str("")
  {
    DigitsExclude(NatText(i), '.');
    ResolveLastSegment(List(items), NatText(i));
  }

  /** A list segment that is not all digits ends the walk with the empty string. */
  lemma NonDigitIndex(items: seq<Value>, segment: string, rest: string)
    requires '.' !in segment && !AllDigits(segment)
    ensures Resolve(List(items), segment + "." + rest) == Str("")
    ensures Resolve(List(items), segment) == Str("")
  {
    ResolveFirstSegment(List(items), segment, rest);
    ResolveLastSegment(List(items), segment);
  }

  /** A value without attributes ends the walk with the empty string. */
  lemma NoAttribute(v: Value, segment: string, rest: string)
    requires '.' !in segment
    requires v.Str? || v.Int? || v.Bool? || v.Float? || v.Null?
    ensures Resolve(v, segment + "." + rest) == Str("")
    ensures Resolve(v, segment) == Str("")
  {
    ResolveFirstSegment(v, segment, rest);
    ResolveLastSegment(v, segment);
  }

  /** An object's attribute, or a date's field, is found by name. */
  lemma ObjectAttribute(attrs: map<string, Value>, text: string, name: string)
    requires '.' !in name && name in attrs
    ensures Resolve(Obj(attrs, text), name) == attrs[name]
  {
    ResolveLastSegment(Obj(attrs, text), name);
  }

  // ---------------------------------------------------------------------------
  // Rendering
  // ---------------------------------------------------------------------------

  lemma {:induction false} CloseFromNone(s: string, j: nat)
    requires '}' !in s
    ensures CloseFrom(s, j) == None
    decreases |s| - j
  {
    if j + 2 <= |s| {
      assert s[j] != '}';
      if s[j] != '\n' {
        CloseFromNone(s, j + 1);
      }
    }
  }

  /** The scanner finds the first `}}` when no line break comes before it. */
  lemma {:induction false} CloseFromFinds(s: string, j: nat, k: nat)
    requires j <= k && k + 2 <= |s| && s[k] == '}' && s[k + 1] == '}'
    requires forall i :: j <= i < k ==> s[i] != '\n' && !(s[i] == '}' && s[i + 1] == '}')
    ensures CloseFrom(s, j) == Some(k)
    decreases k - j
  {
    if j < k {
      CloseFromFinds(s, j + 1, k);
    }
  }

  /** A character that does not open a placeholder is copied. */
  lemma RenderCopies(m: Morpher, s: string)
    requires |s| > 0 && OpenAt(s) == None
    ensures m.RenderText(s) == [s[0]] + m.RenderText(s[1..])
  {
  }

  lemma {:induction false} RenderPassesPlain(m: Morpher, a: string, b: string)
    requires '{' !in a
    ensures m.RenderText(a + b) == a + m.RenderText(b)
    decreases |a|
  {
    if |a| == 0 {
      assert a + b == b;
      assert a + m.RenderText(b) == m.RenderText(b);
    } else {
      PlainHead(a, b);
      RenderCopies(m, a + b);
      RenderPassesPlain(m, a[1..], b);
      PlainRegroup(a, m.RenderText(b));
    }
  }

  lemma PlainHead(a: string, b: string)
    requires |a| > 0 && '{' !in a
    ensures |a + b| > 0 && OpenAt(a + b) == None
    ensures [(a + b)[0]] == [a[0]] && (a + b)[1..] == a[1..] + b && '{' !in a[1..]
  {
    assert (a + b)[0] == a[0];
  }

  lemma PlainRegroup(a: string, r: string)
    requires |a| > 0
    ensures [a[0]] + (a[1..] + r) == a + r
  {
    assert a == [a[0]] + a[1..];
  }

  /** Text without `}` has no placeholder and is copied as it is. */
  lemma {:induction false} RenderWithoutClose(m: Morpher, s: string)
    requires '}' !in s
    ensures m.RenderText(s) == s
    decreases |s|
  {
    if |s| > 0 {
      CloseFromNone(s, 2);
      assert '}' !in s[1..];
      RenderWithoutClose(m, s[1..]);
      assert s == [s[0]] + s[1..];
    }
  }

  /** A template in which no position opens a placeholder comes back unchanged. */
  lemma {:induction false} NoPlaceholderUnchanged(m: Morpher, s: string)
    requires forall i :: 0 <= i < |s| ==> OpenAt(s[i..]).None?
    ensures m.RenderText(s) == s
    decreases |s|
  {
    if |s| > 0 {
      assert s[0..] == s;
      RenderCopies(m, s);
      forall i | 0 <= i < |s[1..]| ensures OpenAt(s[1..][i..]).None? {
        assert s[1..][i..] == s[i + 1..];
      }
      NoPlaceholderUnchanged(m, s[1..]);
      assert s == [s[0]] + s[1..];
    }
  }

  /** In particular, a template without `{` or without `}` comes back unchanged. */
  lemma RenderUnchanged(m: Morpher, s: string)
    requires '{' !in s || '}' !in s
    ensures m.RenderText(s) == s
  {
    if '{' !in s {
      RenderPassesPlain(m, s, []);
      assert s + [] == s;
    } else {
      RenderWithoutClose(m, s);
    }
  }

  /** Inner text that the placeholder pattern reads up to the next `}}`: no line break,
      no `}}`, and no `}` at its end, which would close one character early. */
  predicate ClosesAfter(inner: string) {
    forall i :: 0 <= i < |inner| ==>
      inner[i] != '\n' && !(inner[i] == '}' && (i + 1 == |inner| || inner[i + 1] == '}'))
  }

  /** A placeholder on one line opens at the start and closes at its own `}}`. */
  lemma PlaceholderAt(inner: string, rest: string)
    requires ClosesAfter(inner)
    ensures OpenAt("{{" + inner + "}}" + rest) == Some(|inner| + 2)
    ensures ("{{" + inner + "}}" + rest)[2..|inner| + 2] == inner
    ensures ("{{" + inner + "}}" + rest)[|inner| + 4..] == rest
  {
    var s := "{{" + inner + "}}" + rest;
    var k := |inner| + 2;
    forall i | 2 <= i < k ensures s[i] != '\n' && !(s[i] == '}' && s[i + 1] == '}') {
      assert s[i] == inner[i - 2];
      assert inner[i - 2] != '\n' && !(inner[i - 2] == '}' && (i - 1 == |inner| || inner[i - 1] == '}'));
      if i + 1 < k {
        assert s[i + 1] == inner[i - 1];
      }
    }
    CloseFromFinds(s, 2, k);
    assert s[2..k] == inner;
    assert s[k + 2..] == rest;
  }

  /** A placeholder on one line becomes the text of its expression's value, or the
      inline error marker; the rest of the template is rendered on its own. */
  lemma RenderPlaceholder(m: Morpher, inner: string, rest: string)
    requires ClosesAfter(inner)
    ensures m.RenderText("{{" + inner + "}}" + rest)
            == (match m.EvalExpr(Strip(inner), m.context)
                case Ok(v) => ToText(v)
                case Err(msg) => "{{ERROR: " + msg + "}}") + m.RenderText(rest)
  {
    PlaceholderAt(inner, rest);
  }

  /** A `{{` whose expression runs over a line break is not a placeholder: the brace is
      copied. */
  lemma LineBreakNotPlaceholder(m: Morpher, inner: string, rest: string)
    requires '\n' in inner && '}' !in inner
    ensures m.RenderText("{{" + inner + "}}" + rest) == "{" + m.RenderText("{" + inner + "}}" + rest)
  {
    var s := "{{" + inner + "}}" + rest;
    var k :| 0 <= k < |inner| && inner[k] == '\n';
    assert s[k + 2] == '\n';
    assert forall i :: 2 <= i < k + 2 ==> s[i] == inner[i - 2];
    assert CloseFrom(s, 2) == None by {
      CloseFromStops(s, 2, k + 2);
    }
    assert s[1..] == "{" + inner + "}}" + rest;
  }

  lemma {:induction false} CloseFromStops(s: string, j: nat, k: nat)
    requires j <= k < |s| && s[k] == '\n'
    requires forall i :: j <= i < k ==> s[i] != '}'
    ensures CloseFrom(s, j) == None
    decreases k - j
  {
    if j < k && j + 2 <= |s| {
      CloseFromStops(s, j + 1, k);
    }
  }

  // ---------------------------------------------------------------------------
  // Expressions
  // ---------------------------------------------------------------------------

  /** Surrounding whitespace never changes what an expression evaluates to. */
  lemma EvalStrip(m: Morpher, x: string, ctx: Value)
    ensures m.EvalExpr(Strip(x), ctx) == m.EvalExpr(x, ctx)
  {
    StripIdempotent(x);
  }

  /** `name(inner)` passes the dispatch test for `name`, is already stripped, and its
      argument text is `inner`. */
  lemma CallText(name: string, inner: string)
    requires |name| > 0 && name[0] !in Whitespace
    ensures IsCall(name + "(" + inner + ")", name)
    ensures Strip(name + "(" + inner + ")") == name + "(" + inner + ")"
    ensures (name + "(" + inner + ")")[|name| + 1..|name| + 1 + |inner|] == inner
  {
    var e := name + "(" + inner + ")";
    assert e[..|name| + 1] == name + "(";
    assert e[|e| - 1..] == ")";
    assert e[0] == name[0];
    StripCharsNoop(e, Whitespace);
  }

  /** Text that starts and ends with a character that is not whitespace is stripped. */
  lemma StrippedEnds(e: string)
    requires |e| > 0 && e[0] !in Whitespace && e[|e| - 1] !in Whitespace
    ensures Strip(e) == e
  {
    StripCharsNoop(e, Whitespace);
  }

  /** Only text starting with `i` or `f` can be a call. */
  lemma NotCall(e: string)
    requires |e| > 0 && e[0] != 'i' && e[0] != 'f'
    ensures Dispatch(e) == None
  {
  }

  /** What the evaluator tests of a quoted text without a `+`. */
  lemma QuotedShape(q: char, body: string)
    requires IsQuote(q) && '+' !in body
    ensures Strip([q] + body + [q]) == [q] + body + [q]
    ensures Dispatch([q] + body + [q]) == None && '+' !in [q] + body + [q]
    ensures IsQuotedLiteral([q] + body + [q]) && Unquote([q] + body + [q]) == body
  {
    var e := [q] + body + [q];
    assert e[0] == q && e[|e| - 1] == q;
    StrippedEnds(e);
    NotCall(e);
    assert e[..1] == [q] && e[|e| - 1..] == [q];
  }

  /** A quoted literal without a `+` evaluates to the text between its quotes. */
  lemma LiteralEval(m: Morpher, q: char, body: string, ctx: Value)
    requires IsQuote(q) && '+' !in body
    ensures m.EvalExpr([q] + body + [q], ctx) == Ok(Str(body))
  {
    QuotedShape(q, body);
  }

  /** What the evaluator tests of `$path`. */
  lemma VariableShape(path: string)
    requires '+' !in path && (path == [] || path[|path| - 1] !in Whitespace)
    ensures Strip("$" + path) == "$" + path
    ensures Dispatch("$" + path) == None && '+' !in "$" + path
    ensures !IsQuotedLiteral("$" + path) && StartsWith("$" + path, "$") && ("$" + path)[1..] == path
  {
    var e := "$" + path;
    assert e[0] == '$' && e[|e| - 1] !in Whitespace;
    StrippedEnds(e);
    NotCall(e);
    assert e[..1] == "$";
  }

  /** `$path` evaluates to the value at the path, auto-formatted when it is a date. */
  lemma VariableEval(m: Morpher, path: string, ctx: Value)
    requires '+' !in path && (path == [] || path[|path| - 1] !in Whitespace)
    ensures m.EvalExpr("$" + path, ctx) == Ok(m.MaybeAutoFormat(Resolve(ctx, path)))
  {
    VariableShape(path);
  }

  /** What the evaluator tests of a run of digits. */
  lemma DigitsShape(digits: string)
    requires AllDigits(digits)
    ensures Strip(digits) == digits && Dispatch(digits) == None && '+' !in digits
    ensures !IsQuotedLiteral(digits) && !StartsWith(digits, "$")
  {
    assert IsDigit(digits[0]) && IsDigit(digits[|digits| - 1]);
    StripCharsNoop(digits, Whitespace);
    DigitsExclude(digits, '+');
  }

  /** A run of digits is text, not a number: it evaluates to itself. */
  lemma DigitsEval(m: Morpher, digits: string, ctx: Value)
    requires AllDigits(digits)
    ensures m.EvalExpr(digits, ctx) == Ok(Str(digits))
  {
    DigitsShape(digits);
  }

  lemma JoinThree(x: string, y: string, z: string, d: char)
    ensures JoinOn([x, y, z], d) == x + [d] + y + [d] + z
  {
    assert [x, y, z][1..] == [y, z] && [y, z][1..] == [z];
    assert JoinOn([z], d) == z;
    assert JoinOn([y, z], d) == y + [d] + z;
  }

  lemma ThreeArgsText(name: string, c: string, a: string, b: string)
    ensures name + "(" + c + "," + a + "," + b + ")" == name + "(" + (c + "," + a + "," + b) + ")"
  {
  }

  /** Three whole terms joined by a delimiter split back into the stripped terms. */
  lemma SplitThree(c: string, a: string, b: string, d: char)
    requires IsDelimiter(d) && Whole(c, d) && Whole(a, d) && Whole(b, d) && b != []
    ensures Split(c + [d] + a + [d] + b, d) == [Strip(c), Strip(a), Strip(b)]
  {
    JoinThree(c, a, b, d);
    SplitOfJoin([c, a, b], d);
    assert StripAll([c, a, b]) == [Strip(c), Strip(a), Strip(b)];
  }

  /** `if(inner)` is a stripped call of `if` whose argument text is `inner`. */
  lemma IfText(inner: string)
    ensures Strip("if(" + inner + ")") == "if(" + inner + ")"
    ensures Dispatch("if(" + inner + ")") == Some(If)
    ensures var e := "if(" + inner + ")"; e[3..|e| - 1] == inner
  {
    assert "if" + "(" == "if(";
    CallText("if", inner);
  }

  /** How the evaluator takes `if(c, a, b)` apart. */
  lemma IfShape(c: string, a: string, b: string)
    requires Whole(c, ',') && Whole(a, ',') && Whole(b, ',') && b != []
    ensures Strip("if(" + c + "," + a + "," + b + ")") == "if(" + c + "," + a + "," + b + ")"
    ensures Dispatch("if(" + c + "," + a + "," + b + ")") == Some(If)
    ensures var e := "if(" + c + "," + a + "," + b + ")";
            Split(e[3..|e| - 1], ',') == [Strip(c), Strip(a), Strip(b)]
  {
    ThreeArgsText("if", c, a, b);
    assert "if" + "(" == "if(";
    IfText(c + "," + a + "," + b);
    assert "," == [','];
    SplitThree(c, a, b, ',');
  }

  /** `if(c, a, b)` evaluates the condition, then only the branch it selects; an error
      in the condition is the result. */
  lemma IfCall(m: Morpher, c: string, a: string, b: string, ctx: Value)
    requires Whole(c, ',') && Whole(a, ',') && Whole(b, ',') && b != []
    ensures m.EvalExpr("if(" + c + "," + a + "," + b + ")", ctx)
            == match m.EvalExpr(c, ctx)
               case Err(msg) => Err(msg)
               case Ok(v) => if Truthy(v) then m.EvalExpr(a, ctx) else m.EvalExpr(b, ctx)
  {
    IfShape(c, a, b);
    EvalStrip(m, c, ctx);
    EvalStrip(m, a, ctx);
    EvalStrip(m, b, ctx);
  }

  /** A condition naming a variable that resolves to nothing (a missing key, a missing
      index) is falsy, so `if` takes the else branch. */
  lemma MissingConditionTakesElse(m: Morpher, path: string, a: string, b: string, ctx: Value)
    requires Inert(path, false) && ',' !in path && '+' !in path && (path == [] || path[|path| - 1] !in Whitespace)
    requires Whole(a, ',') && Whole(b, ',') && b != []
    requires Resolve(ctx, path) == Str("")
    ensures m.EvalExpr("if($" + path + "," + a + "," + b + ")", ctx) == m.EvalExpr(b, ctx)
  {
    VariableCondition(path, a, b);
    IfCall(m, "$" + path, a, b, ctx);
    VariableEval(m, path, ctx);
  }

  lemma VariableCondition(path: string, a: string, b: string)
    requires Inert(path, false) && ',' !in path
    ensures Whole("$" + path, ',')
    ensures "if($" + path + "," + a + "," + b + ")" == "if(" + ("$" + path) + "," + a + "," + b + ")"
  {
    var c := "$" + path;
    assert Inert(c, false) && ',' !in c by {
      assert forall i :: 1 <= i < |c| ==> c[i] == path[i - 1];
    }
    PlainWhole(c, ',');
  }

  /** The number of arguments the splitter finds in a join of whole terms. */
  function ArgCount(ts: seq<string>): nat
    requires |ts| >= 1
  {
    if ts[|ts| - 1] == [] then |ts| - 1 else |ts|
  }

  /** `if(...)` with other than three arguments raises the arity error; `if()` counts
      as no arguments. */
  lemma IfArity(m: Morpher, ts: seq<string>, ctx: Value)
    requires |ts| >= 1 && (forall i :: 0 <= i < |ts| ==> Whole(ts[i], ','))
    requires ArgCount(ts) != 3
    ensures m.EvalExpr("if(" + JoinOn(ts, ',') + ")", ctx) == Err(IfArityMessage)
  {
    IfText(JoinOn(ts, ','));
    SplitOfJoin(ts, ',');
  }

  /** Two whole terms joined by a delimiter split back into the stripped terms. */
  lemma SplitTwo(v: string, p: string, d: char)
    requires IsDelimiter(d) && Whole(v, d) && Whole(p, d) && p != []
    ensures Split(v + [d] + p, d) == [Strip(v), Strip(p)]
  {
    assert [v, p][1..] == [p];
    assert JoinOn([v, p], d) == v + [d] + p;
    SplitOfJoin([v, p], d);
    assert StripAll([v, p]) == [Strip(v), Strip(p)];
  }

  /** `format(inner)` is a stripped call of `format` whose argument text is `inner`. */
  lemma FormatText(inner: string)
    ensures Strip("format(" + inner + ")") == "format(" + inner + ")"
    ensures Dispatch("format(" + inner + ")") == Some(Format)
    ensures var e := "format(" + inner + ")"; e[7..|e| - 1] == inner
  {
    assert "format" + "(" == "format(";
    CallText("format", inner);
    NotIfCall("format(" + inner + ")");
  }

  /** `format(...)` with other than two arguments raises the arity error; `format()`
      counts as no arguments. */
  lemma FormatArity(m: Morpher, ts: seq<string>, ctx: Value)
    requires |ts| >= 1 && (forall i :: 0 <= i < |ts| ==> Whole(ts[i], ','))
    requires ArgCount(ts) != 2
    ensures m.EvalExpr("format(" + JoinOn(ts, ',') + ")", ctx) == Err(FormatArityMessage)
  {
    FormatText(JoinOn(ts, ','));
    SplitOfJoin(ts, ',');
  }

  /** Text that does not start with `i` is no call of `if`. */
  lemma NotIfCall(e: string)
    requires |e| > 0 && e[0] != 'i'
    ensures !IsCall(e, "if")
  {
  }

  /** How the evaluator takes `format(v, p)` apart. */
  lemma FormatShape(v: string, p: string)
    requires Whole(v, ',') && Whole(p, ',') && p != []
    ensures Strip("format(" + v + "," + p + ")") == "format(" + v + "," + p + ")"
    ensures Dispatch("format(" + v + "," + p + ")") == Some(Format)
    ensures var e := "format(" + v + "," + p + ")";
            Split(e[7..|e| - 1], ',') == [Strip(v), Strip(p)]
  {
    assert "format(" + v + "," + p + ")" == "format(" + (v + "," + p) + ")";
    FormatText(v + "," + p);
    assert "," == [','];
    SplitTwo(v, p, ',');
  }

  /** `format(v, p)` with a pattern that is not quoted: an error evaluating the value
      still wins, otherwise the diagnostic text is the result. */
  lemma FormatUnquoted(m: Morpher, v: string, p: string, ctx: Value)
    requires Whole(v, ',') && Whole(p, ',') && p != [] && !IsQuotedLiteral(Strip(p))
    ensures m.EvalExpr("format(" + v + "," + p + ")", ctx)
            == match m.EvalExpr(v, ctx)
               case Err(msg) => Err(msg)
               case Ok(_) => Ok(Str(UnquotedPatternMessage))
  {
    FormatShape(v, p);
    EvalStrip(m, v, ctx);
    StripIdempotent(p);
  }

  /** Stripping quote characters from a quoted pattern without quotes of its own gives
      the pattern back. */
  lemma StripQuotes(q: char, fmt: string)
    requires IsQuote(q) && Inert(fmt, true)
    ensures StripChars([q] + fmt + [q], {'"', '\''}) == fmt
  {
    var cs := {'"', '\''};
    var t := [q] + fmt + [q];
    assert t[0] == q && t[1..] == fmt + [q];
    if fmt == [] {
      assert t[1..][1..] == [];
      assert TrimLeft(t, cs) == [];
    } else {
      assert (fmt + [q])[0] == fmt[0];
      assert TrimLeft(t, cs) == fmt + [q];
      assert (fmt + [q])[..|fmt + [q]| - 1] == fmt;
      assert TrimRight(fmt + [q], cs) == TrimRight(fmt, cs);
    }
  }

  /** What the evaluator tests of a quoted pattern. */
  lemma PatternShape(q: char, fmt: string)
    requires IsQuote(q) && Inert(fmt, true)
    ensures Whole([q] + fmt + [q], ',') && [q] + fmt + [q] != []
    ensures Strip([q] + fmt + [q]) == [q] + fmt + [q] && IsQuotedLiteral([q] + fmt + [q])
    ensures StripChars([q] + fmt + [q], {'"', '\''}) == fmt
  {
    var t := [q] + fmt + [q];
    QuotedWhole(q, fmt, ',');
    assert t[0] == q && t[|t| - 1] == q;
    StrippedEnds(t);
    assert t[..1] == [q] && t[|t| - 1..] == [q];
    StripQuotes(q, fmt);
  }

  /** `format(v, 'fmt')`: an error evaluating the value wins; otherwise the value is
      formatted with `fmt`, and a conversion error becomes the text `value|<message>`. */
  lemma FormatQuoted(m: Morpher, v: string, q: char, fmt: string, ctx: Value)
    requires Whole(v, ',') && IsQuote(q) && Inert(fmt, true)
    ensures m.EvalExpr("format(" + v + "," + ([q] + fmt + [q]) + ")", ctx)
            == match m.EvalExpr(v, ctx)
               case Err(msg) => Err(msg)
               case Ok(x) =>
                 Ok(Str(match ValueMorpher.Morph(fmt, x, m.localOffset)
                        case Ok(text) => text
                        case Err(e) => "value|" + e))
  {
    PatternShape(q, fmt);
    FormatShape(v, [q] + fmt + [q]);
    EvalStrip(m, v, ctx);
  }

  /** The texts of values, one after the other. */
  function Texts(vs: seq<Value>): string {
    if |vs| == 0 then [] else ToText(vs[0]) + Texts(vs[1..])
  }

  /** A concatenation whose parts all evaluate gives their texts in order. */
  lemma {:induction false} EvalConcatOk(m: Morpher, parts: seq<string>, ctx: Value, bound: nat, vs: seq<Value>)
    requires forall i :: 0 <= i < |parts| ==> |parts[i]| < bound
    requires |vs| == |parts| && forall i :: 0 <= i < |parts| ==> m.EvalExpr(parts[i], ctx) == Ok(vs[i])
    ensures m.EvalConcat(parts, ctx, bound) == Ok(Texts(vs))
    decreases |parts|
  {
    if |parts| > 0 {
      EvalConcatOk(m, parts[1..], ctx, bound, vs[1..]);
    }
  }

  /** The first part that fails decides the error; later parts are not evaluated. */
  lemma {:induction false} EvalConcatErr(m: Morpher, parts: seq<string>, ctx: Value, bound: nat, k: nat, msg: string)
    requires forall i :: 0 <= i < |parts| ==> |parts[i]| < bound
    requires k < |parts| && m.EvalExpr(parts[k], ctx) == Err(msg)
    requires forall i :: 0 <= i < k ==> m.EvalExpr(parts[i], ctx).Ok?
    ensures m.EvalConcat(parts, ctx, bound) == Err(msg)
    decreases k
  {
    if k > 0 {
      EvalConcatErr(m, parts[1..], ctx, bound, k - 1, msg);
    }
  }

  /** The join of two or more whole terms contains the delimiter and splits back into
      the stripped terms. */
  lemma ConcatShape(ts: seq<string>)
    requires |ts| >= 2 && (forall i :: 0 <= i < |ts| ==> Whole(ts[i], '+')) && ts[|ts| - 1] != []
    ensures '+' in JoinOn(ts, '+')
    ensures Split(JoinOn(ts, '+'), '+') == StripAll(ts)
    ensures Split(JoinOn(ts, '+'), '+') != [JoinOn(ts, '+')]
  {
    assert JoinOn(ts, '+') == ts[0] + ['+'] + JoinOn(ts[1..], '+');
    assert JoinOn(ts, '+')[|ts[0]|] == '+';
    SplitOfJoin(ts, '+');
  }

  /** `a + b + ...` whose terms all evaluate gives the concatenation of their texts, for
      an expression that is no call and is already stripped. */
  lemma ConcatEval(m: Morpher, ts: seq<string>, vs: seq<Value>, ctx: Value)
    requires |ts| >= 2 && (forall i :: 0 <= i < |ts| ==> Whole(ts[i], '+')) && ts[|ts| - 1] != []
    requires Strip(JoinOn(ts, '+')) == JoinOn(ts, '+') && Dispatch(JoinOn(ts, '+')) == None
    requires |vs| == |ts| && forall i :: 0 <= i < |ts| ==> m.EvalExpr(ts[i], ctx) == Ok(vs[i])
    ensures m.EvalExpr(JoinOn(ts, '+'), ctx) == Ok(Str(Texts(vs)))
  {
    var e := JoinOn(ts, '+');
    ConcatShape(ts);
    ConcatPartsShorter(e);
    var parts := Split(e, '+');
    forall i | 0 <= i < |parts| ensures m.EvalExpr(parts[i], ctx) == Ok(vs[i]) {
      EvalStrip(m, ts[i], ctx);
    }
    EvalConcatOk(m, parts, ctx, |e|, vs);
  }

  /** `a + b + ...` in which term `k` is the first that fails is that failure. */
  lemma ConcatError(m: Morpher, ts: seq<string>, k: nat, msg: string, ctx: Value)
    requires |ts| >= 2 && (forall i :: 0 <= i < |ts| ==> Whole(ts[i], '+')) && ts[|ts| - 1] != []
    requires Strip(JoinOn(ts, '+')) == JoinOn(ts, '+') && Dispatch(JoinOn(ts, '+')) == None
    requires k < |ts| && m.EvalExpr(ts[k], ctx) == Err(msg)
    requires forall i :: 0 <= i < k ==> m.EvalExpr(ts[i], ctx).Ok?
    ensures m.EvalExpr(JoinOn(ts, '+'), ctx) == Err(msg)
  {
    var e := JoinOn(ts, '+');
    ConcatShape(ts);
    ConcatPartsShorter(e);
    var parts := Split(e, '+');
    forall i | 0 <= i <= k ensures m.EvalExpr(parts[i], ctx) == m.EvalExpr(ts[i], ctx) {
      EvalStrip(m, ts[i], ctx);
    }
    EvalConcatErr(m, parts, ctx, |e|, k, msg);
  }

  /** What the evaluator tests of a quoted text that holds a `+`. */
  lemma QuotedPlusShape(q: char, body: string)
    requires IsQuote(q) && Inert(body, true) && '+' in body
    ensures Strip([q] + body + [q]) == [q] + body + [q]
    ensures Dispatch([q] + body + [q]) == None && '+' in [q] + body + [q]
    ensures Split([q] + body + [q], '+') == [[q] + body + [q]]
  {
    var t := [q] + body + [q];
    QuotedWhole(q, body, '+');
    assert t[0] == q && t[|t| - 1] == q;
    StrippedEnds(t);
    NotCall(t);
    var j :| 0 <= j < |body| && body[j] == '+';
    assert t[j + 1] == '+';
    assert JoinOn([t], '+') == t;
    SplitOfJoin([t], '+');
    assert StripAll([t]) == [Strip(t)];
  }

  /** The `+` test comes before the quoted-literal test, and the splitter does not split
      inside quotes: a quoted literal holding a `+` never splits, so its evaluation
      recurses without end and raises the recursion error. */
  lemma QuotedPlusFails(m: Morpher, q: char, body: string, ctx: Value)
    requires IsQuote(q) && Inert(body, true) && '+' in body
    ensures m.EvalExpr([q] + body + [q], ctx) == Err(RecursionMessage)
  {
    QuotedPlusShape(q, body);
  }

  /** The text between two calls of `if` joined by `+` is whole at the top level: the
      closing parenthesis and the next opening one cancel. */
  lemma BridgeWhole(y: string, c: string)
    requires Inert(y, false) && Inert(c, false) && ',' !in y && ',' !in c
    ensures Whole(y + ")+if(" + c, ',')
  {
    var t := y + ")+if(" + c;
    forall i | 0 <= i < |t| ensures !SplitsAt(t, i, ',') {
      if i < |y| {
        assert t[i] == y[i];
      } else if i >= |y| + 5 {
        assert t[i] == c[i - |y| - 5];
      }
    }
    BridgeState(y, c);
  }

  lemma BridgeState(y: string, c: string)
    requires Inert(y, false) && Inert(c, false)
    ensures StateAfter(y + ")+if(" + c) == Start
  {
    StateFromAppend(Start, y + ")+if(", c);
    StateFromAppend(Start, y, ")+if(");
    StateFromInert(Start, y);
    var below := ScanState(-1, false);
    assert ")+if(" == [')'] + "+if" + ['('];
    StateFromAppend(Start, [')'] + "+if", ['(']);
    StateFromAppend(Start, [')'], "+if");
    StateFromOne(Start, ')');
    StateFromInert(below, "+if");
    StateFromOne(below, '(');
    StateFromInert(Start, c);
  }

  lemma StateFromOne(st: ScanState, c: char)
    ensures StateFrom(st, [c]) == Advance(st, c)
  {
    assert [c][..0] == [];
  }

  lemma JoinFive(a: string, b: string, c: string, d: string, e: string, sep: char)
    ensures JoinOn([a, b, c, d, e], sep) == a + [sep] + b + [sep] + (c + [sep] + d + [sep] + e)
  {
    assert [a, b, c, d, e][1..] == [b, c, d, e] && [b, c, d, e][1..] == [c, d, e];
    JoinThree(c, d, e, sep);
  }

  /** Two complete calls of `if` joined by `+` are no concatenation: the text starts
      with `if(` and ends with `)`, so it is dispatched as one call whose argument text
      has five top-level commas, and it raises the arity error. */
  lemma IfPlusIf(m: Morpher, c1: string, x1: string, y1: string, c2: string, x2: string, y2: string, ctx: Value)
    requires Inert(c1, false) && Inert(x1, false) && Inert(y1, false)
    requires Inert(c2, false) && Inert(x2, false) && Inert(y2, false)
    requires ',' !in c1 && ',' !in x1 && ',' !in y1 && ',' !in c2 && ',' !in x2 && ',' !in y2
    ensures m.EvalExpr("if(" + c1 + "," + x1 + "," + y1 + ")+if(" + c2 + "," + x2 + "," + y2 + ")", ctx)
            == Err(IfArityMessage)
  {
    var mid := y1 + ")+if(" + c2;
    var ts := [c1, x1, mid, x2, y2];
    PlainWhole(c1, ',');
    PlainWhole(x1, ',');
    BridgeWhole(y1, c2);
    PlainWhole(x2, ',');
    PlainWhole(y2, ',');
    JoinFive(c1, x1, mid, x2, y2, ',');
    IfPlusIfText(c1, x1, y1, c2, x2, y2);
    IfArity(m, ts, ctx);
  }

  lemma IfPlusIfText(c1: string, x1: string, y1: string, c2: string, x2: string, y2: string)
    ensures "if(" + c1 + "," + x1 + "," + y1 + ")+if(" + c2 + "," + x2 + "," + y2 + ")"
            == "if(" + (c1 + [','] + x1 + [','] + ((y1 + ")+if(" + c2) + [','] + x2 + [','] + y2)) + ")"
  {
    assert "," == [','];
  }

  // ---------------------------------------------------------------------------
  // Configuration
  // ---------------------------------------------------------------------------

  /** With `DD.MM.YYYY` configured, a bare date or date/time becomes its dotted date. */
  lemma AutoFormatDotted(m: Morpher, v: Value)
    requires m.config.defaultDateFormat == Some("DD.MM.YYYY") && (v.Date? || v.DateTime?)
    ensures m.MaybeAutoFormat(v) == Str(ValueProperties.DottedDate(MomentOf(v).year, MomentOf(v).month, MomentOf(v).day))
  {
    ValueProperties.DottedPattern(MomentOf(v));
  }

  /** End to end: with `DD.MM.YYYY` configured, a placeholder `{{$path}}` naming a date
      renders as the dotted date, and the rest of the template renders as before. */
  lemma RenderDottedVariable(m: Morpher, path: string, rest: string)
    requires m.config.defaultDateFormat == Some("DD.MM.YYYY")
    requires '+' !in path && '\n' !in path && '}' !in path && (path == [] || path[|path| - 1] !in Whitespace)
    requires Resolve(m.context, path).Date? || Resolve(m.context, path).DateTime?
    ensures var at := MomentOf(Resolve(m.context, path));
            m.RenderText("{{$" + path + "}}" + rest)
            == ValueProperties.DottedDate(at.year, at.month, at.day) + m.RenderText(rest)
  {
    var inner := "$" + path;
    assert "{{$" + path + "}}" + rest == "{{" + inner + "}}" + rest;
    assert '\n' !in inner && '}' !in inner;
    assert ClosesAfter(inner);
    RenderPlaceholder(m, inner, rest);
    VariableShape(path);
    VariableEval(m, path, m.context);
    AutoFormatDotted(m, Resolve(m.context, path));
  }

  /** A falsy context is replaced by an empty dict, so every variable is missing. */
  lemma FalsyContext(template: string, context: Value, config: Option<Config>, localOffset: int, key: string)
    requires !Truthy(context) && '.' !in key
    ensures Resolve(Create(template, context, config, localOffset).context, key) == Str("")
  {
    MissingKey([], key, "");
  }
}
