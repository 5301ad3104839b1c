/** The dynamic values that flow through a render: the context tree the caller supplies
    and every intermediate result of evaluation, with Python's truthiness and `str()`
    written out for each kind of value. */
module Values {
  import opened Strings

  datatype Option<+T> = None | Some(value: T) {
    function GetOr(default: T): T {
      match this
      case Some(v) => v
      case None => default
    }
  }

  /** A computation that either yields a value or raises an exception with a message. */
  datatype Result<+T> = Ok(value: T) | Err(msg: string)

  /** The fields of a Python `datetime` (microseconds are not modelled). */
  datatype Moment = Moment(year: nat, month: nat, day: nat, hour: nat, minute: nat, second: nat)

  /** A node of the context tree, or an evaluation result. */
  datatype Value =
    | Str(s: string)
    | Int(i: int)
    | Bool(b: bool)
      /** A Python float; `text` is what `str()` gives for it. */
    | Float(f: real, text: string)
    | Null
      /** A `datetime.date`: a calendar day without a time of day. */
    | Date(year: nat, month: nat, day: nat)
      /** A `datetime.datetime`. */
    | DateTime(at: Moment)
      /** A `list` or `tuple`. */
    | List(items: seq<Value>)
      /** A `dict` with string keys, in insertion order. */
    | Dict(entries: seq<(string, Value)>)
      /** Any other object: its named attributes and what `str()` gives for it. */
    | Obj(attrs: map<string, Value>, text: string)

  /** Python's `bool(v)`. */
  predicate Truthy(v: Value) {
    match v
    case Str(s) => s != []
    case Int(i) => i != 0
    case Bool(b) => b
    case Float(f, _) => f != 0.0
    case Null => false
    case Date(_, _, _) => true
    case DateTime(_) => true
    case List(items) => items != []
    case Dict(entries) => entries != []
    case Obj(_, _) => true
  }

  /** `YYYY-MM-DD`, as `date.isoformat()` writes it. */
  function IsoDate(year: nat, month: nat, day: nat): string {
    ZeroPad(year, 4) + "-" + ZeroPad(month, 2) + "-" + ZeroPad(day, 2)
  }

  /** `HH:MM:SS`. */
  function IsoTime(m: Moment): string {
    ZeroPad(m.hour, 2) + ":" + ZeroPad(m.minute, 2) + ":" + ZeroPad(m.second, 2)
  }

  /** Python's `str(v)`. */
  function ToText(v: Value): (r: string)
    ensures v.Str? ==> r == v.s
  {
    if v.List? || v.Dict? then Repr(v) else LeafText(v)
  }

  /** `str(v)` for a value that is not a container. */
  function LeafText(v: Value): string
    requires !v.List? && !v.Dict?
  {
    match v
    case Str(s) => s
    case Int(i) => IntText(i)
    case Bool(b) => if b then "True" else "False"
    case Float(_, text) => text
    case Null => "None"
    case Date(y, m, d) => IsoDate(y, m, d)
    case DateTime(at) => IsoDate(at.year, at.month, at.day) + " " + IsoTime(at)
    case Obj(_, text) => text
  }

  /** Python's `repr(v)`, as `str()` of a container uses it for the elements. */
  function Repr(v: Value): string
  {
    match v
    case Str(s) => "'" + s + "'"
    case Date(y, m, d) => "datetime.date(" + NatText(y) + ", " + NatText(m) + ", " + NatText(d) + ")"
    case DateTime(at) =>
      "datetime.datetime(" + NatText(at.year) + ", " + NatText(at.month) + ", " + NatText(at.day)
      + ", " + NatText(at.hour) + ", " + NatText(at.minute)
      + (if at.second != 0 then ", " + NatText(at.second) else "") + ")"
    case List(items) =>
      "[" + JoinWith(seq(|items|, i requires 0 <= i < |items| => Repr(items[i])), ", ") + "]"
    case Dict(entries) =>
      "{" + JoinWith(seq(|entries|, i requires 0 <= i < |entries| =>
                           "'" + entries[i].0 + "': " + Repr(entries[i].1)), ", ") + "}"
    case _ => LeafText(v)
  }

  /** The `datetime` a date-like value stands for: a plain date is midnight of its day. */
  function MomentOf(v: Value): (m: Moment)
    requires v.Date? || v.DateTime?
    ensures v.Date? ==> m.year == v.year && m.month == v.month && m.day == v.day
    ensures v.Date? ==> m.hour == 0 && m.minute == 0 && m.second == 0
    ensures v.DateTime? ==> m == v.at
  {
    if v.Date? then Moment(v.year, v.month, v.day, 0, 0, 0) else v.at
  }
}
