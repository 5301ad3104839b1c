# morphify in Dafny

A model of the two classes at the heart of morphify, a small Python library for filling
text templates.

- `TemplateMorpher` scans a template for `{{ … }}` placeholders. It evaluates the
  expression inside each one against a context tree of dicts, lists and objects, and
  splices the text of the result back into the template. An expression is one of:
  - a call `if(cond, then, else)`;
  - a call `format(value, 'pattern')`;
  - a concatenation `a + b + …`;
  - a quoted literal;
  - a variable `$a.b.0.c`;
  - any other text, taken as itself.

  Arguments and terms are split at top-level commas and plus signs; the splitting skips
  parentheses and quotes. A date or date/time reached through a variable is rendered
  with the configured default date pattern. An error inside a placeholder is shown
  inline as `{{ERROR: message}}`.
- `ValueMorpher` reads a pattern and decides what it asks for. A pattern with a `.` and
  a `0` is a decimal pattern. Otherwise, a pattern with one of the letters `D M Y H m s`
  is a date pattern. Any other pattern leaves the value as its plain text. The value is
  coerced to the kind the pattern asks for, then rendered:
  - a decimal as a fixed-point numeral with as many places as the pattern shows;
  - a date through the token translation `DD MM YYYY YY HH mm ss` to `strftime`
    directives.

The files:

- `strings.dfy` (module `Strings`): the Python string operations the code relies on
  (`strip`, `split` on one character, `replace`, `join`, digit runs).
- `values.dfy` (module `Values`): the context tree `Value`, `Result`/`Option`, Python
  truthiness and `str()`.
- `value_morpher.dfy` (module `ValueMorpher`): `ValueMorpher` as functions. The two loops
  of the source, `render` walking its table and `_date_convert` trying its layouts, are
  also methods, proved equal to the functions. So is `_date_format`, which rewrites its
  pattern token by token.
- `value_properties.dfy` (module `ValueProperties`): what the formatter's results mean.
  - Decimal text reads back as the number rounded to the pattern's places, within half a
    unit of the last place.
  - The input layouts read back the dates the output patterns write.
  - Each pattern token becomes its calendar field.
  - The conversion errors.
- `template_morpher.dfy` (module `TemplateMorpher`):
  - the splitter, as a function and as the character loop of the source;
  - the path walk, as a function and as the segment loop of the source;
  - the evaluator `Morpher`, an immutable value because the source never updates its
    fields after construction;
  - the placeholder scanner.
- `template_properties.dfy` (module `TemplateProperties`): what the splitter, the path
  walk, the scanner and each kind of expression evaluate to.

Some behaviours of the code that a reader may not expect, all modelled as written:

- `_decimal_format` takes the places from `split('.')[1]`, the characters between the
  first `.` and the next one. So `0.00.0` gives two places.
- `format(v, p)` evaluates `v` before it checks that `p` is quoted. An error in `v`
  therefore wins over the unquoted-pattern message.
- The token replacements run in sequence, so `MMmm` becomes `%%Mm` and renders as
  `%Mm`.
- `_eval_expr` tests for a call first, then for a `+`, then for a literal:
  - A quoted literal that contains `+` is treated as a concatenation. It cannot be split
    further, so it recurses without end.
  - `if(…)+if(…)` starts with `if(` and ends with `)`, so it is parsed as one `if` call
    with too many arguments.

## Model

| member | source | states |
|---|---|---|
| Strings.StripIdempotent | morphify/template_morpher.py:46 | stripping stripped text changes nothing, so the evaluator's `strip` at every level agrees with one `strip` |
| Strings.SplitOnJoin | morphify/template_morpher.py:152 | splitting, on one character, pieces joined by it that do not contain it gives the pieces back, as `str.split` promises for the path segments |
| ValueMorpher.FirstMatch | morphify/value_morpher.py:24-25 | the kind chosen is the first table entry whose matcher accepts the pattern, every earlier entry rejects it, and none chosen means every entry rejects it |
| ValueMorpher.KindOf | morphify/value_morpher.py:9-20 | a pattern is decimal exactly when it holds `.` and `0`; it is a date pattern exactly when it is not decimal and holds one of `D M Y H m s`; it is neither otherwise |
| ValueMorpher.DecimalConvert | morphify/value_morpher.py:31-36 | integers and floats convert to their number and booleans to 1 and 0; a string converts exactly when its stripped text is a signed decimal numeral; null, dates, lists, dicts and objects are the error naming the value |
| ValueMorpher.ParseUnsigned | morphify/value_morpher.py:34 | a run of digits reads as its decimal value, and the empty text reads as nothing |
| ValueMorpher.ParseReal | morphify/value_morpher.py:34 | as `float()` does for these texts: a run of digits reads as its decimal value and the empty text is rejected; `ParseUnsignedRejects` and `DecimalConvertRejects` state which texts fail |
| ValueMorpher.DecimalPlaces | morphify/value_morpher.py:40 | a pattern without a point has no places, and a pattern with one has fewer places than characters; `DecimalPlacesFirstSegment` states that the places are the length of the text between the first and the second point |
| ValueMorpher.Scaled | morphify/value_morpher.py:41 | the digits shown are the magnitude times ten to the places, rounded to within one half |
| ValueMorpher.Shifted | morphify/value_morpher.py:41 | shifting a non-negative number by ten to the places keeps it non-negative; `ShiftedIsProduct` states that the shift is the product with the power of ten |
| ValueProperties.ShiftedIsProduct | morphify/value_morpher.py:41 | multiplying by ten `places` times is multiplying by ten to the power `places` |
| ValueMorpher.FixedPoint | morphify/value_morpher.py:41 | zero places give no point; otherwise the text ends with a point followed by exactly that many digits |
| ValueMorpher.PercentagePlaces | morphify/value_morpher.py:45 | the places of a percentage pattern are never more than those of the same decimal pattern, since only percent signs are taken out; `PercentagePlacesCount` gives them for `a.b%` |
| ValueMorpher.PercentageFormat | morphify/value_morpher.py:43-46 | the text is a hundred times the number in fixed point with the pattern's places (percent signs not counted), then a `%` |
| ValueMorpher.FieldValue | morphify/value_morpher.py:55-57 | a directive reads only a run of digits, and reads its decimal value |
| ValueMorpher.ParseLayout | morphify/value_morpher.py:55-57 | whatever a layout reads is a valid calendar date at midnight |
| ValueMorpher.FirstLayout | morphify/value_morpher.py:55-59 | the date read is the one of the first layout that accepts the text, all earlier ones reject it, and no date means every layout rejects it |
| ValueMorpher.ToMoment | morphify/value_morpher.py:48-61 | a date/time passes through unchanged; an integer, a boolean and a float are read as a Unix timestamp in the local zone; a string is read by the first layout that accepts it or is the error naming it; null, plain dates, lists, dicts and objects are the error naming the value |
| ValueMorpher.CivilFromDays | morphify/value_morpher.py:53 | a day count gives a month from 1 to 12 and a day that month has, with 29 February only in leap years; `CivilRoundTrip` and `CivilFromDaysOf` show it is the calendar date that many days after 1970-01-01, and every date comes back from its day count |
| ValueMorpher.YearOfEraBounds | morphify/value_morpher.py:53 | a day of a 400-year era, counted from 1 March, falls in the year of the era that the closed-form division gives, on a day that year has (366 days only when its February is a leap month) |
| ValueMorpher.FromTimestamp | morphify/value_morpher.py:52-53 | a timestamp rounds half-to-even to the microsecond; a timestamp that converts gives a valid date from year 1 to 9999 and a time of day within 24 hours; `TimestampMeaning` says which instant it is |
| ValueMorpher.MomentAt | morphify/value_morpher.py:53 | a second count on the local clock that converts gives a valid date and a time of day; a year outside 1 to 9999 is an error |
| ValueMorpher.DateConvert | morphify/value_morpher.py:48-61 | the loop over the five layouts returns exactly what the conversion function gives |
| ValueMorpher.TranslateWith | morphify/value_morpher.py:65-68 | a pattern holding the first character of no token is not changed by the replacements; `TranslateChain` unrolls them in table order and `TranslateWithSplits` shows that a character outside every token splits them |
| ValueMorpher.Strftime | morphify/value_morpher.py:69 | a pattern without `%` is copied; `StrftimeSplits` shows that a character that is not a directive splits the output, and the token lemmas give each directive's field |
| ValueMorpher.DateText | morphify/value_morpher.py:63-69 | a pattern with neither a token letter `D M Y H m s` nor `%` formats as itself |
| ValueMorpher.DateFormat | morphify/value_morpher.py:63-69 | the pattern rewritten once per token in table order and then handed to `strftime` gives exactly the date text of the pattern |
| ValueMorpher.Morph | morphify/value_morpher.py:22-29 | a decimal pattern converts then prints in fixed point with the pattern's places, a date pattern converts then formats the date, and any other pattern gives the value's plain text; a conversion error is passed on |
| ValueMorpher.Render | morphify/value_morpher.py:22-29 | the walk over the format table returns exactly what the formatter function gives |
| ValueProperties.FixedPointReadsBack | morphify/value_morpher.py:41 | the fixed-point text, read back as a decimal numeral, is the rounded number with its sign |
| ValueProperties.FixedValueClose | morphify/value_morpher.py:41 | the number the text shows is within half a unit of the last place of the number printed |
| ValueProperties.DecimalPlacesFirstSegment | morphify/value_morpher.py:40 | the places of a pattern are the length of the text between its first and second point |
| ValueProperties.DecimalPlacesNone | morphify/value_morpher.py:40 | a pattern without a point has no places |
| ValueProperties.DecimalFormatMeaning | morphify/value_morpher.py:38-41 | the decimal text reads back as the number rounded to the pattern's places and has exactly that many digits after its point |
| ValueProperties.FixedPointOfInteger | morphify/value_morpher.py:41 | an integer with no places prints as its own decimal numeral |
| ValueProperties.PercentagePlacesCount | morphify/value_morpher.py:45 | in a percentage pattern `a.b%` the places are the length of `b` |
| ValueProperties.IsoDateReadsBack | morphify/value_morpher.py:54-57 | a date written `YYYY-MM-DD` converts back to that date at midnight |
| ValueProperties.DottedFailsIso | morphify/value_morpher.py:55 | the first layout does not read a date written `DD.MM.YYYY` |
| ValueProperties.DottedDateReadsBack | morphify/value_morpher.py:54-59 | a date written `DD.MM.YYYY` falls through to the second layout and converts back to that date at midnight |
| ValueProperties.SeparatorFreeRejected | morphify/value_morpher.py:54-60 | a string with none of the separators `-`, `.` and `/` is the date conversion error naming it |
| ValueProperties.TwoDigitYearRejected | morphify/value_morpher.py:55-60 | digits separated by points whose last run has two digits is a date conversion error |
| ValueProperties.CivilRoundTrip | morphify/value_morpher.py:53 | for every day count, the date `CivilFromDays` gives lies exactly that many days after 1970-01-01, counted in whole years, then whole months, then days |
| ValueProperties.CivilFromDaysOf | morphify/value_morpher.py:53 | every date of the proleptic Gregorian calendar comes back from its day count |
| ValueProperties.DaysFromCivilInjective | morphify/value_morpher.py:53 | two different valid dates never share a day count |
| ValueProperties.MomentAtMeaning | morphify/value_morpher.py:53 | a moment converted from a second count lies that many seconds after 1970-01-01 00:00 |
| ValueProperties.MomentAtOf | morphify/value_morpher.py:53 | every moment `datetime` can hold comes back from its second count |
| ValueProperties.TimestampMeaning | morphify/value_morpher.py:52-53 | the converted moment is the instant rounded to the microsecond, then to the second below, shifted by the zone's offset |
| ValueProperties.TimestampReadsBack | tests/test_value_morpher.py:20-22 | for every moment `datetime` can hold and every fixed zone, the timestamp of that moment converts back to it, as the test does for 5 October 2025, 02:40 |
| ValueProperties.WholeSecondRounds | morphify/value_morpher.py:53 | rounding an instant half-to-even to the microsecond and then dropping the microseconds lands on the same second as taking the second at or below the instant plus half a microsecond, for every instant, negative ones included |
| ValueProperties.DateTextSplits | morphify/value_morpher.py:64-69 | a character that is neither a token letter nor `%` is copied, and the parts of the pattern on either side of it format independently |
| ValueProperties.TranslateChain | morphify/value_morpher.py:65-68 | the translation is the seven replacements in table order |
| ValueProperties.DayToken | morphify/value_morpher.py:65-69 | `DD` renders the day in two digits |
| ValueProperties.MonthToken | morphify/value_morpher.py:65-69 | `MM` renders the month in two digits |
| ValueProperties.YearToken | morphify/value_morpher.py:65-69 | `YYYY` renders the year in four digits |
| ValueProperties.ShortYearToken | morphify/value_morpher.py:65-69 | `YY` renders the year modulo 100 in two digits |
| ValueProperties.HourToken | morphify/value_morpher.py:65-69 | `HH` renders the hour in two digits |
| ValueProperties.MinuteToken | morphify/value_morpher.py:65-69 | `mm` renders the minute in two digits |
| ValueProperties.SecondToken | morphify/value_morpher.py:65-69 | `ss` renders the second in two digits |
| ValueProperties.QuirkTranslation | morphify/value_morpher.py:65-68 | the sequential replacements turn `MMmm` into `%%Mm` |
| ValueProperties.MonthThenMinuteQuirk | morphify/value_morpher.py:65-69 | the pattern `MMmm` renders the fixed text `%Mm`, whatever the date |
| ValueProperties.DottedPattern | morphify/value_morpher.py:63-69 | `DD.MM.YYYY` renders the day, month and year joined by points |
| ValueProperties.IsoPattern | morphify/value_morpher.py:63-69 | `YYYY-MM-DD` renders the ISO date |
| ValueProperties.PatternRoundTrip | morphify/value_morpher.py:48-69 | the texts that `DD.MM.YYYY` and `YYYY-MM-DD` render convert back to the same date at midnight |
| ValueProperties.ClockPattern | morphify/value_morpher.py:63-69 | `HH:mm` renders the hour and minute joined by a colon |
| ValueProperties.YearClockPattern | morphify/value_morpher.py:63-69 | `YY HH:mm` renders the short year, then a space, then the hour and minute |
| ValueProperties.SlashedPattern | morphify/value_morpher.py:63-69 | `DD/MM/YY HH:mm` renders day, month and short year joined by slashes, then a space, then the hour and minute |
| ValueProperties.IsoTextToDotted | morphify/value_morpher.py:22-28 | an ISO date string formatted with `DD.MM.YYYY` gives the same date written with points |
| ValueProperties.UnsupportedDateValue | morphify/value_morpher.py:48-61 | an arbitrary object under a date pattern is a conversion error |
| ValueProperties.DateLetterPattern | morphify/value_morpher.py:16 | a pattern with a date letter and no `0` is a date pattern |
| ValueProperties.PlainPatternFallback | morphify/value_morpher.py:24-29 | a pattern with neither a point nor a date letter renders any value as its plain text |
| ValueProperties.ParseUnsignedRejects | morphify/value_morpher.py:34 | a text with a character that is neither a digit nor a point is not an unsigned numeral |
| ValueProperties.DecimalConvertRejects | morphify/value_morpher.py:31-36 | a string whose stripped text holds an ASCII character that Python's `float()` never accepts (not a digit, sign, point, underscore, exponent letter or letter of `inf`, `nan` or `infinity`) is the number conversion error naming it |
| ValueProperties.DecimalRejectsText | morphify/value_morpher.py:22-36 | such a string under a decimal pattern makes the formatter fail with that error |
| TemplateMorpher.Split | morphify/template_morpher.py:107-143 | every part is stripped, and empty text has no parts |
| TemplateMorpher.SplitTopLevel | morphify/template_morpher.py:107-143 | the character loop that tracks depth and quotes returns exactly the parts of the splitting function |
| TemplateMorpher.SplitArgs | morphify/template_morpher.py:107-124 | `_split_args` is the splitter at commas |
| TemplateMorpher.SplitConcat | morphify/template_morpher.py:126-143 | `_split_concat` is the splitter at plus signs |
| TemplateMorpher.SingleUnlessSplit | morphify/template_morpher.py:122-123 | text with no top-level delimiter is one part, its stripped self, or no part when empty |
| TemplateMorpher.PartsNoLonger | morphify/template_morpher.py:107-143 | each part, plus the number of delimiters taken out, is no longer than the text |
| TemplateMorpher.ConcatPartsShorter | morphify/template_morpher.py:54-56 | when a concatenation splits at all, every term is shorter than the whole |
| TemplateMorpher.Lookup | morphify/template_morpher.py:153-157 | a key found is stored under that key in the dict, and a key missed is the key of no entry |
| TemplateMorpher.Attribute | morphify/template_morpher.py:167-172 | in the model, strings, numbers, booleans, null, lists and dicts have no attribute; an object has exactly the attributes of its map; the attributes of dates are integer fields (the attributes of built-in types that `getattr` finds are listed under "## Left out") |
| TemplateMorpher.Step | morphify/template_morpher.py:153-172 | a dict step succeeds exactly when some entry has the key and gives a stored value; a list step gives an item of the list and misses on a segment that is not all digits |
| TemplateMorpher.Walk | morphify/template_morpher.py:151-173 | a walk of one segment is that step, and an empty walk never misses; `WalkAppend` splits a walk in two |
| TemplateMorpher.Resolve | morphify/template_morpher.py:145-173 | any result other than the empty string is the value the walk of the dotted segments reaches; `ResolveFirstSegment`, `ResolveLastSegment` and `MissingKey` state the rest |
| TemplateMorpher.ResolveVariablePath | morphify/template_morpher.py:145-173 | the loop that reassigns the current value segment by segment and returns the empty string on the first miss gives exactly the path walk's result |
| TemplateMorpher.Dispatch | morphify/template_morpher.py:49-51 | an expression is an `if` call exactly when it starts with `if(` and ends with `)`; it is a `format` call exactly when it is not an `if` call and starts with `format(` and ends with `)` |
| TemplateMorpher.Morpher.EvalExpr | morphify/template_morpher.py:45-69 | an expression raises only the recursion error of a concatenation that does not split and the arity errors of `if` and `format`; the lemmas `EvalStrip`, `IfCall`, `FormatQuoted`, `FormatUnquoted`, `ConcatEval`, `LiteralEval`, `VariableEval` and `DigitsEval` state what each kind of expression evaluates to |
| TemplateMorpher.Morpher.EvalSum | morphify/template_morpher.py:54-56 | a concatenation raises only those errors; `ConcatEval`, `ConcatError` and `QuotedPlusFails` state its value and its error |
| TemplateMorpher.Morpher.EvalConcat | morphify/template_morpher.py:56 | the terms raise only those errors; `EvalConcatOk` and `EvalConcatErr` state the joined text and the first error |
| TemplateMorpher.Morpher.HandleIf | morphify/template_morpher.py:74-81 | an `if` call raises only those errors; `IfCall`, `IfArity` and `MissingConditionTakesElse` state its branches and its arity error |
| TemplateMorpher.Morpher.HandleFormat | morphify/template_morpher.py:83-102 | a `format` call raises only those errors; `FormatQuoted`, `FormatUnquoted` and `FormatArity` state its text and its arity error |
| TemplateMorpher.Morpher.ApplyPattern | morphify/template_morpher.py:90-102 | an unquoted pattern gives the quoting diagnostic as text; `StripQuotes` and `FormatQuoted` state that a quoted pattern hands the literal's body to the formatter |
| TemplateMorpher.Morpher.Replacement | morphify/template_morpher.py:32-38 | a failing expression is shown as `{{ERROR: message}}` with one of the raised messages; `RenderPlaceholder` states the whole replacement |
| TemplateMorpher.Morpher.RenderText | morphify/template_morpher.py:40 | text without `{` is returned unchanged; `RenderCopies`, `RenderPlaceholder` and `NoPlaceholderUnchanged` state the scan |
| TemplateMorpher.Morpher.Render | morphify/template_morpher.py:29-40 | a template without `{` renders as itself; `RenderDottedVariable` renders a placeholder end to end |
| TemplateMorpher.Morpher.MaybeAutoFormat | morphify/template_morpher.py:178-185 | values other than dates and date/times, and every value when no non-empty default pattern is set, are left unchanged; a date with a default pattern becomes text |
| TemplateMorpher.Create | morphify/template_morpher.py:15-18 | the template is kept; a truthy context is kept and a falsy one becomes an empty dict; a configuration given is kept and a missing one is the default one; the zone offset is kept |
| TemplateMorpher.CloseFrom | morphify/template_morpher.py:40 | a close found is the first `}}` at or after the start, and no line break comes before it; when none is found, a line break comes before every later `}}` |
| TemplateMorpher.OpenAt | morphify/template_morpher.py:40 | a placeholder opens only at `{{`, and closes at a `}}` inside the text after it |
| TemplateProperties.SplitOfJoin | morphify/template_morpher.py:107-143 | splitting pieces joined by the delimiter, when no piece holds it at top level, gives back the stripped pieces, and drops a last piece that is empty |
| TemplateProperties.RawPartsOfJoin | morphify/template_morpher.py:109-123 | before stripping, splitting the joined pieces gives exactly the pieces |
| TemplateProperties.QuotedWhole | morphify/template_morpher.py:111-112 | a quoted text whose body has no quote hides its delimiters from the splitter |
| TemplateProperties.MixedQuotesSplit | morphify/template_morpher.py:109-121 | one flag serves both quote characters, so a `"` inside `'…'` ends the quote and a delimiter after it separates |
| TemplateProperties.CallWhole | morphify/template_morpher.py:113-116 | a call with a balanced, quote-free argument text hides its delimiters from the splitter |
| TemplateProperties.WalkAppend | morphify/template_morpher.py:151-173 | walking a path in two halves is walking the first half and then, if it did not miss, the second |
| TemplateProperties.ResolveFirstSegment | morphify/template_morpher.py:151-173 | a dotted path resolves its first segment, then the rest from there, and is the empty string when the first segment misses |
| TemplateProperties.ResolveLastSegment | morphify/template_morpher.py:151-173 | a path of one segment is that step, and the empty string when it misses |
| TemplateProperties.MissingKey | morphify/template_morpher.py:153-157 | a key a dict lacks resolves to the empty string, alone or followed by further segments |
| TemplateProperties.ListIndex | morphify/template_morpher.py:158-164 | a decimal index into a list is that item when it is in range and otherwise the empty string |
| TemplateProperties.NonDigitIndex | morphify/template_morpher.py:158-166 | a list segment that is not all digits resolves to the empty string |
| TemplateProperties.NoAttribute | morphify/template_morpher.py:167-172 | in the model, strings, numbers, booleans and null have no attribute, so any path into them resolves to the empty string (the source's `getattr` finds more; see "## Left out") |
| TemplateProperties.ObjectAttribute | morphify/template_morpher.py:169-170 | an attribute an object has resolves to its value |
| TemplateProperties.CloseFromNone | morphify/template_morpher.py:40 | text without `}` closes no placeholder |
| TemplateProperties.CloseFromFinds | morphify/template_morpher.py:40 | the first `}}`, with no line break before it, is where the placeholder closes |
| TemplateProperties.CloseFromStops | morphify/template_morpher.py:40 | a line break before any `}` means the placeholder does not close |
| TemplateProperties.RenderCopies | morphify/template_morpher.py:40 | where no placeholder starts, the character is copied and rendering goes on after it |
| TemplateProperties.RenderPassesPlain | morphify/template_morpher.py:40 | text without `{` in front of the rest is copied unchanged |
| TemplateProperties.RenderWithoutClose | morphify/template_morpher.py:40 | a template without `}` renders as itself |
| TemplateProperties.RenderUnchanged | morphify/template_morpher.py:40 | in particular, a template without `{` or without `}` renders as itself |
| TemplateProperties.NoPlaceholderUnchanged | morphify/template_morpher.py:40 | a template in which no position opens a placeholder renders as itself |
| TemplateProperties.RenderPlaceholder | morphify/template_morpher.py:32-40 | a placeholder on one line, whose inner text holds no `}}` and does not end in `}`, is replaced by the text of its stripped expression's value, or by `{{ERROR: message}}`, and rendering goes on after its `}}` |
| TemplateProperties.LineBreakNotPlaceholder | morphify/template_morpher.py:40 | `{{` whose expression runs over a line break is no placeholder: its first `{` is copied |
| TemplateProperties.EvalStrip | morphify/template_morpher.py:46 | surrounding whitespace does not change what an expression evaluates to |
| TemplateProperties.NotCall | morphify/template_morpher.py:49-51 | an expression that starts with neither `i` nor `f` calls no function |
| TemplateProperties.LiteralEval | morphify/template_morpher.py:59-60 | a quoted literal without `+` evaluates to its body |
| TemplateProperties.VariableEval | morphify/template_morpher.py:63-66 | `$path` without `+` evaluates to the path's value, auto-formatted |
| TemplateProperties.DigitsEval | morphify/template_morpher.py:68-69 | a run of digits evaluates to itself as text |
| TemplateProperties.IfCall | morphify/template_morpher.py:74-81 | `if(c,a,b)` fails with the condition's error, or evaluates only `a` when the condition is truthy and only `b` when it is not |
| TemplateProperties.MissingConditionTakesElse | morphify/template_morpher.py:74-81 | an `if` whose condition is a variable missing from the context evaluates its else-branch |
| TemplateProperties.IfArity | morphify/template_morpher.py:76-79 | an `if` call with other than three arguments is the arity error |
| TemplateProperties.FormatArity | morphify/template_morpher.py:86-88 | a `format` call with other than two arguments is the arity error |
| TemplateProperties.FormatUnquoted | morphify/template_morpher.py:89-97 | `format(v,p)` with an unquoted pattern fails with the value's error, or else gives the unquoted-pattern message as text |
| TemplateProperties.StripQuotes | morphify/template_morpher.py:98 | stripping quote characters from a quoted pattern whose body has no quote gives the body |
| TemplateProperties.FormatQuoted | morphify/template_morpher.py:83-102 | `format(v,'fmt')` fails with the value's error, or else gives the formatter's text for `fmt` and the value, with a conversion error shown inline after `value|` |
| TemplateProperties.EvalConcatOk | morphify/template_morpher.py:56 | when every term evaluates, the concatenation is their texts joined in order |
| TemplateProperties.EvalConcatErr | morphify/template_morpher.py:56 | the first term that fails decides the concatenation's error |
| TemplateProperties.ConcatEval | morphify/template_morpher.py:54-56 | terms joined by top-level `+` evaluate to the concatenation of the terms' texts |
| TemplateProperties.ConcatError | morphify/template_morpher.py:54-56 | a concatenation fails with the error of its first failing term |
| TemplateProperties.QuotedPlusFails | morphify/template_morpher.py:54-57 | a quoted literal holding `+` does not split, so its evaluation is the recursion error |
| TemplateProperties.IfPlusIf | morphify/template_morpher.py:49-79 | `if(…)+if(…)` starts with `if(` and ends with `)`, so it is one call with five arguments and the arity error |
| TemplateProperties.AutoFormatDotted | morphify/template_morpher.py:178-185 | with the default pattern `DD.MM.YYYY`, a date or date/time auto-formats to its date written with points |
| TemplateProperties.RenderDottedVariable | morphify/template_morpher.py:29-40 | with that default pattern, a placeholder naming a date variable renders as the date written with points |
| TemplateProperties.FalsyContext | morphify/template_morpher.py:17 | with a falsy context, every key resolves to the empty string |

## Left out

- The placeholder regular expression `{{(.*?)}}` is not modelled as a regular expression. It is a scanner with the same effect: the shortest match, no line break inside, and the search going on after each match.
- Python's binary floating point is not modelled. Numbers are exact reals. Rounding to the pattern's places is half-to-even on the exact value, so a float whose binary value lies just off a tie may round the other way in the source.
- Float values in the context carry their own `repr` text, because float `repr` is not modelled.
- `float()` on strings is modelled for signed decimal numerals only. Exponents, `inf`, `nan`, underscores and Unicode digits are not modelled.
- `strptime` is modelled for the three directives the layouts use, on ASCII digits. Leading spaces inside a field are not accepted.
- `strftime` is modelled for the seven directives the translated patterns produce, and `%%`. It copies every other character. Other directives and the platform's handling of a trailing `%` are not modelled.
- ValueMorpher.FromTimestamp, Values.Moment: a `Moment` has no microseconds. `fromtimestamp` rounds the instant half-to-even to the microsecond, and the model does the same before it drops the microseconds. So a `datetime` with microseconds in the context, whose `str()` ends in `.500000`, cannot be represented, and neither its text nor a pattern's view of it is modelled.
- Years before 1000: the model prints `%Y` padded to four digits. What the source prints depends on the platform's C library. glibc does not pad, so year 999 prints as `999` there.
- `datetime.fromtimestamp` reads the host's time zone. The model takes a fixed offset (`localOffset`), so daylight-saving changes and platform limits on timestamps are not modelled.
- A concatenation that cannot be split recurses without end in the source until Python raises `RecursionError`. The model returns that error directly with a fixed message. The interpreter's exact wording and its stack limit are not modelled.
- TemplateMorpher.Attribute, TemplateProperties.NoAttribute: in the model an object has exactly the attributes of its map, a date has `year`, `month` and `day`, and a date/time has those and `hour`, `minute` and `second`. Every other attribute is a miss, which renders as the empty string. The source falls back to `getattr`, which also finds the attributes of built-in types: `real` and `imag` on numbers and booleans, methods such as `upper` on strings, and `microsecond`, `tzinfo` and `fold` on date/times. So with `n = 5`, `{{ $n.real }}` renders `5` in the source and the empty string in the model.
- The `str()` of dates, lists, dicts and objects is modelled with a simplified `repr`. String escaping and float formatting inside containers are not modelled. A `tuple` is modelled as a `List`, so it prints with brackets. Python prints `(1, 2)`, and `(1,)` for a one-element tuple.
- `_percentage_format` is modelled as `ValueMorpher.PercentageFormat`, but as in the source it is not reachable from `render`.
- The re-export package `morphium` is not part of this model.
- The library's tests and README examples are stated over every input they leave free. For example, `TimestampReadsBack` covers every moment and zone, and `SlashedPattern` and `IsoTextToDotted` cover every date. Patterns and template texts that the tests fix stay fixed, for example `MMmm` in `QuirkTranslation`.
- TemplateMorpher.Step, TemplateProperties.NonDigitIndex: a list index is read as ASCII digits only. Python's `isdigit()` also accepts other Unicode digits (`$xs.٣` gives item 3) and characters such as `²` that `int()` then rejects with an error shown inline. The model gives the empty string for both.
- TemplateMorpher.Morpher.MaybeAutoFormat: its contract says only that an auto-formatted date becomes text. The exact text is stated, for the pattern `DD.MM.YYYY`, by `TemplateProperties.AutoFormatDotted`.
