# putil-varhelpers in Dafny

A model of `lib/index.js` of putil-varhelpers, a small JavaScript library of
variable helpers, with proofs about it. The helpers are:

- `coalesce`: the first argument that is neither null nor undefined.
- `coerceToArray`, `coerceToBoolean`, `coerceToString`, `coerceToNumber`,
  `coerceToInt` and `coerceToDate`: convert a value, falling back to a default
  when the value is absent or cannot be converted.
- `parseDate`: matches a text against `DATE_FORMAT_PATTERN`, fills in the parts
  it leaves out and builds the ISO-like text handed to `new Date`.
- `camelCase`, `pascalCase` and `upperFirst`: change the case of identifiers.
- `mapDistinct`: maps an array and keeps each present result once.

## Layout

- `wrappers.dfy`: `Option`.
- `numbers.dfy`: JavaScript numbers as exact decimals, `Number::toString`,
  `parseFloat` and `parseInt(·, 10)` (`JsNumbers`). Also the round trips between
  the text of a number and its parse (`JsNumberLemmas`).
- `values.dfy`: the JavaScript values the helpers see, `v != null`, `!!v`,
  `'' + v`, and the TypeError they throw (`JsValues`).
- `date_pattern.dfy`: `DATE_FORMAT_PATTERN` as a backtracking matcher over
  eleven capture groups, and the text that a set of captures is written as
  (`DatePattern`). Also the proof that writing captures out and matching the
  text gives them back (`DatePatternLemmas`).
- `date_parsing.dfy`: `parseDate` (`DateParsing`).
- `coercion.dfy`: `coalesce` and the `coerceTo…` helpers (`Coercion`).
- `case_conversion.dfy`: `camelCase`, `pascalCase`, `upperFirst` (`CaseConversion`).
- `date_spelling.dfy`: every way of spelling a set of captures that the
  pattern accepts, and the proof that the pattern matches exactly those
  spellings (`DateSpelling`).
- `distinct.dfy`: `mapDistinct` (`Distinct`).

### Modelling decisions

- A thrown TypeError is the `Failure` case of `Result`. Its message is modelled
  exactly.
- `coalesce`'s loop and `mapDistinct`'s push onto its accumulator are methods
  with loops. The loop of `mapDistinct` is proved against the reference
  function `DistinctPresent`.
- `parseDate`'s `s += …` construction is the method `BuildDateText`. It is
  proved equal to `Render(Resolved(c, opts))`: the captures with their
  defaults filled in, written out in the pattern's own layout.
- The `opts` argument is `DateOptions(dateOnly, ignoreTimezone)`. A missing
  object reads as both false.
- `coerceToDate` calls `parseDate(v)` without options, which is `NoOptions`.
- `'' + v` of a Date depends on the host's time zone. It is a parameter
  `dateText` of every member that converts a Date to text.

## Model

| member | source | states |
|---|---|---|
| DatePattern.MatchDate | lib/index.js:5 | a match starts with four year digits and its captures satisfy every group's constraint |
| DatePatternLemmas.MatchRender | lib/index.js:5 | captures that satisfy the group constraints, written out in the pattern's layout, match again with exactly those captures |
| DatePatternLemmas.MatchNormalises | lib/index.js:5 | rewriting a matched text from its captures and matching again gives the same captures |
| DatePatternLemmas.CompactDate | lib/index.js:5 | `20111123` matches as year 2011, month 11, day 23, with no time |
| DatePatternLemmas.ZoneWithoutTime | lib/index.js:5 | a zone without a time (`2011-11-23Z`) does not match |
| DatePatternLemmas.ZoneTextStart | lib/index.js:5 | the written zone is empty or starts with `Z`, `+` or `-` |
| DateSpelling.MatchSpelled | lib/index.js:5 | a text the pattern matches is its captures spelled out, with some choice of the optional `-`, `T` or space, `:` separators |
| DateSpelling.SpellMatches | lib/index.js:5 | captures within every group's constraint, spelled with any choice of the optional separators, match |
| DateSpelling.MatchDateIff | lib/index.js:5 | the pattern matches exactly the spellings of valid captures, and the captures of a match spell the text |
| Coercion.Coalesce | lib/index.js:7-15 | returns the first present argument, every argument before it being null or undefined; undefined when all are absent |
| Coercion.CoerceToArray | lib/index.js:17-20 | an array is returned as it is, a truthy value is wrapped, otherwise the default is treated the same way; undefined when neither is truthy |
| Coercion.CoerceToBoolean | lib/index.js:22-25 | a boolean exactly when the value or the default is present: the truthiness of the first present one |
| Coercion.CoerceToString | lib/index.js:55-58 | a string exactly when the value or the default is present: the text of the first present one |
| Coercion.CoerceToStringIdempotent | lib/index.js:55-58 | coercing a string result again, with any default, gives it back |
| JsValues.IsAbsent | lib/index.js:12 | `v != null` fails exactly for the values that are falsy and neither a boolean, a number nor a string |
| JsValues.Truthy | lib/index.js:23 | null and undefined are falsy, arrays and Dates truthy, a boolean is itself, a string is truthy exactly when non-empty, a finite number exactly when non-zero, an infinity always |
| JsNumbers.NumberToString | lib/index.js:56 | never empty; a positive number's text starts with a digit, a negative one's with `-` and a digit, and only a finite number at least zero is written starting with a digit |
| Coercion.CoerceParsed | lib/index.js:27-53 | undefined exactly when both are absent; throws exactly when each present one parses to NaN, naming the default if present, else the value; otherwise the parse of the first present value that parses |
| Coercion.ParsedWins | lib/index.js:28-33 | a present value that parses to something other than NaN is returned parsed, whatever the default |
| Coercion.UnparsedDefers | lib/index.js:34-35 | an absent or unparseable value with a present default gives the default's coercion |
| Coercion.CoerceToNumber | lib/index.js:27-39 | a number other than NaN comes back unchanged |
| JsNumbers.ParseFloat | lib/index.js:30 | blank text parses to NaN |
| JsNumbers.ParseInt | lib/index.js:44 | blank text parses to NaN; the result is never infinite, and a finite result is an integer |
| JsNumberLemmas.ParseDigits | lib/index.js:27-53 | a string of decimal digits is read by `parseFloat` and by `parseInt` as the integer it spells |
| JsNumberLemmas.ParseFloatOfText | lib/index.js:30 | `parseFloat` of a number's text is that number, NaN and the infinities included |
| Coercion.CoerceToInt | lib/index.js:41-53 | a finite number written without an exponent comes back truncated toward zero |
| JsNumberLemmas.ParseIntOfText | lib/index.js:44 | `parseInt` of the text of a finite number written without an exponent is that number truncated toward zero |
| JsNumberLemmas.ParseIntOfExponentForm | lib/index.js:44 | `parseInt` of a number written in exponent form is its first digit with its sign |
| Coercion.IntOfExponentForm | lib/index.js:41-46 | `coerceToInt` of a number written in exponent form (such as 1e21) is its first digit with its sign |
| Coercion.LetterTextIsNaN | lib/index.js:30 | text starting with an ASCII letter other than the `I` of `Infinity` parses to NaN with both parsers |
| Coercion.LettersThrow | lib/index.js:38 | `coerceToNumber('abc')` throws `"abc" is not a valid number value.` and `coerceToInt('abc')` the integer message |
| JsValues.InvalidValue | lib/index.js:38 | the message is a double quote, the text, then `" is not a valid <kind> value.` |
| JsValues.InvalidValueInjective | lib/index.js:73 | for one kind of value, two texts with the same message are the same text |
| Coercion.IntOfDecimalText | lib/index.js:44-46 | `coerceToInt('1.1')` is 1 |
| Coercion.IntOfDecimalNumber | lib/index.js:44-46 | `coerceToInt(1.1)` is 1 |
| Coercion.CoerceToDate | lib/index.js:60-74 | a Date comes back as it is, a number becomes a Date on that time, a string goes through `parseDate`; any other value gives way to the default, which is converted the same way; undefined exactly when both are absent; throws exactly for a non-matching string or an unconvertible value without a usable default, naming the right one |
| DateParsing.BuildDateText | lib/index.js:80-91 | the text built piece by piece is the resolved captures written out |
| DateParsing.ParseDateText | lib/index.js:76-93 | throws exactly when the pattern does not match, with the message naming the text |
| DateParsing.ParseDateValue | lib/index.js:76-93 | a Date made from the built text, or the TypeError naming the text |
| DateParsing.ParseDate | lib/index.js:76-93 | the method matches and builds exactly as the specification function says |
| DateParsing.ParseDateThrows | lib/index.js:77-79 | `parseDate` throws exactly when the pattern does not match, with message `"<v>" is not a valid date value.` |
| DateParsing.Resolved | lib/index.js:80-90 | the year is kept; month and day are the captured ones or `01`; hour, minute and second the captured ones or `00` (all `00` with `dateOnly`); an offset's hour and minutes default to `00`; `dateOnly` gives midnight with no fraction; `dateOnly` or `ignoreTimezone` drop the zone, otherwise `Z` and the sign are kept |
| DateParsing.ResolvedValid | lib/index.js:80-91 | filling in the defaults keeps the captures within what the pattern accepts |
| DateParsing.ResolvedIdempotent | lib/index.js:80-91 | filling in the defaults twice changes nothing more |
| DateParsing.CanonicalReparses | lib/index.js:76-93 | the built text matches the pattern again, with the resolved captures |
| DateParsing.CanonicalIsFixedPoint | lib/index.js:76-93 | parsing the built text again with the same options builds the same text |
| DateParsing.CanonicalDatePart | lib/index.js:80 | the first eleven characters are the year, the month or `01`, the day or `01`, then `T` |
| DateParsing.DateOnlyIsMidnight | lib/index.js:82-83 | with `dateOnly` the text is 19 characters long and ends in `00:00:00` |
| DateParsing.CanonicalTimePart | lib/index.js:85 | without `dateOnly`, characters 11 to 19 are hour, minute and second, each defaulting to `00` |
| DateParsing.FractionWritten | lib/index.js:86 | a matched fraction follows the seconds after a dot |
| DateParsing.NoFractionNoDot | lib/index.js:86-90 | without a fraction the text ends after the seconds or a zone designator follows |
| DateParsing.NoZoneWritten | lib/index.js:82-90 | with `dateOnly`, `ignoreTimezone` or no zone in the text, only digits, colons and a dot follow the `T` |
| DateParsing.UtcWrittenLast | lib/index.js:87-89 | a matched `Z` ends the text unless the options drop the zone |
| DateParsing.OffsetWrittenLast | lib/index.js:87-90 | a matched offset ends the text as sign, hour or `00`, colon, minutes or `00` |
| DateParsing.BareYear | lib/index.js:77-91 | a bare four-digit year matches with only the year, and resolves to January 1st at midnight with no zone, whatever the options |
| CaseConversion.Upper | lib/index.js:97 | a lowercase ASCII letter becomes its capital, every other character is kept |
| CaseConversion.SeparatorRun | lib/index.js:96 | the greedy run of separators at the start of the text, stopping before a letter or digit |
| CaseConversion.CamelCase | lib/index.js:95-100 | never longer than its input, and empty only for empty input |
| CaseConversion.CamelCaseKeepsFolded | lib/index.js:95-100 | keeps the letters and digits, in order, up to their case |
| CaseConversion.CamelCaseIsCamel | lib/index.js:95-100 | the result has separators only in a run at its end |
| CaseConversion.CamelFixedPointIff | lib/index.js:95-100 | the text is unchanged exactly when no separator precedes a letter or digit |
| CaseConversion.CamelCaseShortens | lib/index.js:95-100 | text with a separator before a letter or digit gets strictly shorter |
| CaseConversion.CamelCaseIdempotent | lib/index.js:95-100 | applying `camelCase` twice is applying it once |
| CaseConversion.CamelCaseByPosition | lib/index.js:95-100 | character by character: a letter or digit at the start or after another one is kept, one after a separator is upper-cased, a separator is dropped when a letter or digit follows it somewhere and kept otherwise |
| CaseConversion.CamelCaseDash | lib/index.js:95-100 | `camelCase('any-word')` is `anyWord` |
| CaseConversion.CamelCaseUpperSpace | lib/index.js:95-100 | `camelCase('ANY WORD')` is `ANYWORD` |
| CaseConversion.CapitalizeFirstIdempotent | lib/index.js:104 | upper-casing the first character twice is doing it once |
| CaseConversion.PascalCase | lib/index.js:102-105 | throws exactly for the empty text; otherwise `camelCase` with its first character upper-cased |
| CaseConversion.PascalCaseDash | lib/index.js:102-105 | `pascalCase('any-word')` is `AnyWord` |
| CaseConversion.PascalCaseIdempotent | lib/index.js:102-105 | applying `pascalCase` to its own result gives it back |
| CaseConversion.PascalCaseKeepsFolded | lib/index.js:102-105 | keeps the letters and digits of the input, in order, up to their case |
| CaseConversion.UpperFirst | lib/index.js:107-110 | undefined exactly for an absent value; otherwise the value's text with its first character upper-cased and the rest unchanged |
| CaseConversion.UpperFirstIdempotent | lib/index.js:107-110 | applying `upperFirst` to its own result gives it back |
| CaseConversion.UpperFirstWord | lib/index.js:107-110 | `upperFirst('any word')` is `Any word`, and the empty text comes back empty |
| Distinct.MapDistinct | lib/index.js:112-120 | the loop's accumulator is the reference result: the present mapped elements, each at its first occurrence |
| Distinct.DistinctPresentClean | lib/index.js:116-117 | the result holds no null or undefined and no element twice |
| Distinct.DistinctPresentMembers | lib/index.js:116-117 | an element is in the result exactly when it is a present element of the input |
| Distinct.DistinctPresentOrder | lib/index.js:113-119 | the result lists its elements in the order of their first occurrence in the input |
| Distinct.DistinctPresentIdempotent | lib/index.js:112-120 | an input already distinct and free of absent elements comes back unchanged |
| Distinct.MapDistinctExample | lib/index.js:112-120 | `mapDistinct([1, null, 1, 2])` is `[1, 2]` |

## Left out

- `new Date(...)` is not modelled. A Date holds the number or the text it was
  made from (`DateStamp`). The host's ISO parser and time zone are out of
  scope, and so is whatever Date the host makes of a text the pattern accepts
  but the calendar does not, such as `2011-02-31`.
- `parseDate`, `camelCase` and `pascalCase` take a string here. In JavaScript
  they read `v.match` or `v.replace`. With null or undefined (such as
  `pascalCase(undefined)`) V8 throws "Cannot read properties of undefined
  (reading 'replace')", or the same for null or for `match`. Another value
  without the method (such as `pascalCase(5)` or `parseDate(5)`) throws
  "v.replace is not a function" or "v.match is not a function". Those
  TypeErrors are not modelled.
- Numbers are exact decimals. Rounding to IEEE-754 binary64 is not modelled,
  and neither is the difference between `0` and `-0`. So a very long integer
  text such as 309 nines parses to that integer here, where JavaScript's
  `parseFloat` and `parseInt` give `Infinity`.
- `toUpperCase` is modelled on ASCII letters only. Full Unicode case mapping,
  including characters that map to several, is not modelled.
- Arrays and Dates are values, so `Array.isArray`, `includes` (SameValueZero)
  and the returned array's identity are modelled by value equality. In
  JavaScript `includes` compares arrays and Dates by identity, so
  `mapDistinct([new Date(0), new Date(0)])` keeps both, where the model keeps
  one. Aliasing between the argument and the result of `coerceToArray` is not
  modelled.
- Objects other than arrays and Dates, functions, symbols and bigints are not
  values of the model. A symbol would make `'' + v` throw.
- `'' + v` of a Date is the parameter `dateText`, because
  `Date.prototype.toString` depends on the host. Any text is allowed. The
  host's text starts with a weekday name or is `Invalid Date`, so in
  JavaScript `coerceToNumber` and `coerceToInt` of a Date never parse it; the
  model reaches that only for a `dateText` whose texts do not start with a
  digit, sign, dot or `Infinity`.
- A `mapDistinct` callback is a pure function of the element alone, which is
  how the source calls it. Its side effects and exceptions are not modelled.
  Neither are holes in sparse arrays, which `reduce` skips.
- The message of the TypeError `pascalCase('')` throws is the one V8 gives. Other
  engines word it differently.
- The `module.exports` table and the `__esModule` marker are plumbing and not
  modelled.
- Coercion.CoerceToNumber: its own contract only covers the number case. The
  full behaviour is stated by Coercion.CoerceParsed, which it is defined by.
- Coercion.CoerceToInt: its own contract only covers finite numbers written
  without an exponent. The exponent form is stated by Coercion.IntOfExponentForm,
  and all other inputs by Coercion.CoerceParsed.
- DateParsing.BareYear states the resolved captures rather than the literal
  text `YYYY-01-01T00:00:00`. DateParsing.BuildDateText connects the two.
