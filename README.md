# Timebase, timecode and catalogue helpers, in Dafny

This project models four small pieces of sequential logic from a client for the
SyncSketch media-review service, and proves properties of them.

- **Timebase converter** (`SyncSketchPanel/lib/mediatime.js`), module `MediaTime`.
  `toTimebase` and the `Timebase` constructor turn a frame-rate argument into an
  exact fraction `rate/scale`, or into null. The argument is either a
  `{rate, scale}` object or one of eight nominal numbers. Six conversions then
  move between frames, seconds and ticks, at a fixed 254,016,000,000 ticks per
  second. The argument is the datatype `FrameRate = Undefined | Nominal(real) | Object(rate?, scale?)`,
  in place of JavaScript's `typeof` dispatch. Null is `None`. JavaScript numbers
  are exact `real`s, and `Math.round` is `floor(x + 1/2)` (ties go up).
- **Timecode helpers** (`SyncSketchPanel/lib/ss2pp.js`), module `Timecode`. The
  module-level `framerate` variable is the field of class `FramerateSetting`,
  with its setter and getter. The helpers `timecode_to_frames`,
  `frames_to_timecode` and `isValidSMPTETimeCode` are pure functions. The first
  two take the current rate as a parameter. The validator does not use the rate.
- **Catalogue formatter** (`ssdict.py`, `getCatalogue`), module `Catalogue`.
  Class `SsDict` holds `intro` and `collection`. Method `GetCatalogue` builds the
  listing with the source's two nested loops. It is proved equal to the function
  `CatalogueText`, and the lemmas are about that function.
- **Keyword lookup** (`ssdump.py`, `findObject`), module `Lookup`. Method
  `FindObject` is the source's loop with its `break`. It is proved equal to the
  function `Find`, and the lemmas are about `Find`.

Some consequences of following the code's formulas and branches literally:

- The code computes `tpf = (TICKS_PER_SECOND*1000/rate)/scale`, which equals
  `TICKS_PER_SECOND*1000/(rate*scale)`, so `framesFromTime(1, 25)` is 25000.
- `timeFromFrames` multiplies by `rate/scale`, so `timeFromFrames(48, 24)` is
  1152. Both values are proved in `MediaTime.LiteralFormulaExamples`.
- Because of these literal formulas, frames→seconds→frames is not a round trip,
  and no such lemma is stated.
- With this `tpf`, the ticks per frame are not whole numbers for the 1001-scale
  rates. 254016000000/(24·1001) is not an integer. Frames→ticks→frames is still
  exact in exact arithmetic (`MediaTime.TicksRoundTrip`).
- The doc comment of the `Timebase` constructor says a Timebase-like object is
  returned as it is. The code's `switch` uses strict equality, so an object
  reaches the `default` case and gets a null `rate`. `MediaTime.NewTimebase`
  models the code. `toTimebase` never passes an object to the constructor.
- `toTimebase`'s test `typeof framerate === undefined` compares a type name with
  the value `undefined`, so it is never true. `undefined` therefore goes through
  the constructor's `default` case and still yields null.

## Model

| member | source | states |
|---|---|---|
| `MediaTime.NewTimebase` | SyncSketchPanel/lib/mediatime.js:121-165 | exactly the eight table numbers set a rate. The rate and scale then equal the table entry. Otherwise `rate` is null and `scale` stays 1001 |
| `MediaTime.ToTimebase` | SyncSketchPanel/lib/mediatime.js:96-108 | an object yields its own rate and scale exactly when it has both. Any other argument yields the table entry exactly when it is one of the eight nominal numbers, and null otherwise. With well-formed input, the result's rate and scale are positive |
| `MediaTime.NominalRateTable` | SyncSketchPanel/lib/mediatime.js:125-157 | 23.976 and 23.98 map to 24000/1001. 24, 25 and 30 map to 24000/1000, 25000/1000 and 30000/1000. 29.97 and 59.94 map to 30000/1001 and 60000/1001. 60 maps to 60000/1000 |
| `MediaTime.UnsupportedRateIsNull` | SyncSketchPanel/lib/mediatime.js:159-162 | every other number, and `undefined`, normalises to null |
| `MediaTime.ObjectPassesThrough` | SyncSketchPanel/lib/mediatime.js:97-100 | an object with both properties is returned with the same rate and scale, and with no validation. An object missing either property gives null |
| `MediaTime.Round` | SyncSketchPanel/lib/mediatime.js:32 | `Math.round`: the result is the nearest integer, with halves rounded up |
| `MediaTime.TicksPerFrame` | SyncSketchPanel/lib/mediatime.js:31 | the source's `tpf` is positive, and `tpf * rate * scale == TICKS_PER_SECOND * 1000` |
| `MediaTime.TimeFromFrames` | SyncSketchPanel/lib/mediatime.js:15-20 | null exactly when `toTimebase` is null. Otherwise `result * scale == frames * rate`, i.e. the result is `frames * rate/scale`, and it is non-negative for non-negative frames |
| `MediaTime.FramesFromTime` | SyncSketchPanel/lib/mediatime.js:28-34 | null exactly when `toTimebase` is null. Otherwise the result is the integer nearest to `time*rate*scale/1000` |
| `MediaTime.TicksFromFrames` | SyncSketchPanel/lib/mediatime.js:42-48 | null exactly when `toTimebase` is null. Otherwise `ticks * rate * scale == frames * TICKS_PER_SECOND * 1000` |
| `MediaTime.FramesFromTicks` | SyncSketchPanel/lib/mediatime.js:56-62 | null exactly when `toTimebase` is null. Otherwise the result is the integer nearest to `ticks*rate*scale/(TICKS_PER_SECOND*1000)` |
| `MediaTime.TimeFromTicks` | SyncSketchPanel/lib/mediatime.js:70-76 | null exactly when `toTimebase` is null. Otherwise the result is the integer nearest to `ticks/TICKS_PER_SECOND` |
| `MediaTime.TicksFromTime` | SyncSketchPanel/lib/mediatime.js:84-89 | null exactly when `toTimebase` is null. Otherwise the result divided by `TICKS_PER_SECOND` is the time |
| `MediaTime.ConversionsNullTogether` | SyncSketchPanel/lib/mediatime.js:15-89 | the six conversions are null for exactly the same rate arguments |
| `MediaTime.TicksRoundTrip` | SyncSketchPanel/lib/mediatime.js:42-62 | for every whole frame count and every valid rate, `framesFromTicks(ticksFromFrames(f))` is `f` |
| `MediaTime.RoundOfInteger` | SyncSketchPanel/lib/mediatime.js:60 | `Math.round` leaves a whole number unchanged |
| `MediaTime.TicksFromTimeIgnoresRate` | SyncSketchPanel/lib/mediatime.js:84-89 | for any valid rate, the result is `time * 254016000000` |
| `MediaTime.TimeFromTicksIgnoresRate` | SyncSketchPanel/lib/mediatime.js:70-76 | any two valid rates give the same result, namely `round(ticks / 254016000000)`. The `tpf` computed there is unused |
| `MediaTime.TimeTicksRoundTrip` | SyncSketchPanel/lib/mediatime.js:70-89 | seconds→ticks→seconds gives the seconds rounded to a whole number |
| `MediaTime.TimeFromFramesLinear` | SyncSketchPanel/lib/mediatime.js:18 | 0 frames gives 0 seconds. The result is additive in frames and scales with them |
| `MediaTime.TimeFromFramesMonotone` | SyncSketchPanel/lib/mediatime.js:18 | more frames never give less time |
| `MediaTime.LiteralFormulaExamples` | SyncSketchPanel/lib/mediatime.js:15-34 | `framesFromTime(1, 25)` is 25000, `timeFromFrames(48, 24)` is 1152, and `ticksFromTime(1, 29.97)` is 254016000000 |
| `Timecode.FramerateSetting.constructor` | SyncSketchPanel/lib/ss2pp.js:4 | the setting starts at the given positive rate |
| `Timecode.FramerateSetting.SetFramerate` | SyncSketchPanel/lib/ss2pp.js:18-20 | afterwards the stored rate is the argument. Only that field may change |
| `Timecode.FramerateSetting.GetFramerate` | SyncSketchPanel/lib/ss2pp.js:22-24 | returns the stored rate, so after `SetFramerate(r)` it returns `r` |
| `Timecode.Split` | SyncSketchPanel/lib/ss2pp.js:27 | `split(':')` gives at least one piece, and no piece contains a colon |
| `Timecode.SplitJoin` | SyncSketchPanel/lib/ss2pp.js:27 | splitting colon-free pieces joined by colons gives back the pieces |
| `Timecode.JoinSplit` | SyncSketchPanel/lib/ss2pp.js:27 | joining the pieces of a split with colons gives back the string |
| `Timecode.ParseNumber` | SyncSketchPanel/lib/ss2pp.js:28 | `Number()` of a field, modelled as: a number exactly when every character is a decimal digit. The number is non-negative, and the empty string reads as 0. `ParsePad2` shows it reads the `%02d` form of `n >= 0` back as `n` |
| `Timecode.TimecodeToFrames` | SyncSketchPanel/lib/ss2pp.js:26-29 | the result is a number exactly when there are at least four colon-separated fields and the first four are numeric. Otherwise it is NaN. The number is `(a[0]*3600 + a[1]*60 + a[2]) * framerate + a[3]` of the numbers the first four fields read as, and any fields after the fourth are ignored |
| `Timecode.TimecodeToFramesOfFields` | SyncSketchPanel/lib/ss2pp.js:26-29 | `"HH:MM:SS:FF"` gives `(H*3600 + M*60 + S) * framerate + F` |
| `Timecode.NatToDigits` | SyncSketchPanel/lib/ss2pp.js:33 | the decimal form is a non-empty digit string, of one digit exactly below 10 |
| `Timecode.DigitsValueOfNat` | SyncSketchPanel/lib/ss2pp.js:33 | reading back the decimal form of `n` gives `n` |
| `Timecode.ParsePad2` | SyncSketchPanel/lib/ss2pp.js:33 | `%02d` of `n >= 0` reads back as `n`, with two characters when `n < 100` |
| `Timecode.Pad2` | SyncSketchPanel/lib/ss2pp.js:33 | one `%02d` conversion: for `n >= 0`, a digit string of at least two characters. For `n < 0`, a `-` followed by digits. `ParsePad2` reads it back and `Pad2ColonFree` keeps it free of colons |
| `Timecode.Pad2ColonFree` | SyncSketchPanel/lib/ss2pp.js:33 | a `%02d` conversion never holds a colon, so the four fields survive `split(':')` |
| `Timecode.JsRemainderOfNonNegative` | SyncSketchPanel/lib/ss2pp.js:35-37 | JavaScript's `%` (`JsRemainder`, truncating) on a non-negative dividend and a positive divisor is the floored remainder `x - y*floor(x/y)`, which lies in `[0, y)` |
| `Timecode.JsRemainderOfNonPositive` | SyncSketchPanel/lib/ss2pp.js:35-37 | on a non-positive dividend it lies in `(-y, 0]`: the remainder takes the sign of the dividend |
| `Timecode.TimecodeFieldsOf` | SyncSketchPanel/lib/ss2pp.js:34-37 | the four `printf` arguments, each computed as the source does, with `Math.floor` and JavaScript's truncating `%`. For every frame count, the hours field is `frames div (3600*framerate)`. The other three fields are described by the next three rows |
| `Timecode.FramesToTimecode` | SyncSketchPanel/lib/ss2pp.js:32-38 | the output splits at its colons into exactly four pieces, the `%02d` forms of the hours, minutes, seconds and frames fields, in that order |
| `Timecode.MinutesField` | SyncSketchPanel/lib/ss2pp.js:35 | for `n >= 0`, the minutes field is `n div (60*fr) - 60*(n div (3600*fr))`, which lies in 0..59 |
| `Timecode.SecondsField` | SyncSketchPanel/lib/ss2pp.js:36 | for `n >= 0`, the seconds field is `n div fr - 60*(n div (60*fr))`, which lies in 0..59 |
| `Timecode.FramesField` | SyncSketchPanel/lib/ss2pp.js:37 | for `n >= 0`, the frames field is `n mod framerate` |
| `Timecode.FieldRanges` | SyncSketchPanel/lib/ss2pp.js:32-38 | for `n >= 0`, the hours are `n div (3600*fr)`, the minutes and seconds lie in 0..59, and the frames are `n mod fr`, below the rate |
| `Timecode.RecombineFields` | SyncSketchPanel/lib/ss2pp.js:32-38 | for `n >= 0`, the fields recombine to the frame count: `(h*3600 + m*60 + s)*fr + f == n` |
| `Timecode.FramesTimecodeRoundTrip` | SyncSketchPanel/lib/ss2pp.js:26-38 | `timecode_to_frames(frames_to_timecode(n)) == n` for every `n >= 0` and positive whole rate |
| `Timecode.TwoDigitValue` | SyncSketchPanel/lib/ss2pp.js:42 | a two-digit field has the value `10*d0 + d1` |
| `Timecode.ValidTimecodeFields` | SyncSketchPanel/lib/ss2pp.js:40-42 | the validator holds exactly for four colon-separated two-digit fields with hours ≤ 23, minutes and seconds ≤ 59, and frames ≤ 29 |
| `Timecode.FormattedTimecodeIsValid` | SyncSketchPanel/lib/ss2pp.js:32-42 | at 30 fps or fewer and within 24 hours, `frames_to_timecode` output passes the validator |
| `Timecode.IsValidSmpteTimecode` | SyncSketchPanel/lib/ss2pp.js:42 | the anchored regex as a character predicate. An accepted string has its colons exactly at positions 2, 5 and 8 and a decimal digit at every other position |
| `Timecode.TimecodeValidatorExamples` | SyncSketchPanel/lib/ss2pp.js:40-42 | accepts `23:59:59:29` and `00:00:00:00`. Rejects hour 24, minute 60, frame 30, a semicolon, a trailing space and a missing field |
| `Catalogue.SsDict.constructor` | ssdict.py:2-10 | the object holds the given `intro` and `collection` |
| `Catalogue.SsDict.GetCatalogue` | ssdict.py:28-37 | the built string equals `CatalogueText(intro, collection)`. The method has no `modifies` clause, so `intro` and `collection` are unchanged |
| `Catalogue.CatalogueFrame` | ssdict.py:29-36 | the catalogue starts with `intro`, then holds the item lines, then one more `'\n'`. With at least one item it ends in two newlines |
| `Catalogue.LinesAppend` | ssdict.py:30-35 | the lines of `a + b` are the lines of `a` followed by those of `b` |
| `Catalogue.LineBetween` | ssdict.py:30-35 | each item's line sits, in order, between the lines of the items before it and those after it |
| `Catalogue.LinesOfNext` | ssdict.py:30-35 | one more item appends exactly its own line |
| `Catalogue.CountAppend` | ssdict.py:30-35 | the newline count of a concatenation is the sum of the counts |
| `Catalogue.FieldsTextOfNext` | ssdict.py:32-34 | one more property appends its value and a space when present, and nothing otherwise |
| `Catalogue.ItemLineShape` | ssdict.py:31-35 | a line begins with `'\t'` and ends with `'\n'`. When no shown field holds a newline, it holds exactly one |
| `Catalogue.OneLinePerItem` | ssdict.py:30-35 | with single-line fields, the item lines hold exactly one newline per item |
| `Catalogue.ItemLineFields` | ssdict.py:32-34 | `id`, `name` and `text` appear in that order, each only when present and each followed by one space |
| `Catalogue.ItemLineIgnoresOtherFields` | ssdict.py:32-34 | fields other than `id`, `name` and `text` do not change a line |
| `Lookup.Contains` | ssdump.py:16 | Python's substring `in`: holds exactly when `keywd` occurs at some position of the name |
| `Lookup.FirstStop` | ssdump.py:15-18 | the first position where the loop stops, either by `KeyError` or by `break`. Every record before it neither lacks a name nor matches |
| `Lookup.FindObject` | ssdump.py:14-21 | the loop returns or raises exactly what `Find` says |
| `Lookup.FirstStopIs` | ssdump.py:15-18 | the stopping position is determined by the records before it and the record at it |
| `Lookup.EmptyListFails` | ssdump.py:14-21 | empty input raises the unbound-variable error, and only empty input does |
| `Lookup.FindsFirstMatch` | ssdump.py:15-18 | the first record whose `name` contains `keywd` is returned, provided every record before it has a `name` |
| `Lookup.NoMatchGivesEmptyRecord` | ssdump.py:19-21 | a non-empty list in which every record has a `name` and none contains `keywd` gives `{}` |
| `Lookup.MissingNameFails` | ssdump.py:16 | a record without `name`, reached before any match, raises `KeyError` |
| `Lookup.ResultIsFromInput` | ssdump.py:17 | a non-empty result is an element of the list, and its name contains the keyword |
| `Lookup.LaterItemsIgnored` | ssdump.py:18 | records after the one where the search stops are not examined. Appending records does not change the outcome |

## Left out

- IEEE-754 double rounding: `mediatime.js` and `ss2pp.js` are modelled over exact `int` and `real` values.
- Nominal-rate matching is exact equality of reals. It stands for JavaScript's `===` on the double nearest each decimal literal.
- `MediaTime.TimeFromFrames`, `FramesFromTime`, `TicksFromFrames`, `FramesFromTicks`, `TimeFromTicks`, `TicksFromTime`: these require `WellFormed`, meaning an object with both properties has them positive. An object missing a property is allowed: it becomes null before any division. A zero property makes JavaScript divide by zero, which the model does not follow. Negative properties are excluded as well, although JavaScript computes with them: the model promises results only for positive timebases. `TicksFromTime` divides by neither property, and it requires `WellFormed` only so that all six conversions share one precondition.
- `toTimebase(null)` throws in JavaScript, because `typeof null` is `'object'`. `FrameRate` has no null case.
- Object properties that are not integers, and string or boolean rate arguments, are not representable in `FrameRate`.
- The extra properties of a passed-through object are not kept. `Timebase` holds only `rate` and `scale`.
- `Timecode.FramerateSetting.SetFramerate`: restricted to positive whole rates. The source accepts any value.
- The initial `framerate = 23.98` and other non-integer rates are not modelled: `%` and `printf` on them do not give timecode fields. The constructor takes the initial rate as an argument.
- `Timecode.ParseNumber`, `Timecode.TimecodeToFrames`: `Number()` is modelled only on strings of decimal digits, where the empty string is 0. Signs, whitespace, decimal points, exponents and hexadecimal forms are treated as NaN, though JavaScript reads them as numbers.
- `Timecode.FieldRanges`, `Timecode.RecombineFields` and `Timecode.FramesTimecodeRoundTrip` hold for non-negative frame counts only. The fields themselves are modelled for every frame count, with JavaScript's sign-of-dividend `%`.
- Frame counts given to `frames_to_timecode` are whole numbers (`int`). The source accepts any number, and for a fractional count `frames % framerate` is itself fractional. `TimecodeFieldsOf` cannot represent that.
- `util.printf` is a host call. `Pad2` models `%02d` as the decimal form zero-padded to at least two characters, with `-` before the digits of a negative number.
- The timecode helpers read the module-level `framerate` when called. The model passes the setting's current value as a parameter.
- Record values in `ssdict.py` and `ssdump.py` are strings already in their `str()` form. Python's `str()` of other values is not modelled.
- `findObject` on a `name` that is not a string is not modelled. Python's `in` would then test membership rather than substring.
- The `ssdict` constructor and its `get*` factory methods (`ssdict.py:2-26`) are not modelled: they are remote API calls. Only the resulting `intro` and `collection` are modelled.
- The top-level script of `ssdump.py` (lines 23-74) is not modelled: it reads configuration and environment variables, calls the network and prints.
- `SyncSketchPanel/lib/syncsketch.js` is not part of this model. It is the REST client: XMLHttpRequest and Promise plumbing, `serialize` over `encodeURIComponent`, and the unfinished `reviews`.
- Also not modelled in `ss2pp.js`: the DOM and jQuery popup builders and fetchers, the empty `writeMarkers` stub, and the `markerColors` and `demoMarkers` data.
