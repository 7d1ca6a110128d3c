# abc.prototype CSV pipeline, modelled in Dafny

This project models the logic core of the abc.prototype React wizard. A user enters
project information (name, description, client, contractor), uploads a CSV survey file
and picks X/Y/Z ranges. The wizard then shows a result page with a KP/X graph. The
modelled parts are:

- the CSV deserializer `CSVSerializer.deserializeCSV`, and the serializer object's
  status/data state machine driven by the file reader's events (`csv_serializer.dfy`);
- the `Utility` helpers `sanitizeString`, `sanitizeStringArray`, `prepareQueryString`,
  `appendQueryString` and `parseQueryString` (`utility.dfy`);
- the pieces of the `UserInput` page that compute something: `findXYZRange`,
  `validateXYZRange`, `getCurrentStep`, `getProjectInformation` (with its shared default
  object), `loadDataFromQueryParameters`, the two input updaters, the file-changed handler
  and the URL `onFormSubmitted` navigates to (`user_input.dfy`);
- `Result.prepareGraphOptions` and the condition under which the graph is shown
  (`result.dfy`);
- the `csvData` Redux reducer (`csv_data_reducer.dfy`).

Supporting modules model the JavaScript built-ins these rely on:
- `js_values.dfy`: JavaScript values (`undefined`, booleans, numbers as exact reals, strings) and plain objects. An object is an ordered list of key/value entries. Writing a key updates it in place or appends it, which matches insertion order.
- `js_strings.dfy`: `String.prototype.trim` with the ECMAScript white-space and line-terminator set, `indexOf`, `split` on one character, and `join`.
- `js_numbers.dfy`: the decimal forms of `Number(string)` / `isNaN(string)`, and integer-to-string conversion.
- `uri_component.dfy`: `encodeURIComponent` and `decodeURIComponent`. Characters are encoded as UTF-8 and percent-escaped. Decoding rejects malformed input with a `URIError`.
- `wrappers.dfy`, `seqs.dfy`: `Option`/`Result` and small sequence facts.

A statement that throws in the source becomes an `Err`. Two examples: iterating over the
empty object `{}` raises a `TypeError`, and a malformed escape raises a `URIError`.

On an aborted or failed read, `readAsync` returns `_csvData`, which is still the initial
`{}`, not `[]`. `findXYZRange({})` then throws, because `{}.length` is not `0` and `csvData[0].X` reads a
property of `undefined`. `prepareGraphOptions({})` throws too, because `{}` cannot be
iterated. `CSVSerializer.FailedRead`,
`UserInput.FindXYZRange` and `ResultPage.PrepareGraphOptions` state this behaviour.

## Model

| member | source | states |
|---|---|---|
| Utility.SanitizeString | src/common/Utility.js:104-114 | missing text or text that is empty after trimming gives "false" (None), in both directions; any other text gives its trimmed, non-empty form |
| Utility.SanitizeStringIdempotent | src/common/Utility.js:104-114 | sanitizing an already sanitized string returns it unchanged |
| Utility.SanitizeStringArray | src/common/Utility.js:124-136 | the loop yields `Sanitized(entries)`: each entry's sanitized form, in order, with dropped entries left out |
| Utility.Sanitized | src/common/Utility.js:124-136 | the result is no longer than the input, and every kept entry is non-empty and trimmed |
| Utility.SanitizedConcat | src/common/Utility.js:124-136 | sanitizing a concatenation gives the concatenation of the two sanitized parts |
| Utility.SanitizedOfClean | src/common/Utility.js:124-136 | a list of non-empty trimmed strings is left exactly as it is |
| Utility.SanitizedIdempotent | src/common/Utility.js:124-136 | sanitizing a second time changes nothing |
| Utility.PrepareQueryString | src/common/Utility.js:18-34 | the accumulate-and-strip loop gives `""` for no data, and otherwise `?` followed by the `key=encoded value` pairs in entry order, joined by `&` |
| Utility.TerminatedIsJoin | src/common/Utility.js:23-30 | appending `&` after each pair and then dropping the final `&` gives the `&`-join of the pairs |
| Utility.QueryStringShape | src/common/Utility.js:18-34 | for a non-empty object the query string starts with `?` and does not end with `&` |
| Utility.EmptyQueryString | src/common/Utility.js:18-34 | an empty object gives `"?"`, which parses back to no parameters |
| Utility.ReadSegment | src/common/Utility.js:63-72 | a segment without `=` is skipped; otherwise the key is the text before the first `=` and the value the rest, decoded when asked |
| Utility.SegmentWithoutEquals | src/common/Utility.js:64-66 | a segment without `=` leaves the parameters unchanged |
| Utility.SegmentSplitsAtFirstEquals | src/common/Utility.js:64-70 | in `key=value` with no `=` in the key, the key is exactly `key` and the value is `value` (which may contain `=`), decoded only when asked |
| Utility.KeyedSegment | src/common/Utility.js:64-69 | without decoding, `key=v` reads back as `(key, v)` |
| Utility.ParseQueryString | src/common/Utility.js:52-76 | the loop gives `QueryParameters(url, decode)`: no parameters for an empty URL or one without `?`, otherwise the segments after the first `?` added in order, or the first decoding error |
| Utility.ParsedSegmentsError | src/common/Utility.js:63-73 | once a segment fails to decode, later segments do not change the error |
| Utility.NoQueryNoParameters | src/common/Utility.js:52-58 | a URL without `?` has no parameters |
| Utility.QueryAfterMark | src/common/Utility.js:55-60 | the parameters are those of the text after the first `?`, split on `&` |
| Utility.NoSegments | src/common/Utility.js:59-63 | an empty query has no parameters |
| Utility.LaterParameterWins | src/common/Utility.js:63-73 | for any segments that parse, with or without decoding, a key holds the (decoded) value of the last segment carrying that key |
| Utility.MissingParameter | src/common/Utility.js:63-73 | for any segments that parse, a key that no segment carries is absent |
| Utility.DuplicateKeyInUrl | src/common/Utility.js:52-76 | an example: parsing `?key=a&key=b` without decoding gives the single parameter `key=b` |
| Utility.ParameterRoundTrip | src/common/Utility.js:24 | a `key=encoded value` segment parses back to the key and the value's string form |
| Utility.ParsedParameters | src/common/Utility.js:23-25 | the pairs of an object with distinct plain keys parse back to the object with stringified values |
| Utility.ParametersAvoidSeparator | src/common/Utility.js:24 | no pair contains `&` when the keys do not |
| Utility.QueryStringRoundTrip | src/common/Utility.js:18-76 | `parseQueryString(appendQueryString(url, d))` is `d` with its values stringified, for a URL without `?` and distinct keys free of `&` and `=` |
| Utility.Stringified | src/common/Utility.js:24 | the stringified object has the same keys in the same order, and each value's string form |
| Utility.PutPlain | src/common/Utility.js:72 | writing a key without `&` or `=` keeps all keys plain |
| JsStrings.Split | src/common/CSVSerializer.js:61 | `split` gives at least one piece, and no piece contains the separator |
| JsStrings.JoinSplit | src/common/CSVSerializer.js:61 | joining the pieces of a split with the separator gives back the text |
| JsStrings.SplitJoin | src/common/Utility.js:60 | splitting a join of separator-free pieces gives back the pieces |
| JsStrings.SplitTwo | src/common/Utility.js:60 | text made of two separator-free pieces splits into exactly those two |
| JsStrings.Trim | src/common/Utility.js:109 | the result is trimmed, no longer than the input, and is the input minus its leading and trailing white space |
| JsStrings.TrimEmptyIff | src/common/Utility.js:109-111 | trimming gives the empty string exactly when the text is all white space |
| JsStrings.TrimIdempotent | src/common/Utility.js:109 | trimming twice is trimming once |
| JsStrings.IndexOf | src/common/Utility.js:55-57 | -1 exactly when the character is absent; otherwise the position of its first occurrence |
| UriComponent.DecodeEncode | src/common/Utility.js:24 | decoding any encoded string succeeds and gives the string back |
| UriComponent.EncodeAvoidsDelimiters | src/common/Utility.js:24 | encoded text never contains `&`, `=` or `?` |
| UriComponent.Utf8 | src/common/Utility.js:24 | a size bound only: every character takes one to four bytes (what the bytes are is pinned down by `UriComponent.DecodeEncode`) |
| JsNumbers.IntToStringRoundTrip | src/common/CSVSerializer.js:88-91 | the decimal text of an integer is numeric and converts back to that integer |
| JsNumbers.NatToString | src/common/CSVSerializer.js:83 | natural-number text is digits with no leading zero, and its value is the number |
| JsNumbers.IntegralNumberToString | src/common/Utility.js:24 | an integral number of magnitude below 10^21 is written as its decimal integer text |
| JsNumbers.NonNumericLead | src/common/CSVSerializer.js:88 | text starting with a character that cannot begin a number is not numeric |
| JsValues.LookupPut | src/common/Utility.js:72 | after writing a key, reading it gives the new value and every other key is unchanged |
| JsValues.KeysPut | src/common/Utility.js:72 | writing an existing key keeps the key order; a new key is appended last |
| JsValues.PutUnique | src/common/Utility.js:72 | writing a key keeps the keys distinct |
| CSVSerializer.DeserializeCSV | src/common/CSVSerializer.js:58-101 | the nested loops give `Deserialize(text)`: the first surviving line's fields are the titles, and each later line becomes one row |
| CSVSerializer.DeserializeLines | src/common/CSVSerializer.js:65-98 | the outer loop skips the title line and pushes one row per later line |
| CSVSerializer.RowData | src/common/CSVSerializer.js:78-95 | the inner loop writes each field's coerced value under its title or generated key, in field order |
| CSVSerializer.DeserializeRows | src/common/CSVSerializer.js:61-97 | the number of rows is max(0, non-blank lines − 1), and row k is built from non-blank line k+1 with the first line's fields as titles |
| CSVSerializer.HeaderOnly | src/common/CSVSerializer.js:65-76 | a file with one non-blank line gives no rows |
| CSVSerializer.HeaderAndRow | src/common/CSVSerializer.js:61-97 | a header with distinct titles and one line with as many fields give one row whose keys are the titles in order |
| CSVSerializer.LinesOfJoin | src/common/CSVSerializer.js:61 | the lines of text joined from newline-free pieces are the sanitized pieces |
| CSVSerializer.BlankLineIgnored | src/common/CSVSerializer.js:61 | removing a whitespace-only line changes neither the lines nor the rows |
| CSVSerializer.SanitizedWithoutBlank | src/common/Utility.js:124-136 | removing an all-white-space entry does not change the sanitized list |
| CSVSerializer.CommasOnlyLine | src/common/CSVSerializer.js:68-95 | a line of only commas gives an empty row |
| CSVSerializer.BlankFields | src/common/CSVSerializer.js:68 | a line of commas and white space has no fields |
| CSVSerializer.LineKeys | src/common/CSVSerializer.js:83 | field j's key is title j when there is one, and otherwise `[i+1][j+1]` |
| CSVSerializer.RowKeys | src/common/CSVSerializer.js:80-95 | the row's keys are distinct and are exactly the keys of its fields |
| CSVSerializer.FullLineKeys | src/common/CSVSerializer.js:80-95 | with distinct titles and as many fields as titles, the row is the titles paired with the coerced fields, in order |
| CSVSerializer.ShortLine | src/common/CSVSerializer.js:80-95 | with distinct titles, a line shorter than the titles lacks the later titles' keys (no null fill) |
| CSVSerializer.MissingKey | src/common/CSVSerializer.js:80-95 | a key no field maps to is absent from the row |
| CSVSerializer.LastFieldWins | src/common/CSVSerializer.js:94 | when no later field has field j's key, the row holds field j's coerced value under it |
| CSVSerializer.OverflowFieldKept | src/common/CSVSerializer.js:83-94 | a field beyond the titles is always found under its generated key |
| CSVSerializer.RowOfDistinct | src/common/CSVSerializer.js:80-95 | when all keys of a line differ, the row is the keys paired with the coerced fields, in order |
| CSVSerializer.RecordLastWins | src/common/CSVSerializer.js:94 | writing keys in order leaves each key with its last value |
| CSVSerializer.GeneratedTitleInjective | src/common/CSVSerializer.js:83 | different field positions of one line get different generated keys |
| CSVSerializer.CoerceBoolean | src/common/CSVSerializer.js:85-87 | a cell becomes a boolean exactly when it is `true` or `false`, and becomes true exactly for `true` |
| CSVSerializer.CoerceCapitalized | src/common/CSVSerializer.js:85-92 | a cell starting with a capital letter (such as `True`) stays a string |
| CSVSerializer.CoerceNumeric | src/common/CSVSerializer.js:88-92 | a non-boolean numeric cell becomes its number; any other cell stays the string |
| CSVSerializer.CoerceInteger | src/common/CSVSerializer.js:88-92 | an integer's decimal text becomes that number |
| CSVSerializer.Column | src/pages/result/Result.jsx:42-43 | one value per row, each read under the key (`undefined` when absent) |
| CSVSerializer.Serializer.constructor | src/common/CSVSerializer.js:11-14 | the status starts as NONE, the data as the empty object `{}`, and the file is kept |
| CSVSerializer.Serializer.OnFileLoaded | src/common/CSVSerializer.js:39-46 | the data becomes the file's deserialized rows and the status LOADED |
| CSVSerializer.Serializer.OnFileLoadStarted | src/common/CSVSerializer.js:48 | the status becomes LOADING and the data is unchanged |
| CSVSerializer.Serializer.OnFileLoadAborted | src/common/CSVSerializer.js:49 | the status becomes ABORTED and the data is unchanged |
| CSVSerializer.Serializer.OnFileLoadError | src/common/CSVSerializer.js:50 | the status becomes ERROR and the data is unchanged |
| CSVSerializer.Serializer.Handle | src/common/CSVSerializer.js:17-20 | the listener wiring: each event runs its handler, so the state becomes `Step` of the old state and the event |
| CSVSerializer.Serializer.ReadAsync | src/common/CSVSerializer.js:27-37 | handling the events one per poll gives the state and result of `Replay` |
| CSVSerializer.StepEffects | src/common/CSVSerializer.js:39-50 | each event sets its status; only `load` changes the data, and it sets the data to the deserialized rows |
| CSVSerializer.ReplaySettles | src/common/CSVSerializer.js:32-36 | the read returns exactly when the status is neither NONE nor LOADING, and it returns the stored data |
| CSVSerializer.LoadedIsFresh | src/common/CSVSerializer.js:39-46 | a read that ends LOADED returns the rows of this file, never stale data |
| CSVSerializer.NoLoadKeepsData | src/common/CSVSerializer.js:48-50 | without a `load` event the data never changes |
| CSVSerializer.FailedRead | src/common/CSVSerializer.js:27-50 | any read that ends ABORTED or ERROR without a `load` event returns the initial `{}` |
| CSVSerializer.AbortedRead | src/common/CSVSerializer.js:27-50 | an example: start then abort (or error) returns `{}`, which differs from the `[]` of a header-only file |
| CSVSerializer.LoadedRead | src/common/CSVSerializer.js:27-46 | a started and then loaded read returns the rows, with status LOADED |
| UserInput.FindXYZRange | src/pages/user-input/UserInput.jsx:184-209 | the one-pass loop gives `RangeOf(csvData)`: a TypeError for `{}`, the default range for no rows, and otherwise each axis's scanned extent |
| UserInput.NoRowsDefaultRange | src/pages/user-input/UserInput.jsx:23-30 | no rows gives -1 to 0 on every axis |
| UserInput.ScanNumbers | src/pages/user-input/UserInput.jsx:197-206 | over numbers, the scanned bounds enclose every value and are either the start values or values seen |
| UserInput.RangeOfNumbers | src/pages/user-input/UserInput.jsx:188-206 | for all-numeric axes, min ≤ each row's value ≤ max, min ≤ max, and both bounds occur in the data |
| UserInput.AxesIndependent | src/pages/user-input/UserInput.jsx:197-206 | for each of X, Y and Z, the axis's bounds are the extent of its own column, so rows that agree on that column give the same bounds for it |
| UserInput.SingleRowRange | src/pages/user-input/UserInput.jsx:188-206 | one numeric row gives min = max = its value on X |
| UserInput.SingleRowRejected | src/pages/user-input/UserInput.jsx:112-122 | the range found from one row fails validation, naming `minimumX` |
| UserInput.ValidateXYZRange | src/pages/user-input/UserInput.jsx:112-122 | every failure carries the message "Minimum value must be less than the maximum value." |
| UserInput.ValidateAxes | src/pages/user-input/UserInput.jsx:112-122 | validation passes iff every axis has max > min; otherwise the error names the first failing axis, in order X, Y, Z |
| UserInput.ValidateNumbers | src/pages/user-input/UserInput.jsx:119-121 | on numeric bounds, validation passes iff min < max on all three axes |
| UserInput.DefaultRangeValid | src/pages/user-input/UserInput.jsx:23-30 | the default range passes validation |
| UserInput.GetCurrentStep | src/pages/user-input/UserInput.jsx:50-59 | a missing or empty `step` gives 0 |
| UserInput.StepOfParameter | src/pages/user-input/UserInput.jsx:51-55 | a numeric non-empty `step` gives its number, and a non-numeric one stays the text |
| UserInput.IntegerStep | src/pages/user-input/UserInput.jsx:51-55 | `step` holding an integer's text gives that integer |
| UserInput.CopyParameterSame | src/pages/user-input/UserInput.jsx:63 | a field is overwritten exactly when its parameter is non-empty |
| UserInput.CopyParameterOther | src/pages/user-input/UserInput.jsx:63-66 | copying one parameter leaves every other field alone |
| UserInput.InformedLookup | src/pages/user-input/UserInput.jsx:61-69 | after the copies, each of the four fields holds its non-empty parameter, and anything else keeps what the object held |
| UserInput.UserInputPage.constructor | src/pages/user-input/UserInput.jsx:42-47 | step 0, no rows, the shared default object as the project information, and the default range |
| UserInput.UserInputPage.GetProjectInformation | src/pages/user-input/UserInput.jsx:61-69 | returns the shared default object itself, updated in place; while the page still shares it, its project information changes too |
| UserInput.UserInputPage.LoadDataFromQueryParameters | src/pages/user-input/UserInput.jsx:71-87 | parses the URL and copies the parameters into the shared object; the step is forced to 0 when a field is empty; a decoding error propagates and leaves the object unchanged |
| UserInput.MissingFieldForcesStart | src/pages/user-input/UserInput.jsx:77-81 | a field that is empty and has no parameter forces step 0 |
| UserInput.CompleteQueryKeepsStep | src/pages/user-input/UserInput.jsx:73-86 | when all four parameters are non-empty the step is the query's step |
| UserInput.DefaultFieldsEmpty | src/pages/user-input/UserInput.jsx:16-21 | every default project field is the empty string |
| UserInput.UserInputPage.OnFormSubmitted | src/pages/user-input/UserInput.jsx:147-174 | at step 0 the target is `/` with the project information plus `step=1`; otherwise `/result` with the information and the range, and the rows are dispatched |
| UserInput.FirstStepSubmitted | src/pages/user-input/UserInput.jsx:153-159 | the step-0 target's query reads back as the project information plus `step`, stringified |
| UserInput.FirstStepReadsOne | src/pages/user-input/UserInput.jsx:50-56 | that query's step reads back as 1 |
| UserInput.StringifiedLookup | src/common/Utility.js:24 | a key of the stringified object holds the string form of the original value |
| UserInput.UserInputPage.OnCSVFileChanged | src/pages/user-input/UserInput.jsx:211-218 | stores the rows and their range and nothing else; on `{}` it throws and nothing changes |
| UserInput.UserInputPage.OnProjectInformationInputValueChanged | src/pages/user-input/UserInput.jsx:225-234 | the project information becomes a new object with the named key set; the rest of the state is unchanged |
| UserInput.UserInputPage.OnXYZRangeInputValueChanged | src/pages/user-input/UserInput.jsx:241-250 | the range has the named key set; the rest of the state is unchanged |
| UserInput.InputChangeReplacesKey | src/pages/user-input/UserInput.jsx:228-233 | the named key gets the value, every other key reads as before, and the key order is kept (a new key goes last) |
| ResultPage.Iterated | src/pages/result/Result.jsx:37-41 | iteration fails exactly on `{}`; a missing argument is `[]` |
| ResultPage.PrepareGraphOptions | src/pages/result/Result.jsx:37-55 | a TypeError exactly on `{}`; otherwise `xAxis[i]` is row i's KP and `dataSet[i]` is (KP, X), both as long as the input, and each point's x equals `xAxis[i]` |
| ResultPage.GraphSeries | src/pages/result/Result.jsx:41-47 | the loop's two sequences plot the rows in order |
| ResultPage.PlotsSharesKP | src/pages/result/Result.jsx:45-46 | in a plot, each point's x is the matching x-axis entry |
| ResultPage.HiddenOnlyWhenEmpty | src/pages/result/Result.jsx:99-104 | the graph is hidden exactly when the stored data is the empty list |
| CSVDataReducer.Reduce | src/redux/reducers/CSVData.js:6-13 | a `CSV_DATA` action gives its payload; any other or missing action gives the state, or `[]` when there is none |
| CSVDataReducer.InitialState | src/redux/reducers/CSVData.js:6 | with no state the reducer starts from `[]` |
| CSVDataReducer.DefaultActionKeeps | src/redux/reducers/CSVData.js:1-6 | no action means the default action, which keeps the state |
| CSVDataReducer.ReduceIdempotent | src/redux/reducers/CSVData.js:8-9 | applying the same action twice is applying it once |
| CSVDataReducer.GraphAfterStore | src/redux/reducers/CSVData.js:8-9 | once rows are stored, the result page shows the graph exactly when there is at least one row |

## Left out

- FileReader, the event-listener wiring and the 250 ms `sleepAsync` polling of `readAsync`: the events arrive as a sequence argument, and the status is checked after each one. When the sequence runs out while the status is still NONE or LOADING, `ReadAsync` returns `None` ("still waiting"). Whether real events ever arrive cannot be stated.
- The file's text is a constructor parameter, standing in for `fileReader.result`.
- `Utility.sleepAsync` and `Utility.generateRandomText`: timers, `Math.random` and floating point.
- JavaScript numbers are exact reals. They are not IEEE doubles, so rounding, `NaN`, `-0` and overflow are not modelled.
- Numeric text is the decimal form only (sign, digits, point, exponent). `Infinity` and the `0x`/`0o`/`0b` forms are treated as non-numeric.
- `NumberToString` writes positional form only. JavaScript's `String(x)` switches to exponent form for |x| >= 10^21 (`1e+21`) and for 0 < |x| < 10^-6 (`1e-7`); the model writes all digits there. Such values can reach the `/result` URL through the range bounds.
- `NumberToString` also writes at most 20 fraction digits, so it matches `String(x)` only for fractions that are short enough.
- JsNumbers.IntegralNumberToString: stated only for magnitudes below 10^21, because beyond that JavaScript writes exponent form, which the model does not produce.
- Ordering of object keys: JavaScript lists integer-like keys first, and the model keeps plain insertion order. Special keys such as `__proto__` are also not modelled.
- String comparison compares characters, not UTF-16 code units. Strings cannot hold lone surrogates, so `encodeURIComponent`'s URIError on them does not arise.
- The range scan uses JavaScript's `<` and `>` across types as `Less`. The range properties are proved only for all-numeric X/Y/Z columns.
- DOM and browser effects are arguments or results of the model, not effects. This covers `window.location.href` (a URL argument), `history.push` (the returned target), the `setCSVData` dispatch (a returned option), `setState` batching (applied at once), `setCustomValidity`, `clearCustomValidationErrors` and the lifecycle methods `componentDidMount`, `getSnapshotBeforeUpdate` and `componentDidUpdate`.
- Rendering: every `render` method, the graph, the PDF documents, the spinner, the buttons and the routing components.
- `appendQueryString` is the function `Utility.AppendQueryString` (the URL followed by the query string). It has no contract of its own and is covered by `Utility.QueryStringRoundTrip`.
