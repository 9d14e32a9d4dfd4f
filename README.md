# JsonParser — a verified model of the streaming JSON-subset parser

`JsonParser` is an Arduino class that reads a JSON object one character at a time (`addChar`).
Each completed field goes into a list: its name, a type tag (`JSON_STRING`, `JSON_NUMBER`,
`JSON_STRING_ARRAY`, `JSON_NUMBER_ARRAY`) and its data. Accessors read the fields back by index.
The parser is a state machine with eight internal states (`JPIS_…`). Inside it:

- `_currentField` is the field under construction.
- `_tmpValue` is the array element being read.
- `_arrayValuesStr` and `_arrayValuesNum` hold the elements read so far.
- `_inStr` says whether a string array is between quotes.

The project models that machine in two layers.

- **`StateMachine`** holds the machine's whole state as a value (`Machine`).
  - `Step` is the effect of one `addChar` call.
  - `Parse` folds `Step` over a stream.
  - `Valid` is an invariant every machine reachable from a new parser keeps.
- **`Parser.JsonParser`** is a class holding the same state as the C++ object. Its methods update
  that state in place. Field by field:
  - `state` is `_state`, and `fields` is the `_fields` list.
  - `curName`, `curType` and `curData` are the name, type tag and String data of `_currentField`.
  - `tmpValue`, `arrStr`, `arrNum` and `inStr` are `_tmpValue`, `_arrayValuesStr`, `_arrayValuesNum`
    and `_inStr`.
  - `_prevState` has no counterpart, because it is never read.

  `AddChar` is proved to do exactly what `Step` does to the object's `Snapshot()`. The accessors
  are proved to return what the field store holds.

Around these sit:

- `JsonTypes`: the type tag, the states, and fields whose payload is a sum type.
- `Decimal`: `isDigit`, `charToInt` and `stringToNumber`, with the decimal value they compute.
- `Text`: counting, splitting at commas, joining, and dropping spaces.
- `StepLemmas`: what each single character does.
- `Streams`: what whole runs of characters do.
  - Field names, string values, number values, number arrays and string arrays.
  - Round trips from element lists to array text and back.
  - Insensitivity to spaces outside string values.
- `Examples`: the parser on concrete inputs.

Where the code and the documented intent differ, the model follows the code:

- `'-'` is not a digit, so it never starts or enters a number. `"x":-7}` stores `7`, and
  `[-1,2,-3]` stores `[1,2,3]`. There are no negative numbers (`MinusExample`, `MinusDropped`).
- An empty array `[]` commits nothing. The parser stays in the array-start state and the
  closing `']'` is dropped (`EmptyArray`). The opening `"` of the next field then starts a string
  array, so `"a":[],"b":1}` stores no field at all and ends inside a string array
  (`AfterEmptyArray`, `EmptyArrayThenField`).
- Spaces are dropped everywhere except inside a string value. This includes inside field names
  and between the quotes of a string-array element (`SpaceIgnored`, `StringArrayExample`).

## Model

| member | source | states |
|---|---|---|
| JsonTypes.KindOf | JsonParser/JsonParser.h:56-83 | each type tag corresponds to exactly one payload kind (string, long, list of strings, list of longs), in both directions |
| Decimal.IsDigit | JsonParser/JsonParser.h:389-391 | a character is a digit exactly when its code is 48..57, that is `'0'`..`'9'`; `'-'` is not one |
| Decimal.CharToInt | JsonParser/JsonParser.h:381-391 | the code offset gives 0..9 exactly on the characters isDigit accepts; `'-'` gives -3 (the digit check is left to the caller) |
| Decimal.StringToNumber | JsonParser/JsonParser.h:348-375 | the loop from the last character to the first, with a tenfold multiplier, computes the positional reading of the whole string, negated when it starts with `'-'`; the empty string gives 0 |
| Decimal.PositionalIsHorner | JsonParser/JsonParser.h:364-367 | the right-to-left positional sum equals the left-to-right fold value*10+digit on every string |
| Decimal.HornerBound | JsonParser/JsonParser.h:364-367 | n digits are worth less than 10^n |
| Decimal.ConvertedDigits | JsonParser/JsonParser.h:348-375 | on digit strings, the conversion as written and the intended one agree: both give the decimal value, which lies in 0 .. 10^n-1 |
| Decimal.SignBranch | JsonParser/JsonParser.h:356-371 | for `'-'` followed by digits d, the conversion as written gives 3*10^\|d\| - value(d), which is positive |
| Decimal.MinusSevenAsWritten | JsonParser/JsonParser.h:357-367 | "-7" converts to 23 |
| Decimal.ValueNegates | JsonParser/JsonParser.h:359-371 | the intended conversion: a leading `'-'` negates the value of the digits after it, and a digit string is never negative |
| Decimal.StringToNumberSkippingSign | JsonParser/JsonParser.h:348-375 | the loop with the sign skipped computes the intended conversion on every string |
| StateMachine.Init | JsonParser/JsonParser.h:118-125 | a new parser is between fields, has no fields and is not inside quotes |
| StateMachine.Commit | JsonParser/JsonParser.h:299-325 | committing appends exactly the current field (name, tag, payload) at the end of the store and returns to between-fields |
| StateMachine.Step | JsonParser/JsonParser.h:133-237 | one character never removes or changes a stored field and adds at most one |
| StateMachine.Parse | JsonParser/JsonParser.h:133-237 | a stream never removes or changes stored fields and adds at most one per character |
| StateMachine.ParseAppend | JsonParser/JsonParser.h:133-237 | feeding s then t is feeding s+t: the result does not depend on how the stream is chunked |
| StateMachine.InitValid | JsonParser/JsonParser.h:118-125 | a new parser satisfies the invariant |
| StateMachine.StepValid | JsonParser/JsonParser.h:133-237 | every character keeps the invariant: stored tags match payloads, names hold no space or quote, strings hold no quote, numbers and number-array elements are non-negative, arrays have at least one element |
| StateMachine.ParseValid | JsonParser/JsonParser.h:133-237 | every machine reached by any stream from a valid one is valid |
| StepLemmas.SpaceIgnored | JsonParser/JsonParser.h:136-139 | a space changes nothing outside a string value, and is appended to the value inside one |
| StepLemmas.OrdinaryChar | JsonParser/JsonParser.h:141-235 | a character with no role is text in a name, a string value or between string-array quotes, and is dropped everywhere else |
| StepLemmas.MinusDropped | JsonParser/JsonParser.h:161-188 | outside text, `'-'` leaves the machine as it is |
| StepLemmas.CommitPoints | JsonParser/JsonParser.h:173-234 | the store grows exactly at the commit points (closing quote of a string; `,` or `}` after a number; `]` in an array), by exactly the current field, and is unchanged otherwise |
| StepLemmas.StringArrayStep | JsonParser/JsonParser.h:205-219 | in a string array: `,` closes the element even between quotes; `"` toggles the quote flag; other characters are kept only between quotes |
| StepLemmas.NumberArrayStep | JsonParser/JsonParser.h:220-234 | in a number array: `,` closes the element with its converted value; a digit extends the element; other characters except `]` are dropped |
| StepLemmas.Ignored | JsonParser/JsonParser.h:141-204 | between fields only `"` matters; after `[` only `"` and a digit matter; between name and value only `"`, `[` and a digit matter |
| Streams.BetweenFieldsRun | JsonParser/JsonParser.h:142-147 | between fields, any run without `"` changes nothing |
| Streams.AwaitingValueRun | JsonParser/JsonParser.h:155-172 | between name and value, a run without `"`, `[` or a digit changes nothing |
| Streams.EmptyArray | JsonParser/JsonParser.h:190-204 | `[` followed by anything but `"` and digits, `]` included, commits nothing and leaves the parser at array start |
| Streams.NamePrefix | JsonParser/JsonParser.h:142-154 | after the opening quote, the name is the text read with its spaces removed |
| Streams.FieldNameRun | JsonParser/JsonParser.h:142-154 | a quoted name leaves the parser awaiting the value, with the name minus its spaces |
| Streams.StringValueRun | JsonParser/JsonParser.h:155-180 | a quoted string value commits exactly its text, spaces included, as a string field |
| Streams.NumberValueRun | JsonParser/JsonParser.h:155-189 | a number starting with a digit commits, at `,` or `}`, the decimal value of its digits (non-digits dropped) as a number field |
| Streams.ValuesAt | JsonParser/JsonParser.h:220-234 | each number-array element is the decimal value of the digits of its comma-separated piece, and is non-negative |
| Streams.NumberArrayRun | JsonParser/JsonParser.h:190-234 | a number array commits at `]` one element per comma-separated piece, in input order; there are commas+1 elements |
| Streams.NumberArrayRoundTrip | JsonParser/JsonParser.h:190-234 | writing non-empty digit strings separated by commas and closed by `]` commits exactly those numbers, in order |
| Streams.QuotedKeeps | JsonParser/JsonParser.h:205-219 | a string array keeps every comma it reads and no quote or space |
| Streams.StringArrayRun | JsonParser/JsonParser.h:190-219 | a string array commits at `]` one element per comma-separated piece of the text it kept between quotes |
| Streams.StringArrayBodyQuoted | JsonParser/JsonParser.h:205-219 | for quoted elements separated by commas, the kept text is the elements joined by commas, and the quotes end closed |
| Streams.StringArrayRoundTrip | JsonParser/JsonParser.h:190-219 | writing element texts (no space, quote, comma or `]`) between quotes, separated by commas and closed by `]`, commits exactly those elements, in order |
| Streams.AfterEmptyArray | JsonParser/JsonParser.h:190-219 | at array start, characters other than `"` and digits are dropped; the next `"` opens a string array; nothing is committed before a `]` |
| Streams.NameAndGap | JsonParser/JsonParser.h:142-172 | a quoted name and the characters dropped before the value leave the parser awaiting the value |
| Streams.NumberField | JsonParser/JsonParser.h:141-189 | `"name"`, a gap and a number commit one number field with that name and value |
| Streams.StringField | JsonParser/JsonParser.h:141-180 | `"name"`, a gap and a quoted text commit one string field with that name and text |
| Streams.NumberArrayField | JsonParser/JsonParser.h:141-234 | `"name"`, a gap and a number array commit one number-array field |
| Streams.StringArrayField | JsonParser/JsonParser.h:141-219 | `"name"`, a gap and a string array commit one string-array field |
| Streams.SpaceInsertion | JsonParser/JsonParser.h:136-139 | a space fed outside a string value can be inserted or removed without changing the outcome |
| Text.JoinSplit | JsonParser/JsonParser.h:205-234 | splitting the element text at commas loses nothing: joining the pieces gives it back |
| Text.SplitJoin | JsonParser/JsonParser.h:205-234 | joining comma-free elements and splitting again gives back the elements |
| Text.DropSpacesFilters | JsonParser/JsonParser.h:136-139 | removing spaces leaves no space, drops exactly the spaces (the length falls by their count), and keeps every other character (as a set; the order is stated by DropSpacesAppend) |
| Text.DropSpacesAppend | JsonParser/JsonParser.h:136-139 | spaces are removed piece by piece: dropping them from s+t is dropping them from s, then from t, so the kept characters stay in input order |
| Parser.JsonParser.constructor | JsonParser/JsonParser.h:118-125 | a new parser is the initial machine, between fields with no fields, and satisfies the invariant |
| Parser.JsonParser.AddChar | JsonParser/JsonParser.h:133-237 | the object's new state is exactly Step of its old state; the invariant is kept; the store only grows, by at most one field at the end |
| Parser.JsonParser.ReadNameOrGap | JsonParser/JsonParser.h:142-172 | the between-fields, field-name and name-value cases of addChar do what Step does |
| Parser.JsonParser.ReadScalarValue | JsonParser/JsonParser.h:173-189 | the string and number value cases of addChar do what Step does |
| Parser.JsonParser.OpenArray | JsonParser/JsonParser.h:190-204 | the array-start case of addChar does what Step does |
| Parser.JsonParser.ReadStringArray | JsonParser/JsonParser.h:205-219 | the string-array case of addChar does what Step does |
| Parser.JsonParser.ReadNumberArray | JsonParser/JsonParser.h:220-234 | the number-array case of addChar does what Step does, with the conversion as written giving the intended value on the digits it holds |
| Parser.JsonParser.AddField | JsonParser/JsonParser.h:299-325 | the field is appended at the end of the store; nothing else changes |
| Parser.JsonParser.AppendToCurrentString | JsonParser/JsonParser.h:332-334 | the character is appended to the current field's text; nothing else changes |
| Parser.JsonParser.SwitchCurrentStringToNumber | JsonParser/JsonParser.h:341-343 | the result is stringToNumber of the current text; on digit text it is the decimal value, non-negative |
| Parser.JsonParser.NumFields | JsonParser/JsonParser.h:239-241 | the number of stored fields |
| Parser.JsonParser.FieldName | JsonParser/JsonParser.h:243-245 | the stored name of field i, which holds no space and no quote |
| Parser.JsonParser.FieldType | JsonParser/JsonParser.h:247-249 | the tag of field i, which always matches the payload stored |
| Parser.JsonParser.GetFieldString | JsonParser/JsonParser.h:251-253 | the text of string field i, which holds no quote |
| Parser.JsonParser.GetFieldNumber | JsonParser/JsonParser.h:255-257 | the value of number field i, never negative |
| Parser.JsonParser.GetFieldStringArray | JsonParser/JsonParser.h:259-271 | a new array holding a copy of the elements of string-array field i, in order |
| Parser.JsonParser.GetFieldNumberArray | JsonParser/JsonParser.h:273-285 | a new array holding a copy of the elements of number-array field i, in order, all non-negative |
| Parser.JsonParser.GetArrayFieldLength | JsonParser/JsonParser.h:287-297 | the element count of an array field (at least 1), and 0 for a scalar field |
| Examples.NumberExample | JsonParser/JsonParser.h:133-237 | `"x":42,` gives one number field x = 42 |
| Examples.MinusExample | JsonParser/JsonParser.h:155-189 | `"x":-7}` gives x = 7: the sign is dropped |
| Examples.StringExample | JsonParser/JsonParser.h:133-237 | `"name":"ab c"` gives one string field with the space kept |
| Examples.EmptyArrayExample | JsonParser/JsonParser.h:190-204 | `"a":[]` commits nothing and leaves the parser at array start |
| Examples.EmptyArrayThenField | JsonParser/JsonParser.h:190-219 | `"a":[],"b":1}` commits no field and ends inside a string array |
| Examples.NumberArrayExample | JsonParser/JsonParser.h:133-237 | `"n":[d1,d2,d3]` gives one number-array field with the three digit values in order |
| Examples.StringArrayExample | JsonParser/JsonParser.h:133-237 | `"n":["a b","c"]` gives one string-array field holding `ab` and `c` |
| Examples.OneDigitField | JsonParser/JsonParser.h:133-237 | `"n":d` followed by `,` or `}` gives one number field with the digit's value |
| Examples.TwoFieldsExample | JsonParser/JsonParser.h:133-237 | `"a":1,"b":2}` gives two fields, in input order |
| Examples.SpaceAfterColonExample | JsonParser/JsonParser.h:136-139 | `"a": 1,` parses exactly as `"a":1,` |

## Findings

| source | as written | input that shows it | evidently intended | confidence | as-written member | corrected member |
|---|---|---|---|---|---|---|
| JsonParser/JsonParser.h:357-367 | `i++` skips the leading `'-'`, but the `for` loop then resets `i` to the last index, so the `'-'` is also weighed as the digit charToInt('-') = -3 at the top place before the negation | `stringToNumber("-7")` gives -(-3*10 + 7) = 23 | the digits after the sign are converted and then negated, giving -7 | high; not executed; addChar never passes a `'-'`, so the parser's results are unaffected | Decimal.MinusSevenAsWritten | Decimal.ValueNegates |

The machine (`StateMachine.Step`) uses the intended conversion, `Decimal.Value`. The class
calls the conversion as written (`Decimal.StringToNumber`). The proofs of
`Parser.JsonParser.ReadScalarValue` and `Parser.JsonParser.ReadNumberArray` show the two agree on
every string `addChar` hands over. `Decimal.StringToNumberSkippingSign` is the corrected loop.

## Left out

- Serial output: the `Serial.print` diagnostics in `addField` are left out because they only write to the serial port.
- Memory management is left out: `new`/`delete`, the destructors, and the leaks and double ownership they imply. Payloads are values here.
- `LinkedList.h` is not part of this model. Its lists are modelled as sequences, appended at the end and indexed from 0.
- The `test` local in `addChar` and the `_prevState` field are left out; neither is ever read.
- Indeterminate initial values: a new `JSON_FIELD` leaves `fieldType` indeterminate and the constructor leaves the array lists unset. The model gives them fixed initial values, which are never read before being set.
- Decimal.StringToNumber: does not model the 32-bit wrap-around of `long`, because integers here are unbounded. A number of ten or more digits would overflow on the target.
- Parser.JsonParser.AddChar: the source's single switch is split into five helper methods, one per group of states. Each helper is proved against Step separately.
- Character width: a Dafny `char` is a Unicode scalar value, while the target's `char` is a signed byte. `charToInt` of a byte of 0x80 or above is negative on the target and positive here, so `Converted` differs on such text. The parser never hands such text to the conversion, because its numeric accumulators hold only digits.
- Out-of-range indices and wrong-type reads: the accessors require a valid index and, for the typed getters, the matching tag. The source performs no check and its behaviour there is undefined.
- Parser.JsonParser.GetArrayFieldLength: requires the parser's invariant, under which the tag always matches the payload. The source would misread a mismatched payload, which the invariant rules out.
