# soap-productos core in Dafny

This project models the core of `index.js` from the soap-productos service. The service takes product
records, each with an expiry date (`customerData.FechaVencimiento`) and a lead time in days
(`customerData.DiasRetiro`), plus a reference date `hoy`. It classifies each product against
`hoy` and returns three things:

- `porVencer`: the critical products;
- `vencidos`: the expired products;
- `todosConFlagBase64`: a Base64 table of `_id;flag` rows.

Before classification, `normalizarProductos` turns the incoming payload into a list of items.
The payload can be an array, a JSON text, a `;`-separated CSV text or a plain object.

Modules, one concern each:

- `Wrappers`, `Bytes`: `Option`, `Result` and the byte type.
- `Decimal`: `String(n)` and `padStart` for the digits of a date, with a parser that reads them back.
- `Calendar`: instants (milliseconds since 1970-01-01 UTC) and proleptic Gregorian civil dates.
  - Day numbers map to civil dates and back, with both round trips proved.
  - `date.setDate(date.getDate() + k)` is `AddDays`.
  - `formatDate` is `FormatDate`.
- `Utf8`: the byte encoding `Buffer.from(text)` applies. Its decoder is proved to invert it.
- `Base64`: the alphabet and padding of section 4 of RFC 4648. Encoder and decoder are proved to be inverse bijections.
- `JsonValues`: JSON values as `JSON.parse` returns them, and `Object.values`.
- `Filtering`: an order-preserving filter-and-map. This is the shape of a `forEach` that pushes a copy of each matching element.
- `Classifier`: `calcularProductos`.
  - The status rule, the enriched copies and the two buckets.
  - The flag table and its Base64 summary.
  - The imperative loop as the method `CalcularProductos`, which calls the `forEach` callback `ClasificarProducto`.
- `Normalizer`: `normalizarProductos`.
  - Shape dispatch and the JSON reading, including `Object.values` on whatever `JSON.parse` returned.
  - The CSV fallback, with its `""` to `"` unescape and the per-row JSON decoding.

`JSON.parse` and `csv-parse` are not modelled. They are parameters of the normalizer functions:
`jsonParse: string -> Option<Json>` and `csvParse: string -> Option<seq<map<string, string>>>`,
where `None` stands for the library throwing.

The code validates none of its inputs, and the model follows it:

- The code never rejects a lead time. A negative `DiasRetiro` places the withdrawal date after
  expiry (`Classifier.NegativeLeadTimeNeverCritical`). A fractional lead time is outside the model.
- The code never rejects a date. Dates enter the model as instants that are already valid.
- A JSON text whose value is not an array or an object still goes through `Object.values`.
  - A JSON string gives its characters.
  - A number or a boolean gives no items.
  - A JSON `null` makes `Object.values` throw inside the `try`, so the text is read as CSV instead.

## Model

| member | source | states |
|---|---|---|
| Decimal.NatToString | index.js:10-11 | `String(n)` for a whole number is a non-empty digit string. It has 1, 2, 3 or 4 digits exactly when n is below 10, 100, 1000 or 10000 respectively |
| Decimal.IntToString | index.js:12-13 | `String(year)` is non-empty. It starts with `-` exactly when the year is negative, and is all digits otherwise |
| Decimal.DigitsValueOfNatToString | index.js:10-11 | reading the digits of `String(n)` back gives n |
| Decimal.ParseIntToString | index.js:12-13 | the year text reads back as the year, for negative years too |
| Decimal.PadStart | index.js:10-11 | `padStart(width, fill)`: the result has length max(length, width), ends with the input and is fill characters before it |
| Decimal.PadTwoDigits | index.js:10-11 | for n < 100 the padded text is exactly two digits whose value is n (leading zero below 10) |
| Calendar.CivilFromDays | index.js:10-12 | every day number falls on a valid civil date (month 1..12, day within the month's length, leap years Gregorian) whose day number is that day number |
| Calendar.CivilFromDaysOfCivil | index.js:10-12 | the civil date of a valid date's day number is that date: getDate/getMonth/getFullYear invert the calendar |
| Calendar.CivilOfInstant | index.js:10-12 | the civil date an instant falls on is valid, and the instant lies within that date's 24 hours |
| Calendar.CivilOfInstantWithinDay | index.js:10-12 | every instant between a date's midnight and the next falls on that date |
| Calendar.AddDays | index.js:26 | no contract; `setDate(getDate() + k)` on a UTC instant, whose properties are stated by Calendar.AddDaysCivil |
| Calendar.AddDaysCivil | index.js:25-26 | `setDate(getDate() + k)` keeps the time of day and moves the civil date by exactly k days, rolling months and years over |
| Calendar.SubtractDaysWithinMonth | index.js:25-26 | moving back k < day days stays in the same month and subtracts k from the day |
| Calendar.DashJoin | index.js:13 | the `${d}-${m}-${y}` template: dashes at positions 2 and 5 with the three fields between and after them |
| Calendar.FormatCivil | index.js:9-14 | the text of a date has dashes at positions 2 and 5 and two digits before each. It has length 10 for four-digit years and 6 plus the year text's length otherwise |
| Calendar.FormatDate | index.js:9-14 | `formatDate` gives at least 7 characters with dashes at positions 2 and 5 |
| Calendar.FormatDateWithinDay | index.js:9-14 | `formatDate` writes the same text for every instant of one civil day |
| Calendar.ParseFormatCivil | index.js:9-14 | the dd-mm-yyyy text reads back as the date's day, month and year |
| Calendar.FormatDateReadsBack | index.js:9-14 | `formatDate(t)` reads back as the day, month and year of the civil date t falls on |
| Utf8.EncodeChar | index.js:61 | a character takes 1 to 4 bytes, one byte exactly for ASCII, and every byte after the first is a continuation byte |
| Utf8.Encode | index.js:61 | the bytes of `Buffer.from(text)` are at least as many as the characters (a size bound; the encoding itself is characterised by Utf8.DecodeEncode) |
| Utf8.DecodeFirstOfEncodeChar | index.js:61 | the first character decoded from a character's bytes, whatever follows, is that character, taking exactly its bytes |
| Utf8.DecodeEncode | index.js:61 | UTF-8 decoding of `Buffer.from(text)` gives the text back |
| Utf8.EncodeAscii | index.js:61 | ASCII text encodes to one byte per character, equal to the character code |
| Base64.SextetChar | index.js:61 | a 6-bit value maps to an alphabet character, never the pad `=` |
| Base64.CharSextetOfSextetChar | index.js:61 | the alphabet is injective: a character reads back as its 6-bit value |
| Base64.SextetCharOfCharSextet | index.js:61 | every alphabet character is the image of its value |
| Base64.EncodeGroup | index.js:61 | three bytes become four alphabet characters, none of them the pad `=` |
| Base64.Encode | index.js:61 | `toString('base64')` has length 4 * ceil(n / 3) for n bytes |
| Base64.DecodeGroup | index.js:61 | a 4-character group decodes to 1 to 3 bytes, and to exactly 3 when it is not the last group |
| Base64.DecodeEncode | index.js:61 | decoding the Base64 text gives the bytes back |
| Base64.EncodeDecode | index.js:61 | every text the decoder accepts is the encoding of the bytes it decodes to (canonical padding and zero pad bits) |
| Base64.EncodeConcatGroup | index.js:61 | the encoding of 3 bytes followed by more is the group's encoding followed by the rest's |
| JsonValues.Values | index.js:74 | `Object.values`: one value per member, the i-th value being the i-th member's value |
| Filtering.FilterSnoc | index.js:21-51 | one more `forEach` step appends f(x) exactly when x passes the test |
| Filtering.FilterInOrder | index.js:21-51 | the filtered list is f of the passing elements at strictly ascending input positions, and every passing position is listed |
| Filtering.FilterContains | index.js:47-51 | f of a passing element is in the filtered list |
| Filtering.FilterFrom | index.js:47-51 | every element of the filtered list is f of some passing input element |
| Classifier.LeadDays | index.js:23 | `DiasRetiro \|\| 0`; its contract only spells out the defaulting. What the lead time does is stated by Classifier.FechaRetiroSameTimeOfDay (the withdrawal lies that many days before expiry) and Classifier.ZeroLeadTime (a missing lead time makes the withdrawal the expiry instant) |
| Classifier.DiasRestantes | index.js:24 | the days remaining are negative exactly when expiry lies before `hoy` |
| Classifier.DiasRestantesIsFloor | index.js:24 | `Math.floor` of the millisecond difference over one day: d whole days fit into the difference and d + 1 do not |
| Classifier.DiasRestantesWholeDays | index.js:24 | for instants at the same time of day the days remaining are exactly the difference of the day numbers |
| Classifier.FechaRetiro | index.js:25-26 | no contract; the copy of the expiry moved back DiasRetiro days, whose properties are stated by Classifier.FechaRetiroSameTimeOfDay |
| Classifier.FechaRetiroSameTimeOfDay | index.js:25-26 | the withdrawal instant is DiasRetiro civil days before expiry, at the same time of day |
| Classifier.EstadoOf | index.js:28-35 | no contract; the status chain, whose properties are stated by Classifier.EstadoRule, Classifier.ZeroLeadTime and Classifier.NegativeLeadTimeNeverCritical |
| Classifier.EstadoRule | index.js:28-35 | exactly one status holds. VENCIDO iff expiry is before `hoy`. CRITICO iff not expired and `hoy` has reached the withdrawal instant. NORMAL iff neither |
| Classifier.ZeroLeadTime | index.js:23-35 | with a zero or missing lead time the withdrawal is the expiry instant, and CRITICO holds only at expiry itself |
| Classifier.NegativeLeadTimeNeverCritical | index.js:23-35 | a negative lead time can never make a product CRITICO |
| Classifier.Calcular | index.js:37-45 | no contract; the `calculado` record, whose contents are stated by Classifier.EnrichedCopy and Classifier.CalcularProducto |
| Classifier.Enrich | index.js:37-45 | no contract; `{ ...producto, calculado }`, whose properties are stated by Classifier.EnrichedCopy |
| Classifier.EnrichedCopy | index.js:37-45 | the enriched record is the product with only `calculado` set, and that holds the product's own status and days remaining. A well-formed product stays well-formed |
| Classifier.Bucket | index.js:47-51 | no contract; the enriched copies of the products of one status, whose properties are stated by Classifier.BucketInInputOrder, Classifier.BucketMembership and Classifier.BucketRecord |
| Classifier.BucketInInputOrder | index.js:21-51 | each bucket lists the enriched copies of the products with its status at strictly ascending input positions, none missing |
| Classifier.BucketMembership | index.js:28-51 | a product's enriched copy is in a bucket iff its status is the bucket's status |
| Classifier.BucketRecord | index.js:47-51 | every bucket record is the enriched copy of an input product of the bucket's status and carries that status |
| Classifier.BucketsDisjoint | index.js:47-51 | no record is in both `porVencer` and `vencidos` |
| Classifier.BucketsPartition | index.js:28-35 | the expired, critical and normal counts add up to the number of products |
| Classifier.BucketSizes | index.js:21-51 | `porVencer` and `vencidos` together are no longer than the input |
| Classifier.BucketSnoc | index.js:47-51 | processing one more product appends its enriched copy to the bucket of its status and to no other |
| Classifier.FlagRows | index.js:55-58 | one row per product in input order; its contract only spells out the row layout. What each flag means in terms of the input statuses is stated by Classifier.FlagRowsByStatus |
| Classifier.FlagRowsByStatus | index.js:55-58 | row i of the table written for the two buckets is the i-th `_id`, a `;` and `true` exactly when some input product with that `_id` is VENCIDO or CRITICO, `false` otherwise |
| Classifier.HasId | index.js:56 | no contract; `bucket.some(r => r._id === id)`, whose meaning is stated by Classifier.BucketHasId |
| Classifier.Flagged | index.js:56 | no contract; the flag of one row, whose meaning is stated by Classifier.FlagMeaning |
| Classifier.JoinLines | index.js:58 | no contract; `lines.join('\n')`, whose inverse is stated by Classifier.SplitJoinLines |
| Classifier.FlagText | index.js:57-60 | no contract; the CSV text, whose line structure is stated by Classifier.FlagTextLines |
| Classifier.FlagSummary | index.js:60-61 | no contract; `todosConFlagBase64`, which Classifier.FlagSummaryDecodes proves decodes back to the CSV text |
| Classifier.BucketHasId | index.js:56 | `bucket.some(r => r._id === id)` holds iff some input product with that `_id` has the bucket's status |
| Classifier.FlagMeaning | index.js:55-58 | a row's flag is true iff some input product with the same `_id` is VENCIDO or CRITICO |
| Classifier.FlagOfDistinctIds | index.js:55-58 | with distinct `_id`s, a row's flag is true iff its own product is VENCIDO or CRITICO |
| Classifier.SharedIdFlagged | index.js:55-58 | a NORMAL product that shares its `_id` with a VENCIDO or CRITICO product is flagged true |
| Classifier.SplitLines | index.js:58 | (reader-side partner of `join('\n')`, not in the code) splitting text at newlines yields at least one line |
| Classifier.SplitJoinLines | index.js:58 | splitting `lines.join('\n')` at newlines gives the lines back, for non-empty newline-free lines |
| Classifier.SplitLinesPrefix | index.js:60 | a newline-free prefix is glued onto the first line of what follows |
| Classifier.SplitLinesNewline | index.js:60 | (helper for Classifier.FlagTextLines) a leading newline contributes one empty line |
| Classifier.NoNewlineConcat | index.js:57 | (helper for Classifier.FlagRowsNoNewline) joining two newline-free texts gives a newline-free text |
| Classifier.FlagRowsNoNewline | index.js:55-58 | rows built from newline-free `_id`s contain no newline |
| Classifier.FlagTextLines | index.js:55-60 | the CSV text reads line by line as the header `id;flag`, then exactly the rows in input order (one empty line when there are no products) |
| Classifier.FlagSummaryDecodes | index.js:60-61 | Base64-decoding `todosConFlagBase64` and then UTF-8-decoding the bytes gives the CSV text back |
| Classifier.JanuaryText | index.js:9-14 | 5 January of year y formats as `05-01-y` and 10 January as `10-01-y` |
| Classifier.ExampleCritico | index.js:21-45 | an item expiring 10 January with DiasRetiro 5, at 6 January: 4 days left, withdrawal `05-01-y`, expiry `10-01-y`, CRITICO |
| Classifier.ExampleVencido | index.js:24-30 | the same item at 12 January: -2 days left, VENCIDO |
| Classifier.ExampleNormal | index.js:24-60 | the same item at 1 January: 9 days left, NORMAL, in neither bucket, flag row `A1;false` |
| Classifier.CalcularProducto | index.js:22-45 | the callback's first half computes the days remaining and the withdrawal instant as the status rule defines them, and builds exactly the enriched copy of the product |
| Classifier.ClasificarProducto | index.js:21-52 | the `forEach` callback appends the product's enriched copy to `porVencer` when its status is CRITICO, to `vencidos` when VENCIDO, and leaves both unchanged otherwise |
| Classifier.CalcularProductos | index.js:16-66 | the loop leaves `porVencer` and `vencidos` equal to the critical and expired buckets of the input, and `todosConFlagBase64` equal to the Base64 of the UTF-8 flag text over those buckets |
| Normalizer.Unescape | index.js:83-84 | `replace(/""/g, '"')` never lengthens a cell |
| Normalizer.Escape | index.js:83-84 | (partner of the unescape, not in the code) quote doubling never shortens a text |
| Normalizer.UnescapeEscape | index.js:83-84 | unescaping undoes quote doubling |
| Normalizer.UnescapeWithoutDoubled | index.js:83-84 | a cell without `""` passes through unchanged |
| Normalizer.UnescapeShrinks | index.js:83-84 | a cell with a `""` gets strictly shorter |
| Normalizer.UnescapeQuoteRuns | index.js:83-84 | matches do not overlap: `"""` becomes `""` and `""""` becomes `""` |
| Normalizer.ObjectValues | index.js:74 | `Object.values` on a parsed value; its contract only spells out its cases. What the JSON reading yields for each kind of text is stated by Normalizer.JsonTextPath |
| Normalizer.RowItem | index.js:81-85 | a row rebuilds iff both data columns exist and their unescaped cells parse, giving `{ _id, customerData, mbData }` with the parsed cells |
| Normalizer.RowItems | index.js:81-85 | a successful `rows.map` has one item per row |
| Normalizer.RowItemsOk | index.js:81-85 | the mapping succeeds iff every row does, and item i is then row i rebuilt: nothing is dropped or reordered |
| Normalizer.RowItemsFirstError | index.js:81-85 | a failed mapping reports the error of the first failing row, all earlier rows having succeeded |
| Normalizer.RowItemsNeverUnrecognized | index.js:81-85 | the CSV mapping never reports an unrecognised format |
| Normalizer.FromCsv | index.js:75-86 | the CSV fallback; its contract only spells out its two cases. What a CSV text yields (success iff every row rebuilds, one item per row in order) is stated by Normalizer.CsvTextPath |
| Normalizer.FromText | index.js:71-86 | no contract; the string branch, whose results are stated by Normalizer.JsonTextPath, Normalizer.CsvTextPath and Normalizer.FromTextNeverUnrecognized |
| Normalizer.FromTextNeverUnrecognized | index.js:71-86 | the string branch never reports an unrecognised format |
| Normalizer.Normalize | index.js:68-92 | no contract; `normalizarProductos`, whose dispatch is stated by Normalizer.NormalizeDispatch |
| Normalizer.NormalizeDispatch | index.js:68-92 | an array comes back unchanged and an object as its values in member order. The format is rejected iff the payload is null, a number or a boolean |
| Normalizer.JsonTextPath | index.js:71-86 | a JSON text gives its array, its object's values, its string's characters, or no items for a number or boolean. Unparsable text and a JSON null go to the CSV reading |
| Normalizer.CsvTextPath | index.js:75-86 | CSV text succeeds iff every row rebuilds. Then it gives one item per row, in row order, holding the row's `_id` (when present) and its parsed customerData and mbData |

## Left out

- The Express app, the SOAP service object, WSDL loading and `listen` (index.js:1-7, 93-157) are transport plumbing.
- The `try/catch` that turns any exception into a JSON error string (index.js:97-121) is transport framing. The normalizer returns a `Result` instead.
- `console.log` output (index.js:63) is a side effect only.
- Date parsing (`new Date(hoyISO)`, `new Date(FechaVencimiento)`, index.js:17, 22) is not modelled.
  - Dates enter as integer instants in milliseconds.
  - Unparsable dates (`NaN`) are not modelled.
  - The ±8.64e15 ms range limit of JavaScript dates is not modelled.
- The local time zone and daylight saving are not modelled. `getDate`, `getMonth`, `getFullYear` and `setDate` are read in UTC, where a day is always 86,400,000 ms.
- A fractional, string-valued or otherwise non-integer `DiasRetiro` is not modelled. A lead time is an optional integer, and every falsy value is `None`.
- The conversion of the normalizer's JSON items into the classifier's typed `Product` is not modelled.
  - `Product` keeps the `_id`, the two `customerData` fields the classifier reads, every other member, and `calculado`.
  - A non-string `_id` is not modelled.
  - An item with no `customerData` object makes `producto.customerData.FechaVencimiento` throw a TypeError (index.js:22). Examples are the one-character strings a JSON-string payload yields and a CSV row whose customerData cell is `null`. Every `Product` has a `customerData`, so this exception is outside the model.
  - `Product.others` is an unordered map. The member order of `{ ...producto, calculado }` is therefore not modelled. `Classifier.WellFormed` says that `others` holds no `_id`, `customerData` or `calculado` key, and `Classifier.EnrichedCopy` shows that enrichment keeps this property.
- `JSON.parse` and `csv-parse` are parameters, not implementations. This covers the `;` delimiter, the header row and `skip_empty_lines`.
- Object member order is kept as parsed. The JavaScript rule that integer-like keys are listed first is not modelled.
- Fractional JSON numbers are not representable in the model: a number is `JNumber(int)`. The code passes any number through, a `DiasRetiro` of 2.5 included.
- The payload `raw` is a `Json` value, which cannot be `undefined`. The code rejects an `undefined` payload as an unrecognised format (index.js:91), and the model has no such input.
- A missing `_id` column gives `_id: undefined` in the source. The model omits the member, since undefined has no JSON value.
- Text is a sequence of Unicode scalar values rather than UTF-16 code units.
  - `Object.values` of a string gives one item per character, not per code unit.
  - `Buffer.from` on lone surrogates (which it replaces by U+FFFD) is not modelled.
- The final `JSON.stringify` of the result is done by the transport layer and is not modelled.
