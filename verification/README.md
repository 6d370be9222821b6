# pokemon-api, modelled in Dafny

pokemon-api is a small HTTP service over a table of Pokémon. The table has a
fixed set of thirteen columns. It lives in memory as a map from Name to
record and is persisted to a comma-separated file. The service offers five
requests:

- get one record by name;
- page through the catalog, which is every record sorted by `#` and then by
  Name, fifty per page;
- create a record;
- update a record, which may rename it;
- delete a record.

Every write is validated column by column. Every successful write rewrites
the file and marks the sorted catalog out of date. The next catalog request
then sorts again.

The model follows `main.js` module by module:

- `decimal.dfy` (`Decimal`) models the integer printing and leading-integer
  scan behind `String(n)` and `parseInt`.
- `json.dfy` (`Json`) models primitive JSON values, loose `== ''` and
  `String(v)`.
- `text.dfy` (`Text`) models `split`, `join` and the string `<`.
- `schema.dfy` (`Schema`) models the `columns` table, the three validators
  and `toInt`.
- `request.dfy` (`Request`) models `validateDataForCreate`,
  `validateDataForUpdate` and `updateEntryData`.
- `store.dfy` (`Store`) models the request handlers as pure transitions of
  the store. It includes the rename step both as written and corrected.
- `catalog.dfy` (`Catalog`) models `convertMapToSortedList` as a stable
  insertion sort, paging, and the page guard both as written and corrected.
- `csv.dfy` (`Csv`) models `parseFile` and `saveCsvFile`, with the
  round-trip between them.
- `service.dfy` (`Service`) models the store, the cached catalog and the
  `dataNeedSorting` flag together. It proves that every request keeps two
  facts true:
  - each record is stored under its own Name;
  - whenever the flag is down, the cached list is a sorted catalog of the
    current store.

Three details of the code that the model keeps as written:

- Reading the file, the Legendary field is true only for the exact texts
  `True` and `true` (main.js:59); any other text, `TRUE` included, is false.
- Reading the file, an empty field becomes null in each of the second to
  fourth columns: Name, Type 1 and Type 2 (main.js:61-62).
- `#` and every statistic require a number of at least 1 (main.js:18-29),
  although the statistics' messages say "greater than 0".

## Model

| member | source | states |
|---|---|---|
| Decimal.ParseLeadingInt | main.js:250-262 | `parseInt` yields a number exactly when the text starts with a digit, or with a sign followed by a digit |
| Decimal.ParseIntToString | main.js:250-262 | scanning the printed form of any integer, followed by anything that is not a digit, gives the integer back |
| Decimal.ParseNegativeDigitsThen | main.js:143 | a minus sign followed by digits scans as the negated value, so `toInt("-2")` is -2 |
| Text.Split | main.js:51-54 | `split` yields at least one piece, no piece holds the separator, and joining the pieces gives the text back |
| Text.SplitJoin | main.js:71-83 | splitting a joined list recovers the list when no piece holds the separator |
| Text.LexLessTransitive | main.js:164-165 | the string `<` used as the tie-break is transitive |
| Text.LexLessTotal | main.js:164-165 | two different Names are always ordered one way or the other |
| Text.JoinSeparators | main.js:79 | `join` with a one-character separator that no piece holds puts exactly one separator between each two pieces, and the text starts with the first piece |
| Text.LexLessFirstDifference | main.js:164-165 | the string `<` holds exactly when the left string is a proper prefix of the right, or holds the smaller character at the first position where they differ |
| Decimal.IntToString | main.js:78-79 | `String(n)` for an integer of the model: non-empty, starting with a minus sign exactly for negatives, decimal digits otherwise (JavaScript switches to exponent form from 10^21 on) |
| Json.LooseEmptyIsLooseEquality | main.js:219-220 | `value == ''` holds exactly for the empty string, 0 and `false`, as the loose-equality steps of ECMA-262 decide; never for null |
| Json.JsString | main.js:128-133 | `String(v)` as a property key: null gives `null`, a string gives itself, a number gives a text that scans back to the number, a boolean gives `true` or `false` |
| Schema.ValidateString | main.js:214-224 | null or loosely empty is accepted exactly when null is allowed; anything else accepted is a string, non-empty when null is not allowed; an accepted string respects a positive maximum length; every non-empty string within the limit is accepted |
| Schema.ValidateInt | main.js:226-238 | null is accepted exactly when allowed; any other value is accepted exactly when it is a number within the optional bounds |
| Schema.ValidateBool | main.js:240-248 | accepted exactly for a boolean, or for null when null is allowed |
| Schema.ToInt | main.js:250-262 | the result is null or a number; the model's numbers, which stand for integers below 10^21 in magnitude, are kept; a string gives a number exactly when `parseInt` finds one, and then that number; null and booleans give null |
| Schema.ColumnIndex | main.js:17-32 | `columns[k]` finds the first column named `k`, and finds none when no column has that name |
| Schema.Validate | main.js:186 | a value a column's `validationFct` accepts has the column's type; null is accepted exactly when the column allows it |
| Schema.Format | main.js:176-177 | an integer column's formatted value is null or a number, and a value that passed validation is formatted to itself (for numbers below 10^21 in magnitude) |
| Schema.ColumnIndexOfName | main.js:17-31 | looking a column up by its own name finds that column, because the names are distinct |
| Schema.IntColumnsAcceptExactly | main.js:17-31 | the integer columns are `#` and Total to Generation, and each accepts exactly the numbers from 1 up |
| Schema.LegendaryAcceptsExactlyBooleans | main.js:30 | Legendary accepts exactly the booleans |
| Schema.RequiredTextColumnsAcceptExactly | main.js:19-20 | Name accepts exactly the non-empty strings of at most 45 characters; Type 1 those of at most 20 |
| Schema.TypeTwoAcceptsLooseEmpty | main.js:21 | Type 2 accepts null, strings of at most 20 characters, and also 0 and `false`, which are loosely equal to `''` |
| Request.Get | main.js:186 | `data[key]` is the value of the property's last occurrence in the body |
| Request.GetAbsent | main.js:186 | a property the body lacks reads as null |
| Request.FailedColumns | main.js:185-190 | the failing columns in column order, each exactly once: a column is listed exactly when its value fails |
| Request.ValidateForCreate | main.js:182-192 | create validation passes exactly when every column's value is valid, exactly when no message is collected; the messages are those of `FailedColumns`, in that order |
| Request.CreateMessagesInColumnOrder | main.js:185-191 | the create messages are exactly the failing columns' messages, one per failing column, in column order |
| Request.UsableFields | main.js:198-200 | the count of usable properties is zero exactly when no property names a column |
| Request.FieldFailures | main.js:198-206 | no messages exactly when every property naming a column is valid; each invalid one contributes its column's message, and each message comes from one |
| Request.FailedFields | main.js:198-204 | the failing properties' positions in body order, each exactly once: a position is listed exactly when its property names a column and fails that column's validator |
| Request.UpdateMessagesInBodyOrder | main.js:198-211 | the update messages are exactly the failing properties' messages, one per failing property, in body order |
| Request.ValidateForUpdate | main.js:194-212 | update validation passes exactly when at least one property names a column and every such property is valid; with none, the single no-usable-fields message is reported |
| Request.UpdateIgnoresUnknownKeys | main.js:198-199 | removing the properties that name no column does not change update validation |
| Request.NamedColumnField | main.js:198-206 | a column the body gives a non-null value for is written by `updateEntryData`, and after passing update validation that value is valid for the column |
| Request.KnownKeyValid | main.js:198-206 | after update validation passes, every field `updateEntryData` writes holds a value valid for its column |
| Request.UpdateEntryData | main.js:173-180 | the record gains exactly the body's properties that name a column, each formatted by its column; every other field keeps its value |
| Request.UnnamedFieldKept | main.js:173-180 | a field the body does not name reads the same before and after the merge |
| Store.GetPokemon | main.js:85-88 | a record is returned exactly when the name is stored, and it is the stored record |
| Store.DeletePokemon | main.js:90-97 | an unknown name is not found and nothing changes; otherwise exactly that key is removed and every other record is unchanged |
| Store.CreatePokemon | main.js:124-140 | refused exactly when validation fails, with the joined messages; a conflict exactly when the Name is already a key; success exactly when the body is valid and its Name is new; on success exactly the Name is added, holding the formatted body; nothing else changes |
| Store.CreateValidNameIsString | main.js:19 | a body that passes create validation has a Name that is a non-empty string of at most 45 characters |
| Store.UpdateValidNameIsString | main.js:105 | a body that passes update validation gives for Name either nothing or a non-empty string |
| Store.UpdatePokemonAsWritten | main.js:99-122 | unknown name is not found; refused exactly when update validation fails, with the joined messages; the store changes only on success, and then as `MergeAsWritten` |
| Store.MergeAsWritten | main.js:103-115 | a body Name equal to the path name answers success and leaves exactly the store without that name; with no body Name, or a different one, it is exactly the corrected `Merge` |
| Store.UpdatePokemon | main.js:99-122 | unknown name is not found; refused exactly when update validation fails, with the joined messages; the store changes only on success, and then as `Merge` |
| Store.Merge | main.js:103-115 | a conflict exactly when the body names another stored record; otherwise, without a rename, the keys stay the same and the record is merged in place; with a rename, the old key is replaced by the new one, which holds the merged record; every other record is unchanged |
| Store.RenamedRecordCarriesName | main.js:109-113 | after the merge, the record's Name field is the body's Name |
| Store.SelfRenameDropsRecord | main.js:105-112 | as written, updating a record with its own Name answers success and removes it from the store |
| Store.SelfRenameKeepsRecord | main.js:105-112 | corrected, the same request answers success and keeps every key |
| Store.CreateThenGet | main.js:124-135 | after a successful create, `getPokemon` of the new Name returns exactly the body's column properties, formatted |
| Store.CreateKeepsKeys | main.js:132-133 | create keeps every record stored under its own Name |
| Store.UpdateKeepsKeys | main.js:105-113 | the corrected update keeps every record stored under its own Name |
| Store.NameKeptWithoutRename | main.js:105-114 | a valid body without a Name leaves the record's Name as it was |
| Catalog.CompareAgreesWithBefore | main.js:160-168 | the comparator answers -1 exactly when the first record sorts before the second, 1 exactly when the second sorts first, and 0 exactly when `#` and Name are both equal |
| Catalog.BeforeTransitive | main.js:160-168 | the comparator's strict order is transitive |
| Catalog.BeforeTotal | main.js:160-168 | records whose `#` or Name differ are strictly ordered one way or the other |
| Catalog.Insert | main.js:160-168 | inserting into an ascending list gives an ascending list holding the same records plus the new one |
| Catalog.Sort | main.js:160-168 | the sorted list is ascending, is a permutation of its input, and has the same length |
| Catalog.SortedCatalog | main.js:155-171 | the catalog is ascending by `#` then Name, is a permutation of the store's values, has one entry per key, and holds exactly the stored records |
| Catalog.EnumerationCovers | main.js:157-159 | `Object.keys` lists as many keys as the store holds |
| Catalog.Page | main.js:148-150 | a page holds at most fifty entries; it is empty from position 50·p on; otherwise it holds exactly the entries from 50·p, as many as remain up to fifty |
| Catalog.PagesPartition | main.js:148-150 | entry i of the catalog is entry i mod 50 of page i div 50 |
| Catalog.JsSlice | main.js:150 | `slice` never yields more than the list, and within bounds it is the plain subsequence |
| Catalog.PageRequestAsWritten | main.js:142-153 | as written, the request is refused exactly when `toInt` finds no number, so negative numbers get through to `slice` |
| Catalog.PageRequest | main.js:142-153 | corrected, the request is refused exactly when the page text is not a non-negative integer; otherwise the reply is that page |
| Catalog.NegativePageServesFirstPage | main.js:144 | as written, page -2 of a 100-entry catalog replies with the first fifty entries; corrected, it is refused |
| Catalog.PageRequestAgrees | main.js:142-153 | as written and corrected give the same reply for every non-negative page |
| Csv.FieldsRoundTrip | main.js:75-79 | every field written for a carry-able record is plain and reads back as the record's value for its column |
| Csv.RowsAt | main.js:72-80 | after the header, line i of the file is the fields of the i-th enumerated record joined by commas, one line per key |
| Csv.CompletedOfKeys | main.js:55-66 | the records read back hold exactly the written keys, each with its record completed with nulls |
| Csv.DecodeField | main.js:57-64 | the last column is true exactly for `True` and `true`; columns 1 to 3 are null for the empty text and otherwise that text as a string; every other column goes through `toInt` |
| Csv.DecodeRow | main.js:55-65 | a line's record has exactly the column names as keys, each holding its decoded field |
| Csv.AddLine | main.js:55-66 | a line with fewer fields than columns leaves the store as it was; otherwise exactly one key, the line's Name as a property key, is added or replaced, every other record is unchanged, and the stored record has exactly the column names as keys, each holding its decoded field |
| Csv.HeaderIgnored | main.js:52 | the first line never becomes a record |
| Csv.FieldRoundTrip | main.js:57-79 | every value the file can carry reads back unchanged from its written field |
| Csv.LineRoundTrip | main.js:54-79 | a written line splits back into its fields and reads back as the record completed with nulls |
| Csv.AddLineRoundTrip | main.js:55-66 | reading back a written record stores its completed form under its key |
| Csv.RowsRoundTrip | main.js:50-80 | the written record lines, read back, give every record enumerated so far, completed |
| Csv.EncodeDecode | main.js:50-83 | the written file reads back as the same store, each record completed with nulls, when every value is one the file can carry and every record is under its own Name |
| Csv.SchemaNames | main.js:17-32 | the schema's names are distinct, on one line each, with Name second and Legendary last |
| Csv.SaveThenParse | main.js:50-83 | the file `saveCsvFile` writes reads back through `parseFile` as the same store, completed |
| Csv.EncodeField | main.js:78 | null and the empty string are written as the empty text, a string as itself, a number as text that scans back to it, a boolean as `true` or `false` |
| Csv.EncodeHeaderFirst | main.js:72 | the first line of the written file is the column names joined by commas |
| Csv.LinesOfEncoding | main.js:71-83 | when every value is one the file can carry, the written file splits into the header and then one line per enumerated record |
| Csv.SaveCsvFile | main.js:71-83 | the file `saveCsvFile` writes starts with the header line of the schema's column names |
| Csv.Decode | main.js:50-69 | every record read from a file is stored under its Name as a property key and has exactly one field per column |
| Csv.ParseFile | main.js:50-69 | `parseFile` gives a store whose records are under their Names and have exactly the schema's fields |
| Csv.DecodeLinesWellKeyed | main.js:55-66 | reading lines keeps every record stored under the key its Name gives |
| Csv.DecodeLinesColumns | main.js:54-66 | reading lines keeps every record holding exactly one field per column |
| Service.Load | main.js:50-69 | at start the store is the file's content, the flag is down, and the list is ascending, with one entry per key and exactly the stored records |
| Service.LoadEstablishesInvariant | main.js:34-37 | start-up establishes the service invariant |
| Service.Create | main.js:124-140 | a create replies as `createPokemon` does and raises the flag exactly on success |
| Service.Update | main.js:99-122 | an update replies as the corrected `updatePokemon` does and raises the flag exactly on success |
| Service.Delete | main.js:90-97 | a delete replies as `deletePokemon` does and raises the flag exactly on success |
| Service.CreateKeepsInvariant | main.js:124-140 | create keeps records under their own Names and a lowered flag truthful |
| Service.UpdateKeepsInvariant | main.js:99-122 | update keeps records under their own Names and a lowered flag truthful |
| Service.DeleteKeepsInvariant | main.js:90-97 | delete keeps records under their own Names and a lowered flag truthful |
| Service.CatalogRequest | main.js:142-153 | refused, and nothing changes, exactly when the page text is not a non-negative integer; otherwise the flag is down afterwards, the store is unchanged, and the reply is that page of the kept list; an up-to-date list is not re-sorted |
| Service.CatalogServesCurrentStore | main.js:144-150 | every served page comes from a sorted catalog of the store as it is now, and the invariant is kept |
| Service.CatalogsAgree | main.js:155-171 | any two catalogs of the same store are ascending and equally long, and hold the same records |

## Left out

- HTTP routing, status codes, response texts and JSON serialisation. Replies are the `Outcome` and `CatalogStep` values.
- Reading and writing the file system. `parseFile` and `saveCsvFile` work on the file's text.
- The order of `Object.keys`: integer-like keys first, then insertion order. It is a parameter `order`, and the model only requires it to list every key exactly once.
- Request bodies with repeated property names. A body is the own properties of a parsed JSON object, so its names are distinct. On distinct names the model agrees with the code; with repeats, the model checks each occurrence while the code checks only the last value.
- Non-primitive JSON values (arrays and objects) and fractional numbers.
- JavaScript numbers are doubles; a `Num` is an unbounded integer. The model is exact only for integers of magnitude below 2^53, and says nothing about the following:
  - integers from 2^53 up lose precision when the body is parsed or a file field is read;
  - from 10^21 up `toFixed(0)` (main.js:252) gives exponent form, so `toInt(1e21)` is 1: a create with `"HP": 1e21` passes `validateInt` (main.js:234-235) and stores HP as 1;
  - a body value such as `1e400` parses to Infinity, passes `validateInt` and becomes null through `toInt`;
  - a file field `100000000000000000000000` reads as 1e23, is written back as `1e+23` (main.js:78) and then reads back as 1.
- Schema.ToInt: keeps every number unchanged, which holds in the code only below 10^21 in magnitude, for the reason above.
- Schema.Format: formats a validated number to itself, which holds in the code only below 10^21 in magnitude, for the same reason.
- Decimal.IntToString: always prints decimal digits; `String(n)` in the code prints exponent form from 10^21 up.
- Decimal.ParseLeadingInt: reads only an optional sign followed by decimal digits. This is a modelling choice; `parseInt` also skips leading white space and reads a `0x` or `0X` prefix as hexadecimal. The texts it meets are client-chosen URL segments and file fields, so the model differs from the code on them: `/getPokemonCatalog/0x2` is page 2 for the code and page 0 for the model; a page text ` 1` (from `%201`) is page 1 for the code and refused by the model; an integer field written with a leading space reads as that integer in the code and as null in the model.
- Catalog.NameKey: a record whose Name is not a string sorts as if its Name were empty. The code's `<` on null would convert it, and such records arise only from a file line with an empty Name.
- Property names inherited from `Object.prototype` (`constructor`, `toString`, …), which `columns[key]` and `pokemonsMap[name]` would also find. The model's store and column table hold only their own entries.
- Strings are sequences of characters. UTF-16 code units are not modelled: the length of an astral character, and the order `<` gives it against characters from U+E000 to U+FFFF (by code unit in JavaScript, by character in `Text.LexLess`), differ.
- Values the file cannot carry do not round-trip, and `Csv.SaveThenParse` requires the record to be carry-able:
  - text holding a comma or a line break;
  - a Type 2 of 0 or `false`, which Type 2 validation accepts through loose `==`;
  - a Type 2 of `""`. It passes validation through loose `== ''` (main.js:219), is stored unformatted (main.js:177), is written as an empty field (main.js:78) and reads back as null (main.js:62).
- Service.Update: uses the corrected merge. The as-written merge is modelled and shown wrong in `Store`.
- Service.CatalogRequest: uses the corrected page guard, for the same reason.
- The per-line re-sort inside `parseFile` is left out. Only the last sort survives, so `Service.Load` sorts once.

## Findings

| source | as written | input that shows it | evidently intended | confidence | as-written member | corrected member |
|---|---|---|---|---|---|---|
| main.js:105-112 | the record is stored under the body's Name and then the path name is deleted, with no check that the two differ | `PUT /updatePokemon/Pikachu` with body `{"Name": "Pikachu"}` on a store holding Pikachu: the reply is success and Pikachu is gone | delete the old key only when the Name actually changes | not executed | Store.SelfRenameDropsRecord | Store.SelfRenameKeepsRecord |
| main.js:144 | the guard `page != null \|\| page < 0` admits every number, negatives included, and `slice` counts negative positions from the end | `GET /getPokemonCatalog/-2` on a catalog of 100 entries replies with entries 0 to 49 instead of 400 | `page != null && page >= 0` | not executed | Catalog.NegativePageServesFirstPage | Catalog.PageRequest |
