# cypher-csv-header in Dafny

A model of the core of cypher-csv-header, a small generator that turns
the header line of a CSV file into a Cypher `LOAD CSV ... WITH ... CREATE`
query. The header is written in the Neo4j import tool's header format.
The model has three parts.

- **Attribute parsers.** `CsvHeaderField.parse` matches one attribute,
  such as `name:Type(IDSPACE)[]`, against `FIELD_PATTERN`. The older
  `CsvField.from` has an `:IGNORE` rule, an identifier grammar and a plain
  grammar. Each regular expression is written as a recogniser. Beside it
  stands an independent reading of the pattern: the text equals the
  captured groups with the literal characters between them, plus the
  final line terminator that a non-multiline `$` tolerates. The
  recogniser is proved sound and complete against that reading.
- **Header splitters.** `CsvHeaderFields.processHeader` and
  `CsvHeader.processHeader` split the header on the literal field
  terminator, with Java's `String.split` rule that drops trailing empty
  pieces. They then parse each piece with its raw position.
- **Query generator.** `CsvHeaderToCypherConverter` builds the query from
  the conversion templates, the `WITH` projection, the labels, the
  property map, the node `CREATE` clause and the relationship
  `MATCH`/`CREATE` clause.
  - The generated text is related to its inputs by a reader,
    `QuotedText.QuotedNames`, which lists the backtick-quoted names of a
    text in order.
  - For nodes, the lemmas show what a query names: every identifier
    bound by `WITH`, then the labels (the given ones and the id-space
    label), then every identifier twice in the property map.
  - For relationships, they show the same, with the endpoint keys and
    properties and the relationship type between.

Module layout follows the Java classes: `Constants` (`Constants.java`),
`HeaderField` (`CsvHeaderField.java`), `HeaderFields`
(`CsvHeaderFields.java`), `Field` (`CsvField.java`), `Header`
(`CsvHeader.java`), `LoaderConfig` (`CsvLoaderConfig.java`) and
`Converter` (`CsvHeaderToCypherConverter.java`).

`JavaText` holds the parts of the Java library the code relies on:
`String.split`, `replaceAll` of a single character, ASCII case mapping,
`endsWith`, `%d`, and the `$` anchor. `QuotedText` is the reader of
generated names. `Wrappers` holds `Option` and `Result`.

Where the code throws, the model returns a `Result`:
- `CsvHeaderField.parse` on text that `FIELD_PATTERN` does not match reaches `Matcher.group` after a failed `find`. That throws `IllegalStateException`, which `extractGroup` does not catch. The model returns `NoMatchFound`.
- `CsvField.from` throws `IllegalStateException` with the raw attribute. The model returns `NotWellFormed(attribute)`.

A Java `null` or `Optional.empty()` is `None`.

Some names the code uses are not defined in the repository at this revision. The model treats them as follows:
- The converter reads `config.isSkipHeaders()` (`CsvHeaderToCypherConverter.java:61`), which `CsvLoaderConfig` lacks. The model's configuration has a `skipHeaders` flag with default true and a builder setter for it.
- `Constants.LABEL_FIELD` and `TYPE_FIELD` are taken as `"LABEL"` and `"TYPE"`.
- `Constants.getPostfix` is a function-valued parameter `postfix`.

## Model

| member | source | states |
|---|---|---|
| JavaText.Split | src/main/java/hu/bme/mit/cch/CsvHeaderFields.java:20-21 | `split` on the quoted terminator: the pieces are a prefix of the pieces cut at every terminator, no piece holds the terminator, a text without the terminator is its own single piece, and the last piece is never empty |
| JavaText.SplitRebuild | src/main/java/hu/bme/mit/cch/CsvHeaderFields.java:21 | joining the pieces with the terminator rebuilds the header, except for trailing terminators |
| JavaText.JoinSplitAll | src/main/java/hu/bme/mit/cch/CsvHeaderFields.java:21 | cutting at every terminator and joining back gives the text |
| JavaText.SplitAllJoin | src/main/java/hu/bme/mit/cch/CsvHeaderFields.java:21 | joining terminator-free pieces and cutting again gives the pieces |
| JavaText.SplitTrailingSeparator | src/main/java/hu/bme/mit/cch/CsvHeaderFields.java:21 | a terminator added to the end of a non-empty text does not change the split |
| JavaText.SplitEmpty | src/main/java/hu/bme/mit/cch/CsvHeaderFields.java:21 | the split is empty exactly for a non-empty text made of terminators only |
| JavaText.RemoveChar | src/main/java/hu/bme/mit/cch/CsvHeaderField.java:57 | quote removal: no quotation character is left, every other character keeps its count, and a text without the character is unchanged |
| JavaText.RemoveCharConcat | src/main/java/hu/bme/mit/cch/CsvField.java:52 | quote removal works piece by piece over a concatenation |
| JavaText.BeforeDollar | src/main/java/hu/bme/mit/cch/Constants.java:9 | the text a `^...$` pattern must span is a prefix, and what follows it is a tail `$` accepts |
| JavaText.BeforeDollarOf | src/main/java/hu/bme/mit/cch/Constants.java:9 | a core followed by an accepted tail is recovered exactly |
| JavaText.ToUpper | src/main/java/hu/bme/mit/cch/CsvField.java:54 | `toUpperCase` maps each character, keeping the length: a-z, the dotless i and the long s to their upper case, every other character to itself |
| JavaText.ToLower | src/main/java/hu/bme/mit/cch/Constants.java:19-21 | `toLowerCase` maps each character, keeping the length |
| JavaText.IntToString | src/main/java/hu/bme/mit/cch/CsvHeaderToCypherConverter.java:134 | `%d` prints decimal digits (after a minus for a negative number) whose value is the number |
| JavaText.DecimalRoundTrip | src/main/java/hu/bme/mit/cch/CsvHeaderToCypherConverter.java:134 | reading the printed digits back gives the number |
| Constants.IdProperties | src/main/java/hu/bme/mit/cch/Constants.java:18-21 | the id properties are `__csv_idid`, `__csv_idstart_id` and `__csv_idend_id`, pairwise distinct |
| Constants.MatchFieldPattern | src/main/java/hu/bme/mit/cch/Constants.java:9-10 | a match has a colon-free name, a non-empty `\w+` type, an optional non-empty `\w+` id space, and an array group that can only be `[]` |
| Constants.MatchFieldPatternSound | src/main/java/hu/bme/mit/cch/Constants.java:9 | whatever the recogniser returns is a match of the pattern |
| Constants.MatchFieldPatternComplete | src/main/java/hu/bme/mit/cch/Constants.java:9 | every match of the pattern is the one the recogniser returns |
| Constants.MatchFieldPatternNone | src/main/java/hu/bme/mit/cch/Constants.java:9 | the recogniser finds nothing exactly when the pattern has no match |
| HeaderField.Parse | src/main/java/hu/bme/mit/cch/CsvHeaderField.java:56-72 | the index is kept; name and type are free of the quotation character; the type is `\w+` and the name colon-free; a LABEL field is an array |
| HeaderField.IsMeta | src/main/java/hu/bme/mit/cch/CsvHeaderField.java:43-46 | a field is a meta column exactly when its type is LABEL or TYPE; LabelExample shows `:LABEL` is one |
| HeaderField.QuoteFreeGroups | src/main/java/hu/bme/mit/cch/CsvHeaderField.java:57-63 | groups of a match of quote-free text hold no quotation character |
| HeaderField.ParseMatched | src/main/java/hu/bme/mit/cch/CsvHeaderField.java:57-71 | when the pattern matches the quote-free text with some groups, parse returns exactly those groups, and it is an array iff the array group took part or the type is LABEL |
| HeaderField.ParseFails | src/main/java/hu/bme/mit/cch/CsvHeaderField.java:59-64 | parse fails exactly when the pattern has no match on the quote-free text |
| HeaderField.ParseArrayExample | src/test/java/hu/bme/mit/cch/CsvHeaderFieldTests.java:9-18 | `name:Type(IDSPACE)[]` parses to name, type, id space, array |
| HeaderField.ParseScalarExample | src/test/java/hu/bme/mit/cch/CsvHeaderFieldTests.java:21-30 | `name:Type(IDSPACE)` parses the same but not as an array |
| HeaderField.LabelExample | src/main/java/hu/bme/mit/cch/CsvHeaderField.java:66-69 | `:LABEL` parses to an array without `[]`, and it is a meta column (lines 43-46) |
| HeaderField.PlainNameExample | src/main/java/hu/bme/mit/cch/CsvHeaderField.java:59-64 | `name`, with no colon, does not parse |
| HeaderField.NoColon | src/main/java/hu/bme/mit/cch/CsvHeaderField.java:57-64 | an attribute without a colon never parses, for every quotation character, and fails with NoMatchFound |
| HeaderFields.ProcessHeader | src/main/java/hu/bme/mit/cch/CsvHeaderFields.java:19-28 | one field per split piece, the i-th with index i |
| HeaderFields.ParsePieces | src/main/java/hu/bme/mit/cch/CsvHeaderFields.java:23-26 | parse each piece at its position and stop at the first failure; ParsePiecesSpec and ParsedPieces state what it gives |
| HeaderFields.ParsePiecesSpec | src/main/java/hu/bme/mit/cch/CsvHeaderFields.java:23-26 | the pieces succeed together exactly when every piece parses at its position; then as many fields as pieces, numbered from the start |
| HeaderFields.ParsedPieces | src/main/java/hu/bme/mit/cch/CsvHeaderFields.java:23-26 | on success there is one field per piece, piece i parses at its position and field i is what parse gives for it |
| HeaderFields.EmptyHeaderFails | src/main/java/hu/bme/mit/cch/CsvHeaderFields.java:21-25 | an empty header fails |
| HeaderFields.NoFields | src/main/java/hu/bme/mit/cch/CsvHeaderFields.java:21-26 | no fields at all exactly for a non-empty header of terminators only |
| HeaderFields.TrailingTerminator | src/main/java/hu/bme/mit/cch/CsvHeaderFields.java:21 | a trailing terminator adds no field |
| Field.Message | src/main/java/hu/bme/mit/cch/CsvField.java:81 | the error message quotes the raw attribute, which can be read back from it |
| Field.MatchMarker | src/main/java/hu/bme/mit/cch/CsvField.java:60 | the alternation finds one of ID, START_ID, END_ID at the start of the text |
| Field.MatchMarkerOf | src/main/java/hu/bme/mit/cch/CsvField.java:60 | the written marker is the one found |
| Field.MatchIdentifier | src/main/java/hu/bme/mit/cch/CsvField.java:59-62 | a match has a `[-a-zA-Z]*` name, a marker and an optional `[-a-zA-Z]+` id space |
| Field.MatchIdentifierSound | src/main/java/hu/bme/mit/cch/CsvField.java:59-62 | what the recogniser returns matches the identifier grammar |
| Field.MatchIdentifierComplete | src/main/java/hu/bme/mit/cch/CsvField.java:59-62 | every match of the identifier grammar is the one returned |
| Field.IdentifierNone | src/main/java/hu/bme/mit/cch/CsvField.java:59-62 | no identifier match exactly when the grammar has none |
| Field.MatchPlain | src/main/java/hu/bme/mit/cch/CsvField.java:72-73 | a match has a `[-a-zA-Z]+` name, an optional `[-a-zA-Z]+` type, and `[]` only after a type |
| Field.MatchPlainSound | src/main/java/hu/bme/mit/cch/CsvField.java:72-73 | what the recogniser returns matches the plain grammar |
| Field.MatchPlainComplete | src/main/java/hu/bme/mit/cch/CsvField.java:72-73 | every match of the plain grammar is the one returned |
| Field.PlainNone | src/main/java/hu/bme/mit/cch/CsvField.java:72-73 | no plain match exactly when the grammar has none |
| Field.MatchGrammars | src/main/java/hu/bme/mit/cch/CsvField.java:58-81 | the grammars yield a field with the given index, or the error naming the raw attribute |
| Field.IsIgnored | src/main/java/hu/bme/mit/cch/CsvField.java:54 | the upper-cased text ends in `:IGNORE`; FromAsWritten and HeaderDropsIgnored state what it decides |
| Field.FromAsWritten | src/main/java/hu/bme/mit/cch/CsvField.java:51-82 | as written: dropped exactly when the raw attribute, upper-cased, ends in `:IGNORE`; a field keeps its index; a failure names the raw attribute |
| Field.From | src/main/java/hu/bme/mit/cch/CsvField.java:51-82 | corrected: dropped exactly when the quote-free attribute ends in `:IGNORE`; a field keeps its index; the error names the raw attribute |
| Field.FromIdentifier | src/main/java/hu/bme/mit/cch/CsvField.java:62-69 | corrected: an identifier match gives type = marker, name = postfix of the id space, not an array, the id space kept; FromAsWrittenFields is the as-written counterpart |
| Field.FromPlain | src/main/java/hu/bme/mit/cch/CsvField.java:71-79 | corrected: a plain match (and no identifier match) gives the name, the type or `STRING`, array iff `[]`, no id space; FromAsWrittenFields is the as-written counterpart |
| Field.FromMalformed | src/main/java/hu/bme/mit/cch/CsvField.java:54-81 | corrected: from fails exactly when the quote-free attribute is not ignored and neither grammar matches; FromAsWrittenMalformed is the as-written counterpart |
| Field.IdentifierPrecedence | src/main/java/hu/bme/mit/cch/CsvField.java:58-73 | `x:ID` matches both grammars and is always read as an identifier field |
| Field.BothGrammars | src/main/java/hu/bme/mit/cch/CsvField.java:59-73 | `x:ID` is quote-free, not ignored, and matched by both grammars |
| Field.NotIgnoredIdentifier | src/main/java/hu/bme/mit/cch/CsvField.java:54-69 | an identifier attribute never ends in `:IGNORE` |
| Field.FromQuoteFree | src/main/java/hu/bme/mit/cch/CsvField.java:52-81 | corrected: removing quotation characters first changes neither success nor the field; as written this holds whenever the IGNORE test is unchanged (FromAsWrittenAgrees) |
| Field.ErrorTextOnly | src/main/java/hu/bme/mit/cch/CsvField.java:81 | the raw attribute shows only in the error |
| Field.FromAgrees | src/main/java/hu/bme/mit/cch/CsvField.java:52-56 | without quotation characters the code as written and the corrected rule agree |
| Field.FromAsWrittenAgrees | src/main/java/hu/bme/mit/cch/CsvField.java:52-56 | whenever quote removal does not change whether the attribute ends in `:IGNORE`, the code as written gives what the corrected rule gives, so every lemma about the corrected rule applies to it |
| Field.FromAsWrittenMalformed | src/main/java/hu/bme/mit/cch/CsvField.java:54-81 | as written, from fails exactly when the raw attribute is not ignored and neither grammar reads the quote-free text |
| Field.FromAsWrittenFields | src/main/java/hu/bme/mit/cch/CsvField.java:58-79 | as written, an attribute the raw IGNORE test passes over gives the identifier field of any identifier reading, or else the plain field of any plain reading, of the quote-free text |
| Field.DotlessIgnored | src/main/java/hu/bme/mit/cch/CsvField.java:54 | `x:ıgnore` ends in `:IGNORE` once upper-cased |
| Field.QuotedIgnore | src/main/java/hu/bme/mit/cch/CsvField.java:52-56 | `"x:IGNORE"` in quotes is parsed as written as a field of type IGNORE, while the corrected rule drops it |
| Header.ProcessHeader | src/main/java/hu/bme/mit/cch/CsvHeader.java:20-30 | at most one field per piece, each index a piece position, indices strictly increasing |
| Header.Entries | src/main/java/hu/bme/mit/cch/CsvHeader.java:25-26 | entry i is `from`, as written, on piece i at index i |
| Header.Present | src/main/java/hu/bme/mit/cch/CsvHeader.java:27 | succeeds exactly when every entry does, with no more fields than entries |
| Header.PresentIndices | src/main/java/hu/bme/mit/cch/CsvHeader.java:24-27 | the kept fields keep their raw positions, in increasing order |
| Header.PresentKeeps | src/main/java/hu/bme/mit/cch/CsvHeader.java:27 | every present entry is kept |
| Header.PresentOnly | src/main/java/hu/bme/mit/cch/CsvHeader.java:27 | every kept field is a present entry |
| Header.PresentShorter | src/main/java/hu/bme/mit/cch/CsvHeader.java:27 | fewer fields than entries exactly when some entry is empty |
| Header.PresentFirstFailure | src/main/java/hu/bme/mit/cch/CsvHeader.java:27 | a failure carries the error of the first failing entry |
| Header.HeaderFieldsArePieces | src/main/java/hu/bme/mit/cch/CsvHeader.java:24-27 | each field is what `from`, as written, makes of the piece at its index, and every field it makes is kept |
| Header.HeaderDropsIgnored | src/main/java/hu/bme/mit/cch/CsvHeader.java:24-27 | fewer fields than pieces exactly when some piece, as it stands (quotes included), ends in `:IGNORE` once upper-cased |
| Header.HeaderFails | src/main/java/hu/bme/mit/cch/CsvHeader.java:26-27 | the call fails exactly when `from` fails on some piece |
| Header.HeaderFirstMalformed | src/main/java/hu/bme/mit/cch/CsvHeader.java:26-27 | a failure names the first malformed piece, every earlier piece being fine |
| Header.CorrectedHeader | src/main/java/hu/bme/mit/cch/CsvHeader.java:20-30 | the same pipeline over the corrected `from`: at most one field per piece, indices strictly increasing |
| Header.CorrectedEntries | src/main/java/hu/bme/mit/cch/CsvHeader.java:25-26 | entry i is the corrected `from` on piece i at index i |
| Header.CorrectedDropsIgnored | src/main/java/hu/bme/mit/cch/CsvHeader.java:24-27 | corrected: fewer fields than pieces exactly when some piece ends in `:IGNORE` once its quotation characters are removed |
| Header.CorrectedAgrees | src/main/java/hu/bme/mit/cch/CsvHeader.java:20-30 | a header without quotation characters gives the same result as written and corrected |
| LoaderConfig.Builder.Settings | src/main/java/hu/bme/mit/cch/CsvLoaderConfig.java:15-20 | a valid builder's settings have the `"` quotation character |
| LoaderConfig.Builder.constructor | src/main/java/hu/bme/mit/cch/CsvLoaderConfig.java:50-56 | defaults `,`, `;`, `"`, string ids, skip headers |
| LoaderConfig.Builder.SetFieldTerminator | src/main/java/hu/bme/mit/cch/CsvLoaderConfig.java:58-61 | changes only the field terminator and returns the same builder |
| LoaderConfig.Builder.SetArrayDelimiter | src/main/java/hu/bme/mit/cch/CsvLoaderConfig.java:63-66 | changes only the array delimiter and returns the same builder |
| LoaderConfig.Builder.SetStringIds | src/main/java/hu/bme/mit/cch/CsvLoaderConfig.java:68-71 | changes only the string-ids flag and returns the same builder |
| LoaderConfig.Builder.SetSkipHeaders | src/main/java/hu/bme/mit/cch/CsvHeaderToCypherConverter.java:61 | changes only the skip-headers flag and returns the same builder |
| LoaderConfig.Builder.Build | src/main/java/hu/bme/mit/cch/CsvLoaderConfig.java:73-75 | the config is the builder's values unchanged, and its quotation character is `"` |
| LoaderConfig.PipeSeparatedConfig | src/test/java/hu/bme/mit/cch/CsvNodeTests.java:11 | a builder given the pipe character as field terminator builds the defaults with that terminator |
| QuotedText.Quote | src/main/java/hu/bme/mit/cch/CsvHeaderToCypherConverter.java:146 | a name in backticks, recoverable from between them |
| QuotedText.ReadQuote | src/main/java/hu/bme/mit/cch/CsvHeaderToCypherConverter.java:146 | the reader recovers a quoted backtick-free name |
| Converter.ConverterFor | src/main/java/hu/bme/mit/cch/CsvHeaderToCypherConverter.java:27-39 | toInt iff INT, LONG, BYTE, SHORT or ID; toFloat iff FLOAT or DOUBLE; the CASE template iff BOOLEAN; the entry as it is otherwise (getOrDefault at line 133) |
| Converter.TemplatesUnquoted | src/main/java/hu/bme/mit/cch/CsvHeaderToCypherConverter.java:29-38 | no template holds a backtick |
| Converter.LineEntry | src/main/java/hu/bme/mit/cch/CsvHeaderToCypherConverter.java:134 | the row entry holds no backtick |
| Converter.LineEntryIndex | src/main/java/hu/bme/mit/cch/CsvHeaderToCypherConverter.java:134 | `line[...]` whose digits read back as the field's index |
| Converter.Identifiers | src/main/java/hu/bme/mit/cch/CsvHeaderToCypherConverter.java:144 | one identifier per field, in field order: `__csv_id` for an ID field, the name otherwise |
| Converter.Projection | src/main/java/hu/bme/mit/cch/CsvHeaderToCypherConverter.java:133-142 | the converted value holds no backtick |
| Converter.ProjectionByType | src/main/java/hu/bme/mit/cch/CsvHeaderToCypherConverter.java:133-142 | any field's projection: a scalar field converts its row entry `line[<index>]` by its type; an array field converts each element of that entry inside `[property IN ... \| ...]` |
| Converter.ConvertedByTable | src/main/java/hu/bme/mit/cch/CsvHeaderToCypherConverter.java:27-39 | the CONVERTERS template for a type, filled with an argument, is toInt for the integer types, toFloat for the floating types, the CASE expression for BOOLEAN, and the argument itself otherwise |
| Converter.ProjectionExamples | src/main/java/hu/bme/mit/cch/CsvHeaderToCypherConverter.java:137-142 | LONG gives `toInt(line[1])`; STRING[] gives a list comprehension over `line[1]` that keeps each element; BOOLEAN[] maps each element through the CASE template |
| Converter.WithBinding | src/main/java/hu/bme/mit/cch/CsvHeaderToCypherConverter.java:145-148 | the text before the quoted identifier holds no backtick |
| Converter.WithEntries | src/main/java/hu/bme/mit/cch/CsvHeaderToCypherConverter.java:132-149 | one entry per field, in field order |
| Converter.WithPropertiesClause | src/main/java/hu/bme/mit/cch/CsvHeaderToCypherConverter.java:131-152 | `WITH`, the entries joined by `,` and a line break, a line break; WithClauseRead and WithClauseStart state what it binds and how it opens |
| Converter.Identifier | src/main/java/hu/bme/mit/cch/CsvHeaderToCypherConverter.java:144 | `__csv_id` for an ID field, the field name otherwise; Identifiers lists them in field order |
| Converter.WithEntriesRead | src/main/java/hu/bme/mit/cch/CsvHeaderToCypherConverter.java:132-149 | the joined entries name the identifiers, in order |
| Converter.WithClauseRead | src/main/java/hu/bme/mit/cch/CsvHeaderToCypherConverter.java:131-152 | the WITH clause binds exactly the identifiers, in field order |
| Converter.WithClauseStart | src/main/java/hu/bme/mit/cch/CsvHeaderToCypherConverter.java:151 | the WITH clause opens with `WITH` and a line break: its first five characters are `WITH\n` |
| Converter.PropertyEntries | src/main/java/hu/bme/mit/cch/CsvHeaderToCypherConverter.java:183-185 | one entry per field, keyed by the field's identifier |
| Converter.PropertyEntry | src/main/java/hu/bme/mit/cch/CsvHeaderToCypherConverter.java:185 | the identifier quoted as key and as value; PropertyEntryRead reads it back |
| Converter.CypherProperties | src/main/java/hu/bme/mit/cch/CsvHeaderToCypherConverter.java:182-192 | empty exactly for no fields, braces otherwise |
| Converter.JoinedPropertiesEmpty | src/main/java/hu/bme/mit/cch/CsvHeaderToCypherConverter.java:183-187 | the joined entries are empty exactly for no fields |
| Converter.PropertyEntryRead | src/main/java/hu/bme/mit/cch/CsvHeaderToCypherConverter.java:185 | an entry names its identifier twice |
| Converter.PropertyEntriesRead | src/main/java/hu/bme/mit/cch/CsvHeaderToCypherConverter.java:183-186 | the joined entries name each identifier twice, in order |
| Converter.PropertiesRead | src/main/java/hu/bme/mit/cch/CsvHeaderToCypherConverter.java:182-192 | the property map names each identifier twice, in order |
| Converter.PropertiesAreBound | src/main/java/hu/bme/mit/cch/CsvHeaderToCypherConverter.java:144 | a name is in the property map iff the WITH clause binds it (line 184 picks the same identifier) |
| Converter.FirstIndex | src/main/java/hu/bme/mit/cch/CsvHeaderToCypherConverter.java:159-163 | `filter(...).findFirst()`: none iff no field qualifies, else the first qualifying position |
| Converter.IdSpaceLabel | src/main/java/hu/bme/mit/cch/CsvHeaderToCypherConverter.java:159-163 | none iff no ID field has an id space; else `IdSpace` + the id space of the first such field |
| Converter.AllLabels | src/main/java/hu/bme/mit/cch/CsvHeaderToCypherConverter.java:157-164 | the given labels unchanged and in order, then the id-space label exactly when there is one |
| Converter.LabelsRead | src/main/java/hu/bme/mit/cch/CsvHeaderToCypherConverter.java:166-168 | the rendered labels read back as the labels |
| Converter.LabelsText | src/main/java/hu/bme/mit/cch/CsvHeaderToCypherConverter.java:166-168 | each label as a colon and the quoted label, concatenated; LabelsRead reads them back |
| Converter.CypherLabels | src/main/java/hu/bme/mit/cch/CsvHeaderToCypherConverter.java:154-169 | the rendering of the given labels plus the id-space label |
| Converter.AllLabelsUnquoted | src/main/java/hu/bme/mit/cch/CsvHeaderToCypherConverter.java:159-164 | backtick-free labels and fields give backtick-free labels |
| Converter.NodeClauseRead | src/main/java/hu/bme/mit/cch/CsvHeaderToCypherConverter.java:52-59 | the node clause names the labels, then each identifier twice |
| Converter.CreateNodeClause | src/main/java/hu/bme/mit/cch/CsvHeaderToCypherConverter.java:52-59 | `CREATE (` labels, a space only when labels and properties are both present, properties, `)`; NodeClauseRead states what it names |
| Converter.CreateLoadCsvQuery | src/main/java/hu/bme/mit/cch/CsvHeaderToCypherConverter.java:109-123 | the appends give load line, header skip when asked, WITH clause, create clause |
| Converter.QueryLayout | src/main/java/hu/bme/mit/cch/CsvHeaderToCypherConverter.java:112-122 | the query opens with the load line, the header skip follows iff asked for, and the query ends with the create clause |
| Converter.QueryRead | src/main/java/hu/bme/mit/cch/CsvHeaderToCypherConverter.java:109-123 | the query names the bound identifiers, then what the create clause names |
| Converter.LoadLine | src/main/java/hu/bme/mit/cch/CsvHeaderToCypherConverter.java:112-115 | the `LOAD CSV FROM` line with the file name and the terminator; LoadLineUnquoted and QueryLayout place it |
| Converter.LoadCsvQuery | src/main/java/hu/bme/mit/cch/CsvHeaderToCypherConverter.java:109-123 | load line, optional header skip, WITH clause, create clause; QueryLayout and QueryRead characterise it |
| Converter.ConvertNodes | src/main/java/hu/bme/mit/cch/CsvHeaderToCypherConverter.java:48-61 | the node query, failing exactly when the header does not parse |
| Converter.NodesQuery | src/main/java/hu/bme/mit/cch/CsvHeaderToCypherConverter.java:48-61 | the node query as a value, failing with the header's parse error; ConvertNodes and NodesQueryNames state it |
| Converter.NodesQueryNames | src/main/java/hu/bme/mit/cch/CsvHeaderToCypherConverter.java:48-61 | a node query names the identifiers, the labels with the id-space label, then each identifier twice |
| Converter.FirstIdSpaceOf | src/main/java/hu/bme/mit/cch/CsvHeaderToCypherConverter.java:75-85 | the id space of the first marker field, the fallback when there is none or it has no id space; always the fallback or some marker field's id space |
| Converter.StartIdSpace | src/main/java/hu/bme/mit/cch/CsvHeaderToCypherConverter.java:75-79 | the first START_ID field's id space, END_ID_PROPERTY otherwise; IdSpaceExamples shows both cases |
| Converter.EndIdSpace | src/main/java/hu/bme/mit/cch/CsvHeaderToCypherConverter.java:81-85 | the first END_ID field's id space, START_ID_PROPERTY otherwise; IdSpaceExamples shows both cases |
| Converter.EndpointPattern | src/main/java/hu/bme/mit/cch/CsvHeaderToCypherConverter.java:89-90 | `(<variable> {` quoted key `: ` quoted property `})`; EndpointRead reads it back |
| Converter.RelationshipClause | src/main/java/hu/bme/mit/cch/CsvHeaderToCypherConverter.java:87-95 | the MATCH of both endpoints and the CREATE with the type and properties; RelationshipClauseRead states what it names |
| Converter.IdSpaceExamples | src/main/java/hu/bme/mit/cch/CsvHeaderToCypherConverter.java:75-85 | named spaces are taken; missing ones fall back to `__csv_idend_id` (start) and `__csv_idstart_id` (end) |
| Converter.IdSpaceUnquoted | src/main/java/hu/bme/mit/cch/CsvHeaderToCypherConverter.java:75-85 | an id space from backtick-free fields holds no backtick |
| Converter.EndpointRead | src/main/java/hu/bme/mit/cch/CsvHeaderToCypherConverter.java:89-90 | an endpoint pattern names its key, then its property |
| Converter.RelationshipClauseRead | src/main/java/hu/bme/mit/cch/CsvHeaderToCypherConverter.java:87-95 | start key and property, end key and property, the type, then each identifier twice |
| Converter.ConvertRelationships | src/main/java/hu/bme/mit/cch/CsvHeaderToCypherConverter.java:71-97 | the relationship query, failing exactly when the header does not parse |
| Converter.RelationshipsQuery | src/main/java/hu/bme/mit/cch/CsvHeaderToCypherConverter.java:71-97 | the relationship query as a value, failing with the header's parse error; ConvertRelationships and RelationshipsQueryNames state it |
| Converter.RelationshipsQueryNames | src/main/java/hu/bme/mit/cch/CsvHeaderToCypherConverter.java:71-97 | a relationship query names the identifiers, the endpoint keys and properties, the type, then each identifier twice; every field is stored, endpoints included |

## Left out

- Java's regular-expression engine is not modelled as such. Each pattern is a hand-written recogniser, proved sound and complete against a reading of the pattern.
- Quote removal deletes every occurrence of the quotation character literally. `replaceAll` takes that character as a regular expression, which differs only for metacharacter quotation characters such as `.` or `*`.
- JavaText.ToUpper, JavaText.ToLower: a locale-independent mapping is assumed. Java's `toUpperCase()` and `toLowerCase()` follow the default locale. Under a Turkish or Azeri locale, `i` upper-cases to `İ`, so `x:ignore` would not be dropped. Likewise `"ID".toLowerCase()` would give `ıd` and change the id properties of `Constants.java:19-21`. ToUpper maps a-z, the dotless `ı` and the long `ſ`, which are all the characters whose upper case is one ASCII letter. It keeps the length, so a character whose upper case is longer (`ß` → `SS`) keeps its place. That never changes whether the text ends in `:IGNORE`, because no such expansion consists of the letters of `:IGNORE` only. ToLower maps A-Z only and is applied to the ASCII markers alone.
- JavaText.IntToString: ASCII digits are assumed. `String.format("%s[%d]", ...)` at `CsvHeaderToCypherConverter.java:134` prints `%d` with the zero digit of the default format locale. Under a locale with other native digits, such as Persian, the row index in `line[i]` would be written in those digits.
- `Constants.getPostfix` is not part of this model. It is a parameter `postfix` of the `CsvField` and `CsvHeader` functions.
- `CsvLoaderConfig` has no `skipHeaders` field or setter. The converter reads one, so the model adds it with default true and with `SetSkipHeaders`.
- The array delimiter is stored but never used by the generator, and the model does not use it either.
- Exceptions are `Result` failures. The exception types, stack traces and messages are not modelled, apart from the `CsvField` message.
- `LoaderConfig.Builder.Settings`: its `Valid` invariant covers only the quotation character. That is the one field no setter touches.
- The reading lemmas need names, id spaces, labels, relationship types and file names without backticks. The generator does not escape backticks, so a name that holds one produces a query whose quoting is broken.
- Converter.Projection: its own contract states only that the projection holds no backtick. Its exact shape for every field is stated by `Converter.ProjectionByType`, and the row index by `Converter.LineEntryIndex`.
- `String.format` with a `%s` argument is a `Template` of the text before and after the `%s`.
- What Cypher does with the generated query is not modelled.
- `FileUtil.java` is file I/O and is not part of this model.
- `HeaderLoadCsv.java` calls APOC's `LoadCsv`, a library outside this repository, and discards the result. It is not part of this model.
- The tests that run queries in an embedded Neo4j are not part of this model. The regex tests are left out too, since their expected groups disagree with the test constants.
- Behaviours the code does not have are not modelled: splitting array values on the delimiter, dynamic labels or types, indexes, and errors for missing endpoints or duplicate ids.

## Findings

| source | as written | input that shows it | evidently intended | confidence | as-written member | corrected member |
|---|---|---|---|---|---|---|
| src/main/java/hu/bme/mit/cch/CsvField.java:52-56 | the `:IGNORE` test looks at the raw attribute, while both grammars look at the attribute with quotation characters removed | `"x:IGNORE"` with `"` as the quotation character: not dropped, but parsed as a field `x` of type `IGNORE` | an ignored column is dropped whether or not it is quoted, like every other column, whose type is read after quote removal | not executed | Field.FromAsWritten, Field.QuotedIgnore | Field.From, Header.CorrectedHeader |
