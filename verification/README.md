# senaite setup-data import machinery in Dafny

This project models the generic import machinery of senaite's setup-data loader,
`src/senaite/core/exportimport/setupdata/__init__.py`. A setup data set is an Excel
workbook with one sheet per kind of setup entity. For each sheet, a `WorksheetImporter`
reads the rows as records keyed by the header row. It resolves the entities that the
cells name through the portal catalogs, and it creates or updates setup objects. Links
that can only be resolved once every sheet is in are queued as deferred links.

The model covers the parts of that machinery with a contract worth stating:

- `Worksheet`: the row normaliser `get_rows`. A worksheet is a sequence of rows of
  optional cells. The method returns the records the generator yields, and a ghost
  counter stands for the savepoints.
- `Addresses`: `get_addresses_from_row` and `fill_addressfields`.
- `Catalog`: the entity resolver `get_object` over an abstract catalog (a function from
  a query to an ordered list of entities), `Analysis_Specifications.resolve_service`,
  and the relation list of `Analysis_Services.get_relations`.
- `Assets`: `read_file` and `get_file_data` over an abstract file system.
- `Deferred`: the deferred-link queue (`defer`), the dependency-keyword scan of
  `Calculations.Import`, and the CC-contact links of `Client_Contacts.Import`.
- `Uncertainties`: `load_service_uncertainties` and `write_bucket`. It has two loaders:
  - the row loop as written;
  - the loop with its batching repaired.

  Both are proved against one reference definition of the final uncertainty lists.
- `Rules`: `to_bool`, `to_int`, `check_for_required_columns` and
  `Setup.to_string_vocab_value`.
- `IdPrefixes`: the replace-or-append loop of `ID_Prefixes.Import`.
- `SamplePoints`: the add-if-absent loop of `Sample_Point_Sample_Types.Import`.
- `Specifications`: the collecting loop of `Analysis_Specifications.Import`.
- `TemplateLayouts`: `Worksheet_Templates.load_wst_layouts`, as written, next to the
  entry with the corrected `control_ref` guard (see Findings).
- `Text` and `Wrappers`: the Python string operations the importers rely on (`strip`,
  `split`, `join`, `lower`, `int()`, `str()`), plus `Option` and `Result`.

The code follows the source's own form:

- Loops that update state are methods with loop invariants.
- Objects whose fields the importers update are classes:
  - `ServiceStore`, the services' uncertainty lists;
  - `SamplePointStore`;
  - `LoadSetupData`, the shared deferred queue;
  - `WorksheetTemplates`.
- Lookups and rules are functions.
- Each method is proved against a function that defines its result, and the
  properties are proved as lemmas about that function.

A cell is `Option<string>`, where `None` is an empty cell. A record key is the header
cell exactly as read: headers are neither blank-filled nor stripped. A record is the
header-to-value map, plus the three address sub-maps that `get_rows` stores under
`Physical`, `Postal` and `Billing`.

Where a modelled member raises in the source, the model returns an error value. This
covers a `KeyError` on `row[...]` or on `workbook[name]`, the `IndexError` of
`resolve_service` and a `ValueError` of `int()`. The rows handled before the failing
one keep their effect, as they do in the source.

The source is written for Python 2. The model follows the code as it stands, including
two places where it does something other than what it evidently means to do:

- The uncertainty bucket is written whenever a row naming a service is read while
  `count` is past 500. `count` is never reset, so past the 500th row every such row is
  written on its own.
- At line 2026 the control-reference list of a template layout is guarded by the blank
  UID.

## Model

| member | source | states |
|---|---|---|
| Worksheet.NormalizeCell | src/senaite/core/exportimport/setupdata/__init__.py:180-188 | an empty cell becomes `''`; the value never starts or ends with a space, tab, newline or carriage return; text already clean is kept as is |
| Worksheet.NormalizeCellSpec | src/senaite/core/exportimport/setupdata/__init__.py:180-188 | a text cell's value is the slice of its text between the first and last character that is not a space, tab, newline or carriage return: only those blanks go, and only at the ends |
| Worksheet.NormalizeRow | src/senaite/core/exportimport/setupdata/__init__.py:178-189 | the new row is the normalised cells of the row, in order |
| Worksheet.GetRows | src/senaite/core/exportimport/setupdata/__init__.py:156-200 | returns exactly the records of the yielded rows under the header row; the savepoint count is the number of row numbers divisible by 1000 |
| Worksheet.SavepointStep | src/senaite/core/exportimport/setupdata/__init__.py:173-174 | the savepoint count goes up by one exactly at row numbers divisible by 1000 |
| Worksheet.RecordsStep | src/senaite/core/exportimport/setupdata/__init__.py:167-200 | reading a row adds its record exactly when its number is above 1 and above `startrow` |
| Worksheet.YieldedRows | src/senaite/core/exportimport/setupdata/__init__.py:165-176 | the yielded rows are the consecutive rows from row `max(1, startrow) + 1` on, each once and in order |
| Worksheet.RowYieldedIff | src/senaite/core/exportimport/setupdata/__init__.py:167-176 | row `k` is yielded if and only if `k > 1` and `k > startrow`; the header row never is |
| Worksheet.FirstRecordIsRowFour | src/senaite/core/exportimport/setupdata/__init__.py:156-176 | with the default start row 3, a sheet of n ≥ 4 rows yields n − 3 records, the first from row 4 |
| Worksheet.HeaderOnlyYieldsNothing | src/senaite/core/exportimport/setupdata/__init__.py:167-172 | a sheet with at most the header row yields no record |
| Worksheet.ZipMapKeys | src/senaite/core/exportimport/setupdata/__init__.py:190 | a key is in `dict(zip(headers, values))` if and only if it is a header at a position where both lists have an element |
| Worksheet.ZipMapValue | src/senaite/core/exportimport/setupdata/__init__.py:190 | a header that does not occur again later maps to the value at its own position |
| Worksheet.RecordColumn | src/senaite/core/exportimport/setupdata/__init__.py:178-190 | the value under a data column is that column's normalised cell |
| Worksheet.RecordColumnsFromHeaders | src/senaite/core/exportimport/setupdata/__init__.py:190 | every column of a record comes from a header that meets a cell; surplus headers and cells are dropped |
| Worksheet.AddressOfSpec | src/senaite/core/exportimport/setupdata/__init__.py:193-198 | an address sub-map is non-empty if and only if the `<Type>_Address` column exists, and then has exactly the six parts, `''` for absent columns |
| Worksheet.RecordAddresses | src/senaite/core/exportimport/setupdata/__init__.py:190-198 | every record has the three sub-maps `Physical`, `Postal` and `Billing`, each empty unless its `<Type>_Address` header meets a cell |
| Addresses.AddressItem | src/senaite/core/exportimport/setupdata/__init__.py:64-70 | the item has its type and, for each of Address, City, Zip and Country, the lower-case key exactly when the column value is non-empty, holding that value |
| Addresses.KeptIffSomePart | src/senaite/core/exportimport/setupdata/__init__.py:71-72 | the "more keys than `type`" test holds if and only if some part of the address is non-empty |
| Addresses.KeepFilledSpec | src/senaite/core/exportimport/setupdata/__init__.py:71-72 | the filter keeps exactly the items with a key besides `type`, each as often as it occurs and in the given order: it splits at any point and keeps or drops each item on its own |
| Addresses.KeepFilledConcat | src/senaite/core/exportimport/setupdata/__init__.py:71-72 | filtering a concatenation gives the filtered parts, in order |
| Addresses.AddressesForItems | src/senaite/core/exportimport/setupdata/__init__.py:56-73 | every kept item is the item of one of the listed types, and that type has a non-empty part |
| Addresses.AddressesForCovers | src/senaite/core/exportimport/setupdata/__init__.py:56-73 | the item of every listed type with a non-empty part is kept |
| Addresses.AddressesFromRowSpec | src/senaite/core/exportimport/setupdata/__init__.py:56-73 | `get_addresses_from_row` gives exactly the physical, postal and billing items that have a non-empty part, one per such type, in that order |
| Addresses.AddressBlock | src/senaite/core/exportimport/setupdata/__init__.py:271-276 | each address map has exactly the six lower-case part keys, each holding the `<prefix>_<Part>` column's text, `''` when the column is absent |
| Addresses.CountryStateBlock | src/senaite/core/exportimport/setupdata/__init__.py:278-281 | the CountryState map is its own columns, except that when its country and state are both empty it takes the physical country and state |
| Addresses.BlockFor | src/senaite/core/exportimport/setupdata/__init__.py:283-290 | the physical, postal and billing setters get the map of their own prefix; `CountryState` gets the map with the physical fallback |
| Addresses.FillAddressFields | src/senaite/core/exportimport/setupdata/__init__.py:267-290 | exactly the setters the entity offers receive a map; each map has the six part keys and is the map of that setter's own prefix (with the fallback for `CountryState`) |
| Catalog.GetObject | src/senaite/core/exportimport/setupdata/__init__.py:318-341 | no title and no criteria give `None`; a returned entity is the sole match of the content filter, or an analysis service from the keyword retry |
| Catalog.GetObjectIff | src/senaite/core/exportimport/setupdata/__init__.py:318-341 | `get_object` returns `e` if and only if criteria were given and either `e` is the sole match, or no entry matched, the kind is `AnalysisService` and `e` is the first keyword hit |
| Catalog.AmbiguousIsNone | src/senaite/core/exportimport/setupdata/__init__.py:330-332 | more than one match gives `None`, whatever the kind |
| Catalog.NoFallbackForOtherKinds | src/senaite/core/exportimport/setupdata/__init__.py:333-339 | for any kind other than `AnalysisService`, no match gives `None` |
| Catalog.ResolveService | src/senaite/core/exportimport/setupdata/__init__.py:1724-1736 | the service is found if and only if some service has the name as its title or as its keyword, and it comes from one of those two queries |
| Catalog.RowRelation | src/senaite/core/exportimport/setupdata/__init__.py:1571-1577 | a row adds at most one entity, and it adds `e` if and only if the row is this service's, it resolves to `e`, and `e` does not have the default entity's UID |
| Catalog.GetRelations | src/senaite/core/exportimport/setupdata/__init__.py:1556-1578 | a sheet the workbook lacks raises (`KeyError`); otherwise the result is the default entity (when given), followed by the sheet's contributions up to the first row with an empty `Service_title` |
| Catalog.RelationsLoop | src/senaite/core/exportimport/setupdata/__init__.py:1567-1578 | the loop appends exactly the reference contributions of the rows |
| Catalog.AddRowRelation | src/senaite/core/exportimport/setupdata/__init__.py:1571-1577 | one pass of the loop appends exactly the row's contribution |
| Catalog.RelationsSkipDefault | src/senaite/core/exportimport/setupdata/__init__.py:1574-1576 | no entity the sheet adds has the default entity's UID |
| Catalog.RelationsStopAtBlank | src/senaite/core/exportimport/setupdata/__init__.py:1568-1570 | rows after the first one with an empty `Service_title` contribute nothing |
| Catalog.RelationsFromRows | src/senaite/core/exportimport/setupdata/__init__.py:1567-1578 | every entity added comes from a row of this service that names it, read before any empty `Service_title` |
| Assets.UpperAll | src/senaite/core/exportimport/setupdata/__init__.py:104 | the upper-cased list has the same length and holds each extension upper-cased at the same position |
| Assets.FirstExisting | src/senaite/core/exportimport/setupdata/__init__.py:105-108 | the index found is the first extension whose `path.ext` exists; `None` exactly when none exists |
| Assets.ReadFile | src/senaite/core/exportimport/setupdata/__init__.py:99-110 | an existing exact path is read as is; otherwise the first existing `path.ext` in the list order is read; the `IOError` is raised if and only if no candidate exists |
| Assets.LowerCaseFirst | src/senaite/core/exportimport/setupdata/__init__.py:102-105 | the 13 lower-case extensions are tried first, in the listed order, then the same 13 upper-cased |
| Assets.UpperCaseExtensionFound | src/senaite/core/exportimport/setupdata/__init__.py:99-108 | a file stored as `cert.PDF` is found when `cert` is asked for |
| Assets.GetFileData | src/senaite/core/exportimport/setupdata/__init__.py:202-213 | no file name gives `None`; otherwise the contents of `setupdata/<dataset>/<name>`, and `None` exactly when that file cannot be read |
| Deferred.LoadSetupData.Defer | src/senaite/core/exportimport/setupdata/__init__.py:259-260 | `defer` appends the link to the queue and changes nothing else |
| Deferred.RunLength | src/senaite/core/exportimport/setupdata/__init__.py:1421 | the run is the longest prefix of characters other than `.`, `^` and `]` |
| Deferred.Keywords | src/senaite/core/exportimport/setupdata/__init__.py:1421 | every keyword found is a non-empty run of characters other than `.`, `^` and `]` |
| Deferred.KeywordsBracketed | src/senaite/core/exportimport/setupdata/__init__.py:1421 | a bracketed keyword at the start of the text is found, and the scan resumes after its `]` |
| Deferred.KeywordsOfFormula | src/senaite/core/exportimport/setupdata/__init__.py:1421 | the scan of a formula finds exactly its bracketed keywords, in formula order, whatever text without `[` lies between them |
| Deferred.DependencyKeywordsSpec | src/senaite/core/exportimport/setupdata/__init__.py:1423-1424 | no dependency is an interim keyword, and every other keyword keeps all its occurrences (equal multisets) |
| Deferred.DependencyKeywordsConcat | src/senaite/core/exportimport/setupdata/__init__.py:1423-1424 | the filter keeps formula order: it distributes over concatenation |
| Deferred.DependencyKeywordsOne | src/senaite/core/exportimport/setupdata/__init__.py:1423-1424 | a single keyword is kept exactly when it is not an interim key |
| Deferred.DeferCalculationDependencies | src/senaite/core/exportimport/setupdata/__init__.py:1419-1439 | the queue is extended by one `DependentServices` link per occurrence of a non-interim keyword, in formula order |
| Deferred.CCNames | src/senaite/core/exportimport/setupdata/__init__.py:641 | there is one name per comma-separated part, one more than the number of commas; the i-th name holds no comma and is the i-th part with only whitespace cut off at its ends, and it neither starts nor ends with whitespace |
| Deferred.DeferCCContacts | src/senaite/core/exportimport/setupdata/__init__.py:640-648 | an empty CC cell defers nothing; otherwise one `CCContact` link per comma-separated stripped name is appended, in order |
| Deferred.CCNamesOfList | src/senaite/core/exportimport/setupdata/__init__.py:641 | clean names joined with commas are split back into exactly those names |
| Uncertainties.Merge | src/senaite/core/exportimport/setupdata/__init__.py:1580-1586 | after a bucket write, the services are the old ones plus those of the bucket |
| Uncertainties.MergeAt | src/senaite/core/exportimport/setupdata/__init__.py:1584-1586 | a bucket write extends each service's list by exactly its bucket entries |
| Uncertainties.ServiceStore.WriteBucket | src/senaite/core/exportimport/setupdata/__init__.py:1580-1586 | after `write_bucket`, the store is the old store with every bucket list appended to its service's list, whatever order the services are visited in |
| Uncertainties.FirstBad | src/senaite/core/exportimport/setupdata/__init__.py:1507-1521 | the index found is that of the first row that names a service but lacks one of `Range Min`, `Range Max` and `Uncertainty Value` |
| Uncertainties.LoadedLists | src/senaite/core/exportimport/setupdata/__init__.py:1503-1526 | each service's final list is its old list followed by the entries of the rows resolving to it, in row order; other services keep their lists |
| Uncertainties.ReadRow | src/senaite/core/exportimport/setupdata/__init__.py:1506-1521 | a row naming no service is skipped; one naming a service without the three columns stops the loop; otherwise its entry goes into the bucket under its service |
| Uncertainties.Flush | src/senaite/core/exportimport/setupdata/__init__.py:1522-1524 | a write in the loop stores every row read so far and empties the bucket |
| Uncertainties.Finish | src/senaite/core/exportimport/setupdata/__init__.py:1525-1526 | the write after the loop happens if and only if the bucket is not empty, and then every row is stored |
| Uncertainties.StepAsWritten | src/senaite/core/exportimport/setupdata/__init__.py:1505-1524 | one pass of the loop as written keeps the loop's invariant: rows read are in store plus bucket, and the writes so far are one per resolved row past the 500th |
| Uncertainties.LoadRows | src/senaite/core/exportimport/setupdata/__init__.py:1503-1526 | the row loop as written ends without error if and only if no row is bad; the store then holds the reference lists, after one write per resolved row past the 500th plus the final one; after an error, exactly a prefix of the rows before the bad one is stored |
| Uncertainties.LoadServiceUncertainties | src/senaite/core/exportimport/setupdata/__init__.py:1496-1526 | a sheet the workbook lacks raises before anything is written; otherwise the loop as written runs over the yielded rows, with the same outcome |
| Uncertainties.StepBatched | src/senaite/core/exportimport/setupdata/__init__.py:1505-1524 | one pass of the repaired loop keeps its invariant: each write is paid for by the 501 rows read before it |
| Uncertainties.LoadRowsBatched | src/senaite/core/exportimport/setupdata/__init__.py:1503-1526 | with `count` reset at each write, the store ends the same as in the as-written loop, after at most one write per 501 rows plus the final one |
| Uncertainties.LoadServiceUncertaintiesBatched | src/senaite/core/exportimport/setupdata/__init__.py:1496-1526 | a missing sheet raises as before; otherwise the repaired loader runs over the yielded rows, with the same store and the bounded write count |
| Uncertainties.AsWrittenWritesPerRow | src/senaite/core/exportimport/setupdata/__init__.py:1504-1524 | as written, more than 500 rows that all name a service are written once per row past the 500th |
| Uncertainties.ThousandTwoHundredRows | src/senaite/core/exportimport/setupdata/__init__.py:1504-1524 | 1200 such rows give 700 writes as written |
| Rules.ToBool | src/senaite/core/exportimport/setupdata/__init__.py:215-235 | text is true exactly when `int()` of it is 1, or when it is no integer and lower-cases to `'true'`; any other value is true exactly when it converts to the integer 1 |
| Rules.ToBoolOfIntText | src/senaite/core/exportimport/setupdata/__init__.py:228-235 | the printed form of an integer is true if and only if the integer is 1 |
| Rules.ToBoolIgnoresCase | src/senaite/core/exportimport/setupdata/__init__.py:220-223 | upper-casing a text does not change its truth value |
| Rules.ToBoolOfTrueText | src/senaite/core/exportimport/setupdata/__init__.py:220-235 | every spelling of `true`, in any case, is true |
| Rules.UpperCaseTrue | src/senaite/core/exportimport/setupdata/__init__.py:220-235 | `TRUE` is true |
| Rules.ToInt | src/senaite/core/exportimport/setupdata/__init__.py:237-246 | `None` raises (the uncaught `TypeError`); a convertible value gives its integer; unconvertible text gives `int(default)`, or 0 when the default does not convert either |
| Rules.ToIntRoundTrip | src/senaite/core/exportimport/setupdata/__init__.py:240-241 | a printed integer converts back to itself, whatever the default |
| Rules.ToIntOfEmptyCell | src/senaite/core/exportimport/setupdata/__init__.py:242-246 | an empty cell takes the default |
| Rules.CheckForRequiredColumns | src/senaite/core/exportimport/setupdata/__init__.py:84-88 | it raises if and only if some required column is missing or empty, and the message names the first such column |
| Rules.VocabularyDict | src/senaite/core/exportimport/setupdata/__init__.py:2122-2123 | the dict's keys are exactly the keys of the vocabulary items |
| Rules.VocabularyDictValues | src/senaite/core/exportimport/setupdata/__init__.py:2123 | a repeated key keeps the value of its last pair: each pair with no later pair of the same key gives its key's value |
| Rules.FirstMatch | src/senaite/core/exportimport/setupdata/__init__.py:2125-2130 | the key returned matches, by key or by value and ignoring case, and no key before it in the iteration order matches; `None` exactly when no key in the iteration order matches |
| Rules.ToStringVocabValue | src/senaite/core/exportimport/setupdata/__init__.py:2112-2131 | an empty vocabulary raises; a returned key is in the vocabulary, matches the value by key or by value ignoring case, and is the first such key in the dict's iteration order |
| Rules.RepeatedKeyKeepsLastValue | src/senaite/core/exportimport/setupdata/__init__.py:2123 | with the pairs `a: X` then `a: Y`, the text `x` is not found, because the dict keeps only `Y` |
| Rules.VocabularyNotFoundIff | src/senaite/core/exportimport/setupdata/__init__.py:2125-2131 | "entry not found" is raised if and only if no key and no value matches |
| Rules.VocabularyIgnoresCase | src/senaite/core/exportimport/setupdata/__init__.py:2126-2129 | the wanted value may be given in any case |
| IdPrefixes.Without | src/senaite/core/exportimport/setupdata/__init__.py:2172-2173 | the filtered list keeps exactly the entries of other portal types, and is no longer than before |
| IdPrefixes.SeparatorOf | src/senaite/core/exportimport/setupdata/__init__.py:2175-2176 | no separator column gives `-`, the word `none` gives `''`, and any other value is kept |
| IdPrefixes.NewEntry | src/senaite/core/exportimport/setupdata/__init__.py:2173-2181 | a row gives an entry if and only if it has `portal_type`, `padding` and `prefix` columns, and the entry holds those values with the separator of `SeparatorOf`; otherwise the error names a missing column |
| IdPrefixes.ImportIdPrefixes | src/senaite/core/exportimport/setupdata/__init__.py:2168-2182 | the loop computes the reference list, and stops at the first row missing a column |
| IdPrefixes.WithEntrySpec | src/senaite/core/exportimport/setupdata/__init__.py:2172-2181 | after a row, the new entry is last and is the only one of its portal type; the other entries are the old ones in their old order |
| IdPrefixes.WithEntryIdempotent | src/senaite/core/exportimport/setupdata/__init__.py:2172-2181 | importing the same row twice is the same as importing it once |
| IdPrefixes.ApplyRowsDistinct | src/senaite/core/exportimport/setupdata/__init__.py:2170-2181 | a list with one entry per portal type keeps that shape through every import |
| IdPrefixes.ApplyRowsKeepsTypes | src/senaite/core/exportimport/setupdata/__init__.py:2170-2181 | a portal type that has an entry keeps one |
| IdPrefixes.ApplyRowsCovers | src/senaite/core/exportimport/setupdata/__init__.py:2170-2181 | after a successful import, every row's portal type has an entry |
| IdPrefixes.ApplyRowsKeepsOthers | src/senaite/core/exportimport/setupdata/__init__.py:2172-2173 | an entry whose portal type no row names comes through unchanged |
| IdPrefixes.ApplyRowsLastRow | src/senaite/core/exportimport/setupdata/__init__.py:2170-2181 | the last row's entry ends the list |
| SamplePoints.AddLink | src/senaite/core/exportimport/setupdata/__init__.py:1255-1258 | the sample type is appended to the point's list if and only if it is not already in it; other points are untouched |
| SamplePoints.SamplePointStore.SetSampleTypes | src/senaite/core/exportimport/setupdata/__init__.py:1258 | the point's list is replaced and nothing else changes |
| SamplePoints.SamplePointStore.Import | src/senaite/core/exportimport/setupdata/__init__.py:1245-1258 | the loop leaves the store and the error exactly as the reference definition over the rows says |
| SamplePoints.AddLinkNoDuplicates | src/senaite/core/exportimport/setupdata/__init__.py:1256-1258 | adding a link never gives a point the same sample type twice |
| SamplePoints.LinkRowsNoDuplicates | src/senaite/core/exportimport/setupdata/__init__.py:1247-1258 | importing keeps every point free of duplicate sample types |
| SamplePoints.LinkRowsExtends | src/senaite/core/exportimport/setupdata/__init__.py:1247-1258 | importing only appends: each point's old list is a prefix of its new one |
| SamplePoints.LinkRowsCovers | src/senaite/core/exportimport/setupdata/__init__.py:1247-1258 | after an import that ran to the end, every row whose point resolves has its sample type linked |
| SamplePoints.LinkRowsOfLinked | src/senaite/core/exportimport/setupdata/__init__.py:1254-1258 | rows whose links are all in place change nothing |
| SamplePoints.LinkRowsIdempotent | src/senaite/core/exportimport/setupdata/__init__.py:1247-1258 | importing the same sheet a second time changes nothing |
| SamplePoints.LinkRowsHaveColumn | src/senaite/core/exportimport/setupdata/__init__.py:1251-1253 | an import that ran to the end met no row without a `SamplePoint_title` column |
| Specifications.TitleOf | src/senaite/core/exportimport/setupdata/__init__.py:1744-1748 | the title is the `Title` cell when it is non-empty, else the `title` cell when that is non-empty, else the row has none |
| Specifications.AddItem | src/senaite/core/exportimport/setupdata/__init__.py:1753-1761 | only the row's group changes: it exists afterwards, its ranges gain the row's range at the end, and it keeps its sample type or, when new, takes the row's |
| Specifications.CollectSpecifications | src/senaite/core/exportimport/setupdata/__init__.py:1738-1761 | the collecting loop computes the reference bucket, or the first row's error |
| Specifications.RowItemSpec | src/senaite/core/exportimport/setupdata/__init__.py:1744-1761 | an untitled row is skipped before any column is read; a titled row contributes under its title, with a non-empty owner (`lab` for an empty client) and non-empty bounds |
| Specifications.RowItemService | src/senaite/core/exportimport/setupdata/__init__.py:1724-1736 | a contributing row's range carries the keyword of the first service with that title, else of the first with that keyword |
| Specifications.CollectRanges | src/senaite/core/exportimport/setupdata/__init__.py:1743-1761 | a run without error gives every group the ranges of its own rows, appended in row order |
| Specifications.CollectSampleType | src/senaite/core/exportimport/setupdata/__init__.py:1753-1756 | a group exists if and only if it existed or some row names it; a new group takes the sample type of its first row, and an existing one keeps its own |
| Specifications.CollectErrIff | src/senaite/core/exportimport/setupdata/__init__.py:1743-1761 | the collection fails if and only if some row fails |
| TemplateLayouts.ResolveRef | src/senaite/core/exportimport/setupdata/__init__.py:2004-2008 | a UID is kept as is; a known definition title gives its UID; any other title gives `None` |
| TemplateLayouts.RefsOf | src/senaite/core/exportimport/setupdata/__init__.py:1999-2016 | a blank row's blank UID is its resolved `blank_ref` and a control row's control UID its resolved `control_ref` (each read with default `''`); other rows have neither; the reference proxy is that UID, or `None` when it is empty |
| TemplateLayouts.WorksheetTemplates.LoadWstLayouts | src/senaite/core/exportimport/setupdata/__init__.py:1984-2031 | a sheet the workbook lacks raises and nothing changes; otherwise the layouts and the error are those of the reference definition over the yielded rows, with each entry built as the source builds it (`EntryAsWritten`, control list guarded by `blank_uid`) |
| TemplateLayouts.EntrySpec | src/senaite/core/exportimport/setupdata/__init__.py:1995-2030 | an entry has the lower-cased first letter of its type and the integer `pos`; a blank or control reference exactly for a blank or control row whose reference resolves, equal to the proxy; the proxy is the row's resolved reference or `None`; a duplicate row keeps `int(dup)` and other rows no `dup` |
| TemplateLayouts.EntryErrIff | src/senaite/core/exportimport/setupdata/__init__.py:1996-2024 | a row fails if and only if `dup` is a non-integer, `pos` is missing or non-integer, or `type` is empty |
| TemplateLayouts.AsWrittenControlRef | src/senaite/core/exportimport/setupdata/__init__.py:2026 | as written, a control row never keeps its control reference, and a blank row with a resolved blank UID gets `[None]` |
| TemplateLayouts.ControlRowLosesReference | src/senaite/core/exportimport/setupdata/__init__.py:2010-2026 | a control row whose reference resolves loses it as written and keeps it once guarded by the control UID |
| TemplateLayouts.AsWrittenDropsControl | src/senaite/core/exportimport/setupdata/__init__.py:2010-2026 | the control row `pos=0, type=c, control_ref=u`, with `u` a UID, gets `[]` as written and `[u]` once guarded by the control UID |
| TemplateLayouts.EntryDiffersOnlyInControlRef | src/senaite/core/exportimport/setupdata/__init__.py:2021-2030 | the two entries fail together and differ at most in the control reference list |
| TemplateLayouts.LoadFixOnlyChangesControlRefs | src/senaite/core/exportimport/setupdata/__init__.py:2010-2030 | loading with the corrected guard stops with the same error and meets the same titles, and gives every template the same new entries up to their control reference lists |
| TemplateLayouts.LoadRowsLists | src/senaite/core/exportimport/setupdata/__init__.py:1990-2031 | a load that ran to the end appends to every template exactly its own rows' entries, in row order, and has a list for every title it met |
| TemplateLayouts.LoadRowsExtends | src/senaite/core/exportimport/setupdata/__init__.py:1990-2031 | loading only appends, even when a row fails |
| TemplateLayouts.AddRowCreatesTitle | src/senaite/core/exportimport/setupdata/__init__.py:1991-1993 | a row's template list is created before its entry is built, so it exists even when the row fails |
| Text.Strip | src/senaite/core/exportimport/setupdata/__init__.py:188 | the result is no longer than the input, neither starts nor ends with a stripped character, and clean text is kept |
| Text.StripSpec | src/senaite/core/exportimport/setupdata/__init__.py:188 | the result is the slice of the input between its first and last character outside the stripped set: only stripped characters are cut, and only at the ends |
| Text.StripUnique | src/senaite/core/exportimport/setupdata/__init__.py:188 | at most one cut of a text has clean ends, so `StripSpec` fixes the result of `Strip` |
| Text.JoinSplit | src/senaite/core/exportimport/setupdata/__init__.py:641 | joining the parts of a split restores the text |
| Text.SplitJoin | src/senaite/core/exportimport/setupdata/__init__.py:641 | splitting a join of parts without the separator gives the parts back |
| Text.SplitCount | src/senaite/core/exportimport/setupdata/__init__.py:641 | `split(',')` gives one part more than the text has commas |
| Text.ParseIntRoundTrip | src/senaite/core/exportimport/setupdata/__init__.py:241 | `int(str(n)) == n` for every integer |
| Text.ParseIntIgnoresCase | src/senaite/core/exportimport/setupdata/__init__.py:221-229 | lower-casing a text does not change what `int()` makes of it |

## Left out

- The per-sheet `Import` drivers that only copy row fields into new objects are not
  modelled. Object creation and its events are Plone calls: `_createObjectByType`,
  `api.create`, `edit`, `renameAfterCreation`, `notify` and `unmarkCreationFlag`.
  Created entities are opaque handles with a UID.
- Catalog internals (`getToolByName`, brains, `getObject`) are not modelled. A catalog
  is a function from a query to an ordered list of entities.
- The module function `lookup` is not modelled. It is a separate catalog shortcut, and
  `get_object` is the resolver the importers use.
- The file system and packaging (`os.path.isfile`, `open`, `resource_filename`) are a
  map from existing paths to their bytes. `transaction.savepoint` is a ghost counter.
- Floating point (`to_float`, `Float`) and the Python 2 unicode/utf-8 coercions are not
  modelled: text is a character sequence.
- Cell types: every cell is text or empty. Number and date cells, which `get_rows` does
  not strip, are not distinguished.
- `fill_contactfields`, users and groups (`addMember`, `portal_groups`, local roles)
  and logging are not modelled. They are foreign Plone calls with no contract of
  their own.
- The drain of the deferred-link queue is not part of this model. Only the appends are
  modelled.
- `api.is_uid`, `load_definitions` and `service.getKeyword()` are parameters
  (`isUid`, `definitions`, `keywordOf`). The UID test and the catalog behind them are
  outside the model.
- `Calculations.get_interim_fields` is not modelled: the interim keywords are a
  parameter. The assignment of default calculations to methods (lines 1444-1456) is
  not modelled either.
- Only the CC-contact deferral of `Client_Contacts.Import` is modelled. The contact
  fields and the user account are left out.
- The object-writing half of `Analysis_Specifications.Import` (lines 1762-1783) is not
  modelled: it is client and sample-type lookups plus object creation.
- `Worksheet_Templates.load_wst_services` and `Worksheet_Templates.Import` are not
  modelled. They are a plain `get_object` per row and the setters of new templates.
- Rules.ToStringVocabValue: a vocabulary named by a string (`getFromString`) is not
  modelled. The dict's iteration order is a parameter, `order`.
- Uncertainties.ServiceStore.WriteBucket: the `bsc(UID=...)` lookup is modelled as the
  store's map. It always succeeds because the UIDs come from resolved services.
- IdPrefixes.ImportIdPrefixes: the source never saves the list it builds (the
  `setIDFormatting` call is commented out), so the method returns it.
- A missing `portal_type` column raises at line 2173 when the list is non-empty and at
  line 2178 otherwise. Both report the same column.
- Worksheet.GetRows: it takes the sheet itself. A sheet the workbook lacks is `None`
  outside it: `__call__` catches that `KeyError` (lines 133-136) and skips the importer,
  while the loaders that look a sheet up themselves (lines 1499, 1564, 1987) let it
  escape, and their models return an error. The `if not worksheet` guards after those
  lookups are not modelled, because a sheet the workbook has is taken as present.
- Deferred.DeferCCContacts: it takes the `CCContacts` cell text, so the `KeyError` of
  `row['CCContacts']` (line 640) on a sheet without that column is not modelled.
- Addresses.ListTypes: `PHYSICAL_ADDRESS`, `POSTAL_ADDRESS` and `BILLING_ADDRESS` come
  from `senaite.core.schema.addressfield`, which is not part of this model. Their values
  are taken to be `physical`, `postal` and `billing`.

## Findings

| source | as written | input that shows it | evidently intended | confidence | as-written member | corrected member |
|---|---|---|---|---|---|---|
| src/senaite/core/exportimport/setupdata/__init__.py:1504-1524 | `count` counts every row and is never reset, so past the 500th row every row that names a service triggers its own `write_bucket` | 1200 rows that all name a service: 700 bucket writes | write the bucket once per batch of about 500 rows, resetting `count` at each write | medium, not executed | Uncertainties.ThousandTwoHundredRows | Uncertainties.LoadRowsBatched |
| src/senaite/core/exportimport/setupdata/__init__.py:2026 | the control reference list is guarded by `blank_uid`, which is always `None` on a control row | the row `pos=0, type=c, control_ref=u`, with `u` a UID: `control_ref` is `[]` | guard the control reference list by `control_uid`, as line 2025 guards the blank reference list by `blank_uid` | high, not executed | TemplateLayouts.AsWrittenDropsControl | TemplateLayouts.EntrySpec |
