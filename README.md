# Chemical Equipment Parameter Visualizer — a Dafny model of its data path

The backend takes uploaded CSV files of chemical equipment readings: flowrate, pressure and temperature per
piece of equipment. This model covers what the backend does with them:

- It resolves arbitrary headers onto canonical equipment fields.
- It cleans and summarises the table, and picks the error a failed upload reports.
- It combines the summaries of every processed dataset.
- It keeps only the newest datasets and pages through the history.
- It builds the data of a PDF report.

The desktop client contributes two pieces: the history tab's pager and table, and the dashboard's statistics.

A parsed file is a `Frame.Table`: a header row and rows of cells. Each cell is missing, an exact real number or
text. Python's JSON-like documents are `Py.Py` values, and a Python dict is an insertion-ordered association list
(`Common.Dict`). The ORM rows are values (`Models`). The dataset table whose rows the cleanup deletes is a class,
`HistoryUtils.DatasetStore`, holding a newest-first sequence, with the retention limit as a constructor
parameter. Loops in the source are methods proved against specification functions:

- the column check and the cleaner;
- the metric loop of the per-dataset summary;
- the distribution merge;
- the cleanup's deletion loop;
- the batch report loop;
- the history tab's row loop.

Expression-built results are functions with lemmas.

Each source module has its own Dafny module:

- `equipment_utils.dfy`, `equipment_views.dfy` and `summary_views.dfy`;
- `history_utils.dfy` and `history_views.dfy`;
- `utils.dfy`, `models.dfy`, `serializers.dfy` and `equipment_serializers.dfy`;
- `pdf_views.dfy` and `pdf_utils.dfy`;
- `history_tab.dfy` and `dashboard_tab.dfy`.

The shared vocabulary lives in `common.dfy`, `py.dfy`, `text.dfy` (ASCII string methods), `numeric.dfy` (pandas'
statistics on exact reals) and `frame.dfy` (the DataFrame operations the backend uses).

Where the documented behaviour and the code differ, the model follows the code:

- Cleaning is not idempotent. The type text is stringified before the blank check, so a missing
  `equipment_type` becomes the text `Nan` on the first pass (`EquipmentUtils.MissingTypeText`), while a blank
  one becomes missing on the first pass and `Nan` on a second (`EquipmentUtils.CleanTypeTwice`).
- `process_equipment_csv` rejects a frame with no data rows, so a zero-row upload never reaches the summary.
- The per-dataset summary endpoint resolves columns by header order and does not trim headers. The upload
  pipeline resolves them by alias priority after trimming (`SummaryViews.HeaderOrderBeatsPriority`,
  `SummaryViews.UntrimmedHeaderMissed`).
- A NumPy NaN nested in a dict survives one pass of `make_json_serializable` as a Python float NaN
  (`EquipmentViews.SerializeTwice`).
- An average of exactly 0.0 counts as absent, which hides the operational section in the PDF preview
  (`PdfViews.ZeroAveragesHideOperationalSection`).
- The preview announces a filename built from the raw dataset name. The report itself sanitises the name, so the two differ
  for a name such as `a/b` (`PdfViews.PreviewFilenameKeepsUnsafeName`).

## Model

| member | source | states |
|---|---|---|
| Models.NumericNotCategorical | datasetapi/datasets/models.py:130-136 | no column dtype is both numeric and categorical |
| Models.MissingOf | datasetapi/datasets/models.py:80 | the reported `missing` is the stored `missing_count`, and 0 when that key is absent |
| Models.EntryMissing | datasetapi/datasets/models.py:73-94 | in both the numeric and the categorical entry, `missing` is the column's `missing_count`, defaulting to 0 |
| Models.CollectSummary | datasetapi/datasets/models.py:68-95 | the loop over `columns.items()` builds exactly the summary `SummaryOf` describes |
| Models.ColumnStatistics | datasetapi/datasets/models.py:64-66 | an unknown column gives `{}`; a known one gives its stored stats |
| Models.SummaryContents | datasetapi/datasets/models.py:68-95 | a summary holds exactly the columns whose recorded type it keeps, each with the entry built from its stats, and no other key |
| Models.KeptExclusive | datasetapi/datasets/models.py:72-88 | no recorded type is kept by both summaries |
| Models.SummariesDisjoint | datasetapi/datasets/models.py:68-95 | no column name appears in both the numeric and the categorical summary |
| Models.Int32NotSummarised | datasetapi/datasets/models.py:68-82 | a column recorded as `int32` counts as numeric for `is_numeric` and is still left out of the numeric summary |
| Serializers.ValidateFile | datasetapi/datasets/serializers.py:82-96 | the size is checked first, against 10 MiB; an allowed size is accepted exactly when `.` plus the text after the last dot of the lower-cased name is an allowed extension; rejections carry one of the two messages |
| Serializers.DottedAllowed | datasetapi/datasets/serializers.py:89-91 | an extension with a dot put in front is allowed exactly when `process_uploaded_file` has a reader for it |
| Serializers.AcceptedFilesAreReadable | datasetapi/datasets/serializers.py:82-96 | for an allowed size, the upload check accepts exactly the files `process_uploaded_file` can read |
| Serializers.DotlessNameAccepted | datasetapi/datasets/serializers.py:90-91 | a name with no dot that lower-cases to `csv` passes the check, since the whole name counts as its extension |
| Serializers.DotFreeSegment | datasetapi/datasets/serializers.py:90 | splitting a dot-free name on `.` leaves the whole name as the last part |
| Serializers.FillMissing | datasetapi/datasets/serializers.py:120-123 | afterwards every required key is present, present values are unchanged, and each added key is a required key holding None |
| Serializers.ToRepresentation | datasetapi/datasets/serializers.py:112-129 | `averages` ends up holding the three required keys (None where they were missing) with the present values unchanged; `equipment_type_distribution` is kept, or added as `{}`; every other key is unchanged |
| Utils.ReaderFor | datasetapi/datasets/utils.py:15-22 | csv, json, xlsx and xls have a reader and nothing else does; csv goes to the CSV reader, json to the JSON reader, xlsx and xls to the Excel reader |
| Utils.ProcessUploadedFileOutcome | datasetapi/datasets/utils.py:8-35 | an unknown extension fails as "Error processing file: Unsupported file type: …"; a reader's exception is wrapped as "Error processing file: …"; a parsed table comes back with its metadata |
| Utils.MetadataOfMeaning | datasetapi/datasets/utils.py:25-30 | the metadata counts the rows and the columns, lists the headers in order, and records a dtype for exactly the headers, each the dtype of its column (of its last column, were a header repeated, which pandas' readers rule out by renaming) |
| Utils.FileExtensionShape | datasetapi/datasets/utils.py:12 | the extension is the dot-free tail of the lower-cased name after its last dot; a name with no dot is its own extension |
| Utils.CalculateColumnStatistics | datasetapi/datasets/utils.py:38-72 | count + missing_count is the column length; the numeric detail is there exactly for a numeric dtype; otherwise the categorical detail is computed |
| Utils.NumericDetailBounds | datasetapi/datasets/utils.py:51-60 | the numeric statistics are None exactly for an empty column; when a number is present, min <= mean, median, q25, q75 <= max |
| Utils.CategoricalDetailPresence | datasetapi/datasets/utils.py:64-65 | the categorical detail is present exactly when some value is present |
| Utils.CategoricalDetailMost | datasetapi/datasets/utils.py:64-68 | most_frequent is the `str` text of a present cell and frequency that cell's own number of occurrences (cells are counted as values, before `str` is applied), and no present cell occurs more often |
| Utils.CategoricalDetailTopKeys | datasetapi/datasets/utils.py:69 | top_values has at most ten keys, each once, and they are exactly the `str` texts of the first ten entries of `value_counts()` |
| Utils.CategoricalDetailTopCounts | datasetapi/datasets/utils.py:69 | a key's count is the number of occurrences of the last of those ten values whose text it is, as the dict comprehension overwrites |
| Utils.CategoricalDetailTopOrder | datasetapi/datasets/utils.py:69 | when none of the ten values share a text, top_values holds all of them, most frequent first |
| Utils.TextKeyedKeys | datasetapi/datasets/utils.py:69 | `{str(k): int(v) for k, v in ...}` has one key per distinct text of the entries and no other, so no more keys than entries |
| Utils.TextKeyedLast | datasetapi/datasets/utils.py:69 | a key holds the count of the last entry rendering to it |
| Utils.TextKeyedInOrder | datasetapi/datasets/utils.py:69 | with pairwise different texts the dict is the entries, in order, keyed by their texts |
| Utils.CellValueCountsSize | datasetapi/datasets/utils.py:45-64 | `value_counts()` has as many entries as `nunique()` counts distinct present values |
| Utils.CollidingUnique | datasetapi/datasets/utils.py:45 | the column 1.0, "1.0", "x" has three distinct values |
| Utils.CollidingFrequency | datasetapi/datasets/utils.py:64-68 | with `str(1.0)` = "1.0" its frequency is still 1: the number and the text are counted apart |
| Utils.CollidingKeys | datasetapi/datasets/utils.py:69 | its top_values has exactly the keys "1.0" and "x": the two values with text "1.0" share one key |
| Utils.MissingPercentage | datasetapi/datasets/utils.py:101 | the percentage is a finite number whenever the frame has at least one cell |
| Utils.StatsList | datasetapi/datasets/utils.py:90-91 | one set of statistics per column, in column order |
| Utils.ColumnsEntries | datasetapi/datasets/utils.py:89-91 | `columns` has exactly one entry per distinct header, and a header's entry is the statistics of its column (of its last column, were a header repeated, which pandas' readers rule out by renaming) |
| Utils.NumericColumnCount | datasetapi/datasets/utils.py:94 | the count is at most the number of columns, equals it exactly when every column is numeric and is zero exactly when none is |
| Utils.GenerateSummaryStatistics | datasetapi/datasets/utils.py:75-104 | dataset_info counts rows, columns and missing cells; `columns` has one entry per header; total_missing_values equals missing_values_total; numeric_columns_count is the number of columns with a numeric dtype, and the two counts add up to the column count |
| Utils.HeadCount | datasetapi/datasets/utils.py:186 | `head(n)` keeps at most the n rows asked for and stops short only at the end of the table; a negative n drops the last -n rows, or all rows when there are fewer |
| Utils.PreviewValue | datasetapi/datasets/utils.py:195-200 | a preview value is None exactly when the cell is missing; in a frame with an `object` column every present cell becomes its `str` text, numbers included; otherwise a number becomes a float and text stays text |
| Utils.NumericFrameNoText | datasetapi/datasets/utils.py:190-197 | a frame without an `object` column holds no text, so there every present preview value is a float |
| Utils.PreviewRows | datasetapi/datasets/utils.py:189-201 | the loops produce one dict per kept row, in order, each built from that row's cells, converted as text exactly when the frame has an `object` column |
| Utils.RowDataGet | datasetapi/datasets/utils.py:191-200 | with distinct headers, each column of a preview row reads back its own converted cell, and the keys are the headers in order |
| Utils.GetDatasetPreview | datasetapi/datasets/utils.py:182-207 | the preview lists the headers, the first `HeadCount` rows converted in order (as text exactly when the frame has an `object` column), and their number |
| EquipmentSerializers.ValidateFile | datasetapi/datasets/equipment_serializers.py:16-26 | a file over 10 MB is refused with the size message; below that a file is accepted exactly when its lower-cased name ends in `.csv` |
| EquipmentSerializers.CsvSuffixSegment | datasetapi/datasets/equipment_serializers.py:23 | a name ending in `.csv` has `csv` after its last dot |
| EquipmentSerializers.EquipmentCheckStricter | datasetapi/datasets/equipment_serializers.py:16-26 | every file the equipment upload check accepts, the generic upload check accepts as well |
| EquipmentSerializers.DotlessCsvDiffers | datasetapi/datasets/equipment_serializers.py:23 | a file named just `csv` passes the generic check but is refused by the equipment check, so the inclusion is strict |
| EquipmentSerializers.MetricEntryMissing | datasetapi/datasets/equipment_serializers.py:60 | the reported missing_count is the stored one, or 0 when none is stored |
| EquipmentSerializers.GetOperationalSummary | datasetapi/datasets/equipment_serializers.py:47-63 | the summary holds exactly the three metrics that are present, each with its five fields read from the stored metric block |
| EquipmentSerializers.GetEquipmentDistribution | datasetapi/datasets/equipment_serializers.py:65-75 | each stored field is passed through; each absent field takes its own default (0, {}, {} and None), so an absent analysis gives all four |
| EquipmentSerializers.GetDataQualityMetrics | datasetapi/datasets/equipment_serializers.py:77-87 | each stored field is passed through; each absent field takes its own default (0, 0, 0 and []), so an absent entry gives all four |
| EquipmentSerializers.ValidationResponseKeys | datasetapi/datasets/equipment_serializers.py:125-137 | the six declared fields come first, in order, and data_preview is there exactly when the response has a preview |
| EquipmentUtils.AliasNames | datasetapi/datasets/equipment_utils.py:12-26 | the nine field names are distinct, and no alias has an upper-case letter, so lower-casing an alias leaves it unchanged |
| EquipmentUtils.AliasOwners | datasetapi/datasets/equipment_utils.py:12-26 | every alias belongs to exactly one field: no two fields share an alias |
| EquipmentUtils.RequiredNames | datasetapi/datasets/equipment_utils.py:12-18 | the five required fields have distinct names |
| EquipmentUtils.NormalizedHeaders | datasetapi/datasets/equipment_utils.py:51 | one normalised name per header, in order, each the header lower-cased and stripped |
| EquipmentUtils.Pick | datasetapi/datasets/equipment_utils.py:56-62 | a picked column is one of the frame's own headers |
| EquipmentUtils.FirstMatch | datasetapi/datasets/equipment_utils.py:56-57 | no alias matches exactly when no lower-cased alias is a normalised header; otherwise the result is the position of a matching alias |
| EquipmentUtils.PickFirstMatch | datasetapi/datasets/equipment_utils.py:56-62 | the pick follows the first alias, in priority order, that matches, to the first header with that normalised name |
| EquipmentUtils.ResolveMeaning | datasetapi/datasets/equipment_utils.py:56-62 | a field resolves exactly when one of its aliases matches; it then resolves to the first header whose normalised name is the first matching alias, and to no earlier one |
| EquipmentUtils.Resolutions | datasetapi/datasets/equipment_utils.py:54-62 | one resolution per field, in order |
| EquipmentUtils.MatchField | datasetapi/datasets/equipment_utils.py:55-62 | the inner loop finds a column exactly when the field resolves, and records the resolved header under the field's name |
| EquipmentUtils.MatchFields | datasetapi/datasets/equipment_utils.py:54-69 | the outer loop builds the mapping, the missing names and the error messages that the specification functions give |
| EquipmentUtils.ValidateCsvColumns | datasetapi/datasets/equipment_utils.py:29-82 | the result is the validation that the reference definition gives: required fields, then optional fields, then `is_valid` |
| EquipmentUtils.MapFieldsAppend | datasetapi/datasets/equipment_utils.py:54-77 | trying one table of fields and then another is the same as trying the two together |
| EquipmentUtils.MapFieldsGet | datasetapi/datasets/equipment_utils.py:60 | with distinct field names, a field that resolved maps to its header, and one that did not keeps its earlier entry |
| EquipmentUtils.MapFieldsDistinct | datasetapi/datasets/equipment_utils.py:60 | the mapping never holds a key twice |
| EquipmentUtils.MapFieldsKeys | datasetapi/datasets/equipment_utils.py:60 | every key of the mapping was already there or is a field name |
| EquipmentUtils.MissingFieldsNames | datasetapi/datasets/equipment_utils.py:64-65 | every missing name belongs to a field that did not resolve |
| EquipmentUtils.MissingFieldsMeaning | datasetapi/datasets/equipment_utils.py:64-65 | with distinct names, a field is listed as missing exactly when it did not resolve |
| EquipmentUtils.MissingFieldsEmpty | datasetapi/datasets/equipment_utils.py:64-65 | nothing is missing exactly when every field resolved |
| EquipmentUtils.Unresolved | datasetapi/datasets/equipment_utils.py:64 | the unresolved fields are drawn from the field table |
| EquipmentUtils.Messages | datasetapi/datasets/equipment_utils.py:66-69 | one message per unresolved field, naming it and listing its aliases |
| EquipmentUtils.MissingNamesAligned | datasetapi/datasets/equipment_utils.py:64-65 | missing_columns is the names of the unresolved fields, in declaration order |
| EquipmentUtils.MissingErrorsAligned | datasetapi/datasets/equipment_utils.py:64-69 | the i-th error describes the i-th missing field |
| EquipmentUtils.MissingOutcome | datasetapi/datasets/equipment_utils.py:54-69 | nothing is missing exactly when every field resolves, and a field is missing exactly when it does not resolve |
| EquipmentUtils.ValidationOutcome | datasetapi/datasets/equipment_utils.py:42-82 | is_valid holds exactly when missing_columns is empty, exactly when every required field resolves; a required field is missing exactly when it does not resolve; missing names and errors line up; found_columns is the header list |
| EquipmentUtils.MappingOutcome | datasetapi/datasets/equipment_utils.py:54-77 | the mapping has distinct keys, holds each resolving field with its resolved header, and holds nothing else |
| EquipmentUtils.MappingIsAll | datasetapi/datasets/equipment_utils.py:54-77 | the required pass then the optional pass is one pass over all nine fields |
| EquipmentUtils.ColumnMappingMeaning | datasetapi/datasets/equipment_utils.py:42-77 | column_mapping has distinct keys, gives each of the nine fields exactly its resolution, and has no other key |
| EquipmentUtils.ResolvedAlias | datasetapi/datasets/equipment_utils.py:56-59 | a resolved field's header normalises to one of that field's own aliases |
| EquipmentUtils.MappedHeadersDistinct | datasetapi/datasets/equipment_utils.py:54-77 | two different fields never resolve to the same header |
| EquipmentUtils.InvertMappingGet | datasetapi/datasets/equipment_utils.py:100 | inverting a dict with distinct values maps each value back to its key, and has no other key |
| EquipmentUtils.ColumnMappingInjective | datasetapi/datasets/equipment_utils.py:100 | the validation mapping has distinct values, so its inversion loses nothing |
| EquipmentUtils.RenamedHeaders | datasetapi/datasets/equipment_utils.py:101 | renaming keeps the header count and replaces each header by its entry in the inverted mapping, if it has one |
| EquipmentUtils.RenamedResolved | datasetapi/datasets/equipment_utils.py:99-101 | a header some field resolved to is renamed to that field's canonical name |
| EquipmentUtils.RenamedOther | datasetapi/datasets/equipment_utils.py:99-101 | a header no field resolved to keeps its name |
| EquipmentUtils.RenameToCanonical | datasetapi/datasets/equipment_utils.py:99-101 | both of the above for every header |
| EquipmentUtils.DropNegative | datasetapi/datasets/equipment_utils.py:112 | a negative number becomes missing; every other cell is unchanged |
| EquipmentUtils.CleanType | datasetapi/datasets/equipment_utils.py:116-118 | a type cell becomes missing exactly when its text is blank, and otherwise becomes its stripped text in title case; it is never a number |
| EquipmentUtils.FirstDuplicate | datasetapi/datasets/equipment_utils.py:105-122 | none is found exactly when no handled name labels two columns |
| EquipmentUtils.CleanRows | datasetapi/datasets/equipment_utils.py:103-122 | cleaning keeps every row and the length of every row |
| EquipmentUtils.MapColumn | datasetapi/datasets/equipment_utils.py:108 | assigning a column rewrites that position of every row and nothing else |
| EquipmentUtils.CleanColumn | datasetapi/datasets/equipment_utils.py:105-122 | cleaning one handled column extends the cleaned set by that column |
| EquipmentUtils.HandleColumn | datasetapi/datasets/equipment_utils.py:105-122 | one cleaning step fails exactly when its name labels two columns, and otherwise cleans that column |
| EquipmentUtils.CleanAndValidateData | datasetapi/datasets/equipment_utils.py:85-124 | the loops produce exactly the cleaned table of the reference definition, or name the column that fails |
| EquipmentUtils.CleanTextColumns | datasetapi/datasets/equipment_utils.py:114-122 | the type and id steps complete the reference cleaning |
| EquipmentUtils.CleanTableShape | datasetapi/datasets/equipment_utils.py:85-124 | cleaning succeeds exactly when no handled name labels two columns; it then has the renamed headers, all rows and columns, and each cell cleaned by its column's rule |
| EquipmentUtils.CleanNumericCell | datasetapi/datasets/equipment_utils.py:104-112 | a coerced column holds no text, and a flowrate is never negative |
| EquipmentUtils.CleanTextCell | datasetapi/datasets/equipment_utils.py:115-122 | a type cell is missing exactly when blank, otherwise title-cased; a missing type becomes `Nan`; an id is its stripped text and never missing |
| EquipmentUtils.CleanCellOfType | datasetapi/datasets/equipment_utils.py:115-118 | the type column follows the type rule |
| EquipmentUtils.CleanCellOfId | datasetapi/datasets/equipment_utils.py:121-122 | the id column follows the id rule |
| EquipmentUtils.CleanOtherCell | datasetapi/datasets/equipment_utils.py:103-122 | every column the cleaner does not handle keeps its cell |
| EquipmentUtils.MissingTypeText | datasetapi/datasets/equipment_utils.py:116 | a missing type is written `nan` and cleans to `Nan`, not to a missing cell |
| EquipmentUtils.CleanTypeIdempotent | datasetapi/datasets/equipment_utils.py:116-118 | cleaning a cleaned type cell again changes nothing when it was not made missing |
| EquipmentUtils.CleanIdIdempotent | datasetapi/datasets/equipment_utils.py:122 | cleaning an id twice is cleaning it once |
| EquipmentUtils.CleanCellIdempotent | datasetapi/datasets/equipment_utils.py:103-122 | cleaning a cleaned cell changes nothing, except a type cell that cleaning made missing |
| EquipmentUtils.CleanTypeTwice | datasetapi/datasets/equipment_utils.py:116-118 | a blank type becomes missing and a second pass writes `Nan`, so the cleaner is not idempotent on that cell |
| EquipmentUtils.CleanedIsSummaryInput | datasetapi/datasets/equipment_utils.py:85-124 | the cleaned table has each handled name at most once and no text in the coerced columns |
| EquipmentUtils.ColumnNamed | datasetapi/datasets/equipment_utils.py:155 | a column is found exactly when its name is a header, and it has one cell per row |
| EquipmentUtils.CompleteRows | datasetapi/datasets/equipment_utils.py:148 | at most the number of rows |
| EquipmentUtils.MissingCounts | datasetapi/datasets/equipment_utils.py:151 | one count per column: its number of missing cells |
| EquipmentUtils.ColumnsWithMissing | datasetapi/datasets/equipment_utils.py:150 | names exactly the headers of the columns with a missing cell |
| EquipmentUtils.Percentages | datasetapi/datasets/equipment_utils.py:161 | the same keys as the counts, in order, each with its rounded share of the rows |
| EquipmentUtils.MissingByColumnMeaning | datasetapi/datasets/equipment_utils.py:151 | one entry per header; a header that occurs once reports its column's missing count |
| EquipmentUtils.MissingPercentageMeaning | datasetapi/datasets/equipment_utils.py:149 | the missing percentage is NaN exactly when the frame has no cell, and otherwise lies in [0, 100] |
| EquipmentUtils.DataQualityMeaning | datasetapi/datasets/equipment_utils.py:146-152 | total_rows is the row count, complete_rows is at most that, the percentage behaves as above, and the two per-column entries name the right headers |
| EquipmentUtils.Round2Percent | datasetapi/datasets/equipment_utils.py:161 | rounding to two decimals keeps a percentage within [0, 100] |
| EquipmentUtils.PercentBounds | datasetapi/datasets/equipment_utils.py:161 | every type percentage lies in [0, 100] |
| EquipmentUtils.EquipmentAnalysisMeaning | datasetapi/datasets/equipment_utils.py:154-162 | the analysis exists exactly with a type column; it has one entry per distinct present type with its true count, most frequent first, adding up to at most the row count; most_common is None exactly when nothing is present and is otherwise a top type; the percentages follow the same keys |
| EquipmentUtils.MetricMeaning | datasetapi/datasets/equipment_utils.py:167-207 | a metric has a block exactly when its column exists and holds a number; count >= 1, count + missing_count is the row count, average and median lie within [min, max], and the std is defined exactly when there are two or more values |
| EquipmentUtils.MetricsForGet | datasetapi/datasets/equipment_utils.py:165-209 | operational_metrics holds each listed metric's block when it has one, and no block for an unlisted name |
| EquipmentUtils.MetricsFor | datasetapi/datasets/equipment_utils.py:165-209 | every key of operational_metrics is a listed metric |
| EquipmentUtils.InGroup | datasetapi/datasets/equipment_utils.py:218 | a group has no more cells than the column |
| EquipmentUtils.InGroupLength | datasetapi/datasets/equipment_utils.py:218 | a group has one cell per row of its type |
| EquipmentUtils.GroupOfMeaning | datasetapi/datasets/equipment_utils.py:218 | a group's count is at most its number of rows, its mean is NaN exactly when the count is 0, and its std is defined exactly when the count is at least 2 |
| EquipmentUtils.GroupsOf | datasetapi/datasets/equipment_utils.py:218-219 | the group keys are the present types rearranged into ascending code-point order (groupby sorts its keys), each with that type's group statistics |
| EquipmentUtils.GroupKeys | datasetapi/datasets/equipment_utils.py:218-219 | the groups are exactly the present types, each once |
| Text.SortTexts | datasetapi/datasets/equipment_utils.py:218 | sorting the group keys gives them in ascending code-point order, as a rearrangement of the same texts |
| Text.InsertText | datasetapi/datasets/equipment_utils.py:218 | inserting a text into an ascending list keeps it ascending and adds exactly that text |
| Text.TextAtMostTotal | datasetapi/datasets/equipment_utils.py:218 | any two texts are ordered one way or the other by the key order |
| Text.TextAtMostTransitive | datasetapi/datasets/equipment_utils.py:218 | the key order is transitive |
| Text.TextAtMostAntisymmetric | datasetapi/datasets/equipment_utils.py:218 | two texts ordered both ways are equal |
| Text.AscendingPairwise | datasetapi/datasets/equipment_utils.py:218 | in an ascending list every earlier key is at most every later one |
| Text.StripPadded | datasetapi/datasets/equipment_utils.py:116 | `strip` removes the whitespace around a text and nothing else |
| EquipmentUtils.DistributionForGet | datasetapi/datasets/equipment_utils.py:216-219 | there is a `<metric>_by_equipment_type` entry for each listed metric that is a column, and no other |
| EquipmentUtils.DistributionMeaning | datasetapi/datasets/equipment_utils.py:211-221 | the distribution is empty without a type column; otherwise each numeric column gets its per-type groups, keyed by exactly the types of the equipment analysis |
| EquipmentUtils.ProcessEquipmentCsvOutcome | datasetapi/datasets/equipment_utils.py:226-277 | processing succeeds exactly when the frame is non-empty, validates and cleans; the result is then the cleaned frame with all rows, and the summary records the validation and the original and standardised headers; a failed check raises ValidationError with its message |
| EquipmentUtils.AsWrittenAgreesOtherwise | datasetapi/datasets/equipment_utils.py:241-277 | the code as written agrees with the documented behaviour except where a check fails inside the `try`, where it raises ValueError wrapping the ValidationError's text |
| EquipmentUtils.ValidationErrorTextPlain | datasetapi/datasets/equipment_utils.py:277 | a plain message is shown as `['message']` |
| EquipmentUtils.AsWrittenEmptyFrame | datasetapi/datasets/equipment_utils.py:245-246 | a header-only frame raises ValueError as written, where the documented result is ValidationError("CSV file is empty") |
| EquipmentUtils.GetEquipmentDataPreview | datasetapi/datasets/equipment_utils.py:280-313 | when a row is kept and some label is shared by two columns, `row[col]` is a Series and `pd.isna` on it raises pandas' "truth value of a Series is ambiguous" error; otherwise the preview has the headers, the first `head(rows)` rows converted in order (as text exactly when the frame has an `object` column), their number, and the size of the whole frame |
| EquipmentUtils.DuplicateHeaderMeaning | datasetapi/datasets/equipment_utils.py:297-300 | some label occurs twice among the headers exactly when the headers are not pairwise distinct |
| EquipmentUtils.CanonicalOwner | datasetapi/datasets/equipment_utils.py:45-60 | a header spelled as a field's canonical name can be resolved by that field only |
| EquipmentUtils.CanonicalNameTwice | datasetapi/datasets/equipment_utils.py:100-101 | when one header resolves to a field and another column is already spelled as that field's canonical name, the rename gives both columns that name (with `Location` and `location`, two `location` columns) |
| EquipmentUtils.CanonicalNameRepeated | datasetapi/datasets/equipment_utils.py:100-101 | the renamed headers are then not distinct; when cleaning still succeeds (the field is not one the cleaner handles, as for location) and the frame has rows, `GetEquipmentDataPreview` fails and `ValidateCsv` answers 500 |
| EquipmentUtils.EquipmentIdRenamed | datasetapi/datasets/equipment_utils.py:58-101 | after a successful validation some column is renamed `equipment_id` |
| EquipmentUtils.CleanedIdIsText | datasetapi/datasets/equipment_utils.py:121-122 | every cell of the cleaned `equipment_id` column is text |
| EquipmentUtils.CleanedHasObjectColumn | datasetapi/datasets/equipment_utils.py:85-122 | a validated, cleaned frame with rows has an `object` column, so its preview shows every present value as text |
| EquipmentViews.WeightZero | datasetapi/datasets/equipment_views.py:286-288 | the weight of a metric is 0 exactly when every summary with that average has no records |
| EquipmentViews.CombinedAverageNone | datasetapi/datasets/equipment_views.py:282-300 | a combined average is None exactly when every summary with that average has no records (in particular when none has it) |
| EquipmentViews.EqualWeightSum | datasetapi/datasets/equipment_views.py:282-284 | with one shared record count w the weighted sum is w times the sum of the averages |
| EquipmentViews.EqualWeightCount | datasetapi/datasets/equipment_views.py:286-288 | with one shared record count w the weight is w once per contributing average |
| EquipmentViews.EqualWeightsGiveMean | datasetapi/datasets/equipment_views.py:282-300 | when every contributing summary has the same positive record count, the combined average is the plain mean of their averages |
| EquipmentViews.TermBetween | datasetapi/datasets/equipment_views.py:282 | one summary's weighted term lies between lo and hi times its weight |
| EquipmentViews.WeightedSumBounds | datasetapi/datasets/equipment_views.py:282-288 | the weighted sum lies between lo and hi times the total weight |
| EquipmentViews.CombinedAverageBetween | datasetapi/datasets/equipment_views.py:282-300 | a combined average lies within any bounds of the averages of the summaries that carry weight |
| EquipmentViews.AddCountsSnoc | datasetapi/datasets/equipment_views.py:293-294 | adding the counts of one more entry is one more `acc.get(k, 0) + c` step |
| EquipmentViews.CombineDistributions | datasetapi/datasets/equipment_views.py:290-294 | the nested loop builds exactly the combined distribution of the reference definition |
| EquipmentViews.AddCountGet | datasetapi/datasets/equipment_views.py:294 | one step adds c to key k, leaves every other key's count alone, and adds k if it was absent |
| EquipmentViews.AddCountsGet | datasetapi/datasets/equipment_views.py:293-294 | adding a distribution adds its total for every key, and the keys are the union |
| EquipmentViews.SumValuesAdd | datasetapi/datasets/equipment_views.py:294 | one step raises the total of all counts by c |
| EquipmentViews.AddCountsSum | datasetapi/datasets/equipment_views.py:293-294 | adding a distribution raises the total of all counts by that distribution's total |
| EquipmentViews.AddCountsDistinct | datasetapi/datasets/equipment_views.py:293-294 | adding counts never creates a duplicate key |
| EquipmentViews.CombinedDistributionGet | datasetapi/datasets/equipment_views.py:290-294 | each type's combined count is the sum of its counts over all summaries |
| EquipmentViews.CombinedDistributionKeys | datasetapi/datasets/equipment_views.py:290-294 | the combined distribution holds exactly the types some summary counts |
| EquipmentViews.CombinedDistributionTotals | datasetapi/datasets/equipment_views.py:290-305 | each type appears once, and the combined counts add up to all the per-dataset counts |
| EquipmentViews.FirstMaximal | datasetapi/datasets/equipment_views.py:312 | the chosen entry has a maximal count, and every entry before it a strictly smaller one |
| EquipmentViews.MostCommon | datasetapi/datasets/equipment_views.py:312 | None exactly for an empty distribution; otherwise one of its types |
| EquipmentViews.MostCommonIsFirstMaximal | datasetapi/datasets/equipment_views.py:312 | the most common type has the largest combined count and every type before it a strictly smaller one |
| EquipmentViews.Included | datasetapi/datasets/equipment_views.py:315 | one (id, name) pair per summary, in order |
| EquipmentViews.DataSummaryCombined | datasetapi/datasets/equipment_views.py:268-321 | no summaries gives the 404 body; otherwise the total records, the three combined averages, the combined distribution, its size, the most common type and the included datasets |
| EquipmentViews.ToListNative | datasetapi/datasets/equipment_views.py:100-101 | `tolist` of a numeric array element gives plain Python |
| EquipmentViews.SerializableIsNative | datasetapi/datasets/equipment_views.py:90-105 | when arrays hold only finite numbers and no NumPy float is NaN, the result holds no NumPy value and no NaN |
| EquipmentViews.NativeUnchanged | datasetapi/datasets/equipment_views.py:90-105 | plain Python values come back unchanged |
| EquipmentViews.MakeJsonSerializableShape | datasetapi/datasets/equipment_views.py:90-105 | dict keys and list and array lengths are kept; NumPy scalars become the same Python number; NaN floats and None become None; other leaves are unchanged |
| EquipmentViews.SerializeTwice | datasetapi/datasets/equipment_views.py:90-105 | serialising twice is serialising once for plain arrays, but a NumPy NaN becomes a NaN float first and None only on a second pass |
| EquipmentViews.ValidateCsv | datasetapi/datasets/equipment_views.py:332-403 | no file and a non-`.csv` name give 400 with their messages; an empty or unparsable file and an empty frame give 400, any other failure 500; a passing frame whose cleaned headers repeat a label gives 500 "Failed to validate CSV: " with the pandas error of the preview; otherwise 200 with the validation, the headers, the file info, and a five-row preview of the cleaned frame exactly when the check passed; that frame always has an `object` column, so the preview's numbers are their `str` text |
| EquipmentViews.ValidateTable | datasetapi/datasets/equipment_views.py:356-403 | for a parsed table: an empty frame gives 400; a passing frame whose cleaning fails, or whose cleaned headers repeat a label, gives 500; otherwise 200 with the validation, the file info and the preview exactly when the check passed |
| EquipmentViews.UploadFailureOf | datasetapi/datasets/equipment_views.py:201-213 | a ValidationError gives the validation_error status and any other exception the processing_error status; details is `str(e)`: the message inside `['…']` for a ValidationError, the bare message otherwise |
| EquipmentViews.ParserFailureDetails | datasetapi/datasets/equipment_utils.py:274-275 | an unparsable CSV whose parser message is plain text is reported as a validation error whose details are `['CSV parsing error: <message>']` |
| EquipmentViews.PlainValidationDetails | datasetapi/datasets/equipment_views.py:201-206 | a ValidationError with a plain message is answered with that message inside `['…']` |
| EquipmentViews.UploadOfInvalidFrame | datasetapi/datasets/equipment_views.py:201-213 | a frame that fails the column check is reported as a validation error by the documented processing but as a processing error by the code as written |
| SummaryViews.HeaderMatch | datasetapi/datasets/summary_views.py:133-136 | no header matches exactly when no lower-cased header is an alias; otherwise the result is a matching position |
| SummaryViews.AveragesAfter | datasetapi/datasets/summary_views.py:108-150 | `averages` always has its three slots, whatever has been computed |
| SummaryViews.DataSummaryApi | datasetapi/datasets/summary_views.py:17-95 | an unknown id gives 404 with its message; an unprocessed dataset gives 400 before any file is looked at; a summary comes back exactly for a processed dataset whose file is there and reads, and it is the summary of that file |
| SummaryViews.UnprocessedIgnoresFile | datasetapi/datasets/summary_views.py:33-37 | for an unprocessed dataset the response does not depend on the file at all, and is a 400 |
| SummaryViews.FindHeader | datasetapi/datasets/summary_views.py:133-136 | the scan returns the first header whose lower-cased name is an alias |
| SummaryViews.UpdateAverage | datasetapi/datasets/summary_views.py:129-150 | one pass of the metric loop fills in that metric's slot and nothing else |
| SummaryViews.AveragesStep | datasetapi/datasets/summary_views.py:129-150 | before metric m is handled its slot holds None and its name occurs once, and handling it sets exactly that slot |
| SummaryViews.CopyCounts | datasetapi/datasets/summary_views.py:168-171 | copying distinct counts entry by entry gives the same dict |
| SummaryViews.CalculateDataSummary | datasetapi/datasets/summary_views.py:98-177 | the loops give the reference summary; total_records is the row count and `averages` has exactly the keys flowrate, pressure and temperature |
| SummaryViews.MetricAverageMeaning | datasetapi/datasets/summary_views.py:138-150 | an average is present exactly when the first matching header names a single column with a coercible value; it is then the mean rounded to two decimals, within half a hundredth of the values' range |
| SummaryViews.AveragesMeaning | datasetapi/datasets/summary_views.py:108-150 | `averages` holds the three metrics in order, each with its own average |
| SummaryViews.EquipmentDistributionMeaning | datasetapi/datasets/summary_views.py:152-175 | the distribution is empty when no header matches; otherwise each present value once with its true count, most frequent first, adding up to the number of present cells |
| SummaryViews.PickAt | datasetapi/datasets/equipment_utils.py:54-62 | the upload pipeline's resolver takes the header of the first alias, in priority order, that matches |
| SummaryViews.PickSecond | datasetapi/datasets/equipment_utils.py:54-62 | with two headers where only the second matches the first alias found, the pipeline takes the second |
| SummaryViews.HeaderOrderBeatsPriority | datasetapi/datasets/summary_views.py:129-136 | when a lower-priority alias's header comes first, this resolver takes it, while the upload pipeline takes the higher-priority one |
| SummaryViews.UntrimmedHeaderMissed | datasetapi/datasets/summary_views.py:134 | a header matching an alias only after trimming is missed here and found by the upload pipeline |
| SummaryViews.SharedMetricAliases | datasetapi/datasets/summary_views.py:123-127 | the metric alias lists match the upload pipeline's; the equipment alias list differs (`category` only there, `device_type` only here) |
| HistoryUtils.ToDelete | datasetapi/datasets/history_utils.py:73-74 | a cleanup deletes `n - MAX` datasets when the store holds n > MAX, and none otherwise |
| HistoryUtils.Survivors | datasetapi/datasets/history_utils.py:71-74 | a cleanup keeps min(n, MAX) datasets |
| HistoryUtils.Without | datasetapi/datasets/history_utils.py:82 | deleting by key never adds a dataset |
| HistoryUtils.WithoutAt | datasetapi/datasets/history_utils.py:82 | with unique keys, deleting a stored dataset removes exactly that entry |
| HistoryUtils.WithoutAbsent | datasetapi/datasets/history_utils.py:82 | deleting a key no dataset has changes nothing |
| HistoryUtils.WithoutValid | datasetapi/datasets/history_utils.py:82 | deleting by key keeps the store newest-first with unique keys |
| HistoryUtils.SpliceValid | datasetapi/datasets/history_utils.py:77-83 | removing a run of datasets keeps the store newest-first with unique keys |
| HistoryUtils.ProcessedCount | datasetapi/datasets/history_utils.py:121 | the processed count is at most the total; it equals the total exactly when every dataset is processed and is zero exactly when none is |
| HistoryUtils.DatasetStore.constructor | datasetapi/datasets/history_utils.py:12 | a new store is empty and has the given retention limit |
| HistoryUtils.DatasetStore.Upload | datasetapi/datasets/models.py:14 | an upload stamped no earlier than every stored dataset becomes the newest, and the store stays ordered with unique keys |
| HistoryUtils.DatasetStore.Delete | datasetapi/datasets/history_utils.py:82 | `dataset.delete()` removes the dataset with that key and nothing else |
| HistoryUtils.DatasetStore.DeleteNext | datasetapi/datasets/history_utils.py:77-83 | one pass of the loop deletes the next dataset past the kept ones |
| HistoryUtils.DatasetStore.DeleteAll | datasetapi/datasets/history_utils.py:76-85 | the loop leaves exactly the MAX newest and counts one deletion per dataset it was given |
| HistoryUtils.DatasetStore.CleanupAllOldDatasets | datasetapi/datasets/history_utils.py:60-102 | the store keeps the MAX newest; deleted_count is n - MAX when n > MAX and 0 otherwise; total_before and total_after are the sizes before and after |
| HistoryUtils.DatasetStore.CleanupOldDatasets | datasetapi/datasets/history_utils.py:15-57 | the same rule for any user argument; it returns the number deleted |
| HistoryUtils.DatasetStore.TriggerCleanupIfNeeded | datasetapi/datasets/history_utils.py:155-178 | a cleanup runs exactly when the store holds more than MAX; it then deletes n - MAX and leaves MAX; otherwise nothing changes and the count and limit are reported |
| HistoryUtils.DatasetStore.CleanupPreview | datasetapi/datasets/history_utils.py:188-213 | one entry per dataset a cleanup would delete, newest first, with its id, name, upload date, rows and file name |
| HistoryUtils.DatasetStore.Info | datasetapi/datasets/history_utils.py:112-144 | the total, the processed count (the number of datasets with `is_processed`, at most the total), limit and `max(0, MAX - total)`; oldest and newest are None exactly for an empty store, otherwise the last and first stored dataset, and bound every upload date |
| HistoryUtils.CleanupKeepsNewest | datasetapi/datasets/history_utils.py:71-74 | survivors then deleted datasets make up the whole store, and no deleted dataset is newer than a survivor |
| HistoryUtils.CleanupIdempotent | datasetapi/datasets/history_utils.py:60-102 | a second cleanup straight after the first deletes nothing |
| HistoryUtils.PreviewIsDeleted | datasetapi/datasets/history_utils.py:196-213 | the preview lists exactly what the cleanup then deletes, and is non-empty exactly when the store holds more than MAX |
| HistoryUtils.WithoutKeepsOthers | datasetapi/datasets/history_utils.py:82 | every dataset with another key survives a deletion by key |
| HistoryUtils.WithoutOnlyRemoves | datasetapi/datasets/history_utils.py:82 | what survives a deletion by key was stored before and does not have that key |
| HistoryViews.FloorDiv | datasetapi/datasets/history_views.py:182 | Python's floor division: the quotient rounds toward minus infinity for either sign of divisor |
| HistoryViews.Slice | datasetapi/datasets/history_views.py:151 | a queryset slice holds at most `stop - start` rows, each the row at its offset from `start` |
| HistoryViews.InfoOf | datasetapi/datasets/history_views.py:156-177 | an entry carries the dataset's id and upload date, and a summary block exactly when the dataset has a summary, counting its equipment types |
| HistoryViews.DatasetList | datasetapi/datasets/history_views.py:154-179 | the loop gives one entry per dataset of the page, in order |
| HistoryViews.PaginationOf | datasetapi/datasets/history_views.py:182-195 | has_next exactly when page < total_pages, has_previous exactly when page > 1, and next_page and previous_page are set exactly then |
| HistoryViews.DatasetHistory | datasetapi/datasets/history_views.py:141-204 | an unparsable page or page_size gives 400 with its message; a page response echoes the page, the page size capped at 50 and the total count |
| HistoryViews.PageContents | datasetapi/datasets/history_views.py:143-151 | for a positive page and page size the page holds, newest first, the datasets from offset (page - 1) * size: min(size, what remains) of them |
| HistoryViews.TotalPagesIsCeiling | datasetapi/datasets/history_views.py:182 | total_pages is the ceiling of total_count / page_size, and 0 exactly when there is no dataset |
| HistoryViews.ItemOnItsPage | datasetapi/datasets/history_views.py:143-182 | the dataset at position i is item i % size of page i / size + 1 |
| HistoryViews.ZeroPageSizeFails | datasetapi/datasets/history_views.py:182-211 | a page size of 0 reaches the division and gives a 500 |
| HistoryViews.NegativePageSizeRejected | datasetapi/datasets/history_views.py:144-151 | a negative page size on page 1 makes the slice end negative, which Django rejects with a ValueError: a 400 |
| HistoryViews.Find | datasetapi/datasets/history_views.py:242 | the lookup fails exactly when no stored dataset has the key, and otherwise returns a stored dataset with that key |
| HistoryViews.DeleteSpecificDataset | datasetapi/datasets/history_views.py:216-265 | without a truthy confirm, 400 and nothing deleted; an unknown key, 404 and nothing deleted; otherwise the dataset's details captured first, then exactly that dataset removed |
| HistoryViews.GetHistoryStatus | datasetapi/datasets/history_views.py:22-48 | the history report, the cleanup preview with its length, and the retention limit |
| PdfViews.ProcessedWithId | datasetapi/datasets/pdf_views.py:33 | the lookup finds nothing exactly when no dataset has that id and is processed, and otherwise a stored processed dataset with that id |
| PdfViews.GeneratePdfReportAsWritten | datasetapi/datasets/pdf_views.py:22-69 | as written, a missing or unprocessed dataset gives a 500 carrying the Http404 text; a found dataset is handled normally |
| PdfViews.GeneratePdfReport | datasetapi/datasets/pdf_views.py:22-69 | a missing dataset gives 404; a found dataset without a summary gives 400 with the no-summary message; with a summary, 200 with the sanitised default filename and the size of the rendered PDF, or 500 with the rendering exception's message when rendering fails |
| PdfViews.GenerateDiffersOnlyWhenMissing | datasetapi/datasets/pdf_views.py:33-69 | the as-written and corrected endpoints agree exactly on the ids that name a processed dataset |
| PdfViews.UnknownIdGives500 | datasetapi/datasets/pdf_views.py:33-69 | for an id with no dataset the endpoint as written answers 500 where the 404 was intended |
| PdfViews.PreviewOf | datasetapi/datasets/pdf_views.py:97-127 | title and overview are always on; each other section is on exactly under its condition; equipment types and columns are counted; estimated_pages is 3 to 5, 5 exactly with a distribution and more than ten columns, 3 exactly with neither |
| PdfViews.PreviewPdfReportAsWritten | datasetapi/datasets/pdf_views.py:74-143 | as written, a missing or unprocessed dataset gives a 500 carrying the Http404 text |
| PdfViews.PreviewPdfReport | datasetapi/datasets/pdf_views.py:74-143 | a missing dataset gives 404; a found dataset gives 200 exactly when it has a summary, with the preview (`PreviewOf`) built from that dataset, its summary and its column records, and 400 with the no-summary message exactly when it has none |
| PdfViews.PreviewDiffersOnlyWhenMissing | datasetapi/datasets/pdf_views.py:85-143 | the two previews agree exactly on the ids that name a processed dataset |
| PdfViews.ZeroAveragesHideOperationalSection | datasetapi/datasets/pdf_views.py:111 | three averages of 0.0 read as false, so the preview drops the operational section while the report still prints all three average rows |
| PdfViews.PreviewFilenameOfCleanName | datasetapi/datasets/pdf_views.py:126 | for a name with only safe characters and no trailing space, the announced filename is the one the report gets |
| PdfViews.PreviewFilenameKeepsUnsafeName | datasetapi/datasets/pdf_views.py:126 | for the name `a/b` the announced filename differs from the report's |
| PdfViews.BatchItemOf | datasetapi/datasets/pdf_views.py:228-266 | every result echoes its requested id |
| PdfViews.BatchItemOutcome | datasetapi/datasets/pdf_views.py:228-266 | an id succeeds exactly when it names a processed dataset with a summary whose report builds; an unknown id fails as not found |
| PdfViews.CountSucceeded | datasetapi/datasets/pdf_views.py:250 | at most the number of results |
| PdfViews.BatchGenerateReports | datasetapi/datasets/pdf_views.py:198-275 | an empty list and one of more than ten ids are refused with their messages; otherwise one result per id in request order, successful counts the successes and successful + failed is the number requested |
| PdfViews.BatchLoop | datasetapi/datasets/pdf_views.py:223-266 | the loop produces one result per id, in order, and counts successes and failures correctly |
| PdfViews.BatchItemFor | datasetapi/datasets/pdf_views.py:228-266 | the loop body gives the id its result |
| PdfViews.CountSucceededAll | datasetapi/datasets/pdf_views.py:268-273 | all succeeded exactly when the count is the batch size, and none exactly when it is 0 |
| PdfUtils.SafeChars | datasetapi/datasets/pdf_utils.py:445 | the filtered name is no longer than the name and holds only alphanumerics, spaces, `-` and `_` |
| PdfUtils.SafeCharsCount | datasetapi/datasets/pdf_utils.py:445 | every safe character is kept as often as it occurs, and every other character is dropped |
| PdfUtils.SafeCharsOfSafe | datasetapi/datasets/pdf_utils.py:445 | a name made only of safe characters passes the filter unchanged |
| PdfUtils.SafeName | datasetapi/datasets/pdf_utils.py:445 | the sanitised name holds only safe characters, does not end in whitespace, and is a prefix of the filtered name |
| PdfUtils.SafeNameIdempotent | datasetapi/datasets/pdf_utils.py:445 | sanitising twice is sanitising once |
| PdfUtils.SafeNameOfClean | datasetapi/datasets/pdf_utils.py:445 | a clean name with no trailing space is its own sanitised form |
| PdfUtils.DefaultFilename | datasetapi/datasets/pdf_utils.py:446 | the made-up filename starts with `dataset_report_`, continues with the sanitised name, then `_` and the decimal dataset id, and ends with `.pdf` |
| PdfUtils.ReportFilename | datasetapi/datasets/pdf_utils.py:443-446 | a non-empty filename from the caller is used as given; otherwise the default |
| PdfUtils.RowFor | datasetapi/datasets/pdf_utils.py:217-232 | a caption is found exactly when some row carries it |
| PdfUtils.RowForAppend | datasetapi/datasets/pdf_utils.py:217-232 | looking a caption up in two tables joined finds the first table's row first |
| PdfUtils.Emitted | datasetapi/datasets/pdf_utils.py:217-232 | a table has at most one row per candidate |
| PdfUtils.EmittedSnoc | datasetapi/datasets/pdf_utils.py:217-232 | testing one more candidate appends its row when its test passes |
| PdfUtils.EmittedFive | datasetapi/datasets/pdf_utils.py:219-232 | five candidates emit their rows in order |
| PdfUtils.RowForAbsent | datasetapi/datasets/pdf_utils.py:217-232 | a caption no candidate carries is in no emitted row |
| PdfUtils.RowForEmitted | datasetapi/datasets/pdf_utils.py:217-232 | with distinct captions a candidate's row is present exactly when its test passed |
| PdfUtils.OperationalMetricsTable | datasetapi/datasets/pdf_utils.py:217-234 | the appends build the reference rows, and the table is emitted exactly when a data row exists |
| PdfUtils.OperationalRowsPresence | datasetapi/datasets/pdf_utils.py:219-232 | each quick-metrics row is there exactly when its field is set (the record count when non-zero) and carries that field's value |
| PdfUtils.OperationalTableAlwaysEmitted | datasetapi/datasets/pdf_utils.py:231-234 | the missing-values count is never null, so the table is always emitted and ends with that row |
| PdfUtils.EmittedEndsWith | datasetapi/datasets/pdf_utils.py:231-232 | when the last test passes, its row is the table's last |
| PdfUtils.MetricDetails | datasetapi/datasets/pdf_utils.py:264-265 | an entry is among the detail lines exactly when it is in the metric with a non-None value; with no None value, all of them |
| PdfUtils.MetricDetailsPositions | datasetapi/datasets/pdf_utils.py:263-266 | the detail lines are the metric's entries at ascending positions, and those positions are exactly the ones whose value is not None, so order and count are kept |
| PdfUtils.EquipmentTable | datasetapi/datasets/pdf_utils.py:277-292 | no section for an empty distribution; otherwise one row per type, in order, with its count and its share of the total |
| PdfUtils.PercentSumScaled | datasetapi/datasets/pdf_utils.py:291 | the shares add up to the counts' sum times 100 over the total |
| PdfUtils.ShareAdd | datasetapi/datasets/pdf_utils.py:291 | adding one share to a running sum of shares is the share of the combined count |
| PdfUtils.WholeShare | datasetapi/datasets/pdf_utils.py:291 | the whole total is a share of 100 |
| PdfUtils.PercentagesSumTo100 | datasetapi/datasets/pdf_utils.py:288-292 | with a positive total the equipment shares, before formatting, add up to exactly 100 |
| PdfUtils.DataQualityTable | datasetapi/datasets/pdf_utils.py:311-339 | no section when the document or its data_quality is empty; otherwise the rows appended one present key at a time |
| PdfUtils.QualityTableRows | datasetapi/datasets/pdf_utils.py:325-339 | the appends build the reference rows |
| PdfUtils.QualityRowsPresence | datasetapi/datasets/pdf_utils.py:327-339 | each data-quality row is there exactly when its key is in the document and carries that key's value (the missing-columns row the length of its list); there are at most four |
| PdfUtils.StatsParts | datasetapi/datasets/pdf_utils.py:371-382 | numeric columns give their mean and range when set, categorical columns their most frequent value and count when truthy, other columns nothing |
| PdfUtils.StatsTextNotAvailable | datasetapi/datasets/pdf_utils.py:384 | the statistics cell reads `N/A` exactly when no detail applies |
| PdfUtils.ColumnTable | datasetapi/datasets/pdf_utils.py:357-392 | no section without columns; otherwise one row per column, in position order |
| HistoryTab.PagerStaysInRange | desktop_app/ui/history_tab.py:349-359 | from a page within `1..total_pages`, both moves stay within it |
| HistoryTab.PagerMoves | desktop_app/ui/history_tab.py:349-359 | the previous-page move changes the page exactly when it is above 1, the next-page move exactly when it is below total_pages, each by exactly one |
| HistoryTab.PagerMovesUndo | desktop_app/ui/history_tab.py:349-359 | a move back followed by a move on (and the other way round) returns to the starting page when both moves apply |
| HistoryTab.Truncate | desktop_app/ui/history_tab.py:282-284 | the cell is at most 50 characters; a description of at most 50 is unchanged, a longer one keeps its first 47 characters followed by `...` |
| HistoryTab.TruncateIdempotent | desktop_app/ui/history_tab.py:283-284 | truncating a truncated description changes nothing |
| HistoryTab.DescriptionCell | desktop_app/ui/history_tab.py:282-285 | the cell exists exactly when the description (`''` when absent) is a string, and is its truncation |
| HistoryTab.SizeCell | desktop_app/ui/history_tab.py:245-251 | `N/A` exactly for a falsy or absent size; no cell (raises) exactly for a truthy value that cannot be divided; an integer size is shown as its megabytes and ` MB` |
| HistoryTab.StatusCell | desktop_app/ui/history_tab.py:277 | `Processed` exactly when is_processed is truthy, otherwise `Processing` |
| HistoryTab.RowOf | desktop_app/ui/history_tab.py:235-285 | a row is built exactly when its size and description cells are, and holds those cells and the status cell |
| HistoryTab.Filled | desktop_app/ui/history_tab.py:235-285 | the collected results are the function's results for a prefix of the entries, and stop only at an entry where it fails |
| HistoryTab.FilledComplete | desktop_app/ui/history_tab.py:235-285 | every entry is filled exactly when the function fails on none |
| HistoryTab.FilledAfterFailure | desktop_app/ui/history_tab.py:235-285 | once an entry fails, the later entries add no row |
| HistoryTab.TableRows | desktop_app/ui/history_tab.py:233-285 | the table holds row i for entry i, up to the first entry whose row raises, and all entries exactly when no row raises |
| HistoryTab.BuildRows | desktop_app/ui/history_tab.py:235-285 | the loop fills exactly the table rows of the loaded entries |
| HistoryTab.IntOr | desktop_app/ui/history_tab.py:217-218 | an absent key gives the default, a present one its integer |
| HistoryTab.ReadPaginationJson | desktop_app/ui/history_tab.py:216-222 | page, total_pages, has_next and has_previous read back out of the history endpoint's pagination block are the values the server computed |
| HistoryTab.GetFirstAt | desktop_app/ui/history_tab.py:216-222 | a dictionary lookup finds an entry when no earlier entry has its key |
| HistoryTab.LoadedButtonsMatchMoves | desktop_app/ui/history_tab.py:216-222 | after a load of a page in range, the previous and next buttons are enabled exactly when the corresponding moves would change the page |
| HistoryTab.EmptyHistoryPager | desktop_app/ui/history_tab.py:216-222 | an empty history loads as page 1 of 0, out of range, with both buttons disabled |
| HistoryTab.HistoryTab.constructor | desktop_app/ui/history_tab.py:84-90 | a fresh tab is on page 1 of 1 with page size 10, no datasets, and all three buttons disabled |
| HistoryTab.HistoryTab.PrevPage | desktop_app/ui/history_tab.py:349-353 | the page goes back one exactly when it was above 1, and `load_history` is called exactly then (it starts no load while one is running); the pager stays in range |
| HistoryTab.HistoryTab.NextPage | desktop_app/ui/history_tab.py:355-359 | the page goes on one exactly when it was below total_pages, and `load_history` is called exactly then (it starts no load while one is running); the pager stays in range |
| HistoryTab.HistoryTab.OnHistoryLoaded | desktop_app/ui/history_tab.py:208-285 | page and total_pages are the block's (1 when absent), the buttons follow has_previous and has_next, the datasets are the loaded entries and the table holds their rows |
| HistoryTab.HistoryTab.OnSelectionChanged | desktop_app/ui/history_tab.py:319-322 | delete is enabled exactly when some row is selected |
| Frame.CountMissing | datasetapi/datasets/utils.py:46 | a column's missing count is at most its length |
| Frame.ToNumeric | datasetapi/datasets/equipment_utils.py:108 | coercion leaves no text cell, keeps numbers and missing cells, and turns a text into a number exactly when it reads as a decimal number (`ParseNumber`), else into a missing cell |
| Frame.PaddedNumber | datasetapi/datasets/equipment_utils.py:108 | whitespace around a number's text does not change what it reads as |
| Frame.ExponentForm | datasetapi/datasets/equipment_utils.py:108 | digits, `e` and digits read as the first number times ten to the power of the second |
| Frame.ParseNatToString | datasetapi/datasets/equipment_utils.py:108 | the decimal text of a non-negative integer reads back as that integer |
| Frame.NegativeDigits | datasetapi/datasets/equipment_utils.py:108 | `-` followed by digits reads as the negated value of the digits |
| Frame.ToNumericIdempotent | datasetapi/datasets/equipment_utils.py:108 | coercing twice is coercing once |
| Frame.SortByCount | datasetapi/datasets/utils.py:64 | the counts end up in descending order, as a permutation of the entries with the same total |
| Frame.Uniques | datasetapi/datasets/utils.py:64 | the distinct present cells, each once, every present cell among them |
| Frame.CellValueCountsCorrect | datasetapi/datasets/utils.py:64 | `value_counts()` on the cells lists every distinct present cell once with its number of occurrences, in descending order of count, and is empty exactly when every cell is missing |
| Frame.OccursOnce | datasetapi/datasets/utils.py:64 | in a column without repeated values each value is counted once |
| Frame.ValueCountsCorrect | datasetapi/datasets/equipment_utils.py:156 | the value counts list each value of the column with its number of occurrences, in descending order, adding up to the column's length, and are empty exactly for an empty column |
| Frame.ValueCountsDistinct | datasetapi/datasets/utils.py:64 | each value appears once among the value counts |
| Frame.ValueCountsFirstIsMost | datasetapi/datasets/utils.py:66-68 | the first value count belongs to a most frequent value |
| Numeric.SortAscending | datasetapi/datasets/utils.py:58-59 | the sorted values are in ascending order and a permutation of the input |
| Numeric.MeanBetweenMinMax | datasetapi/datasets/utils.py:53-56 | the mean lies between the minimum and the maximum |
| Numeric.QuantileBetweenMinMax | datasetapi/datasets/utils.py:56-59 | every quantile lies between the minimum and the maximum |
| Numeric.SampleVariance | datasetapi/datasets/utils.py:55 | the sample variance exists exactly for two or more values and is never negative |
| Numeric.Round2 | datasetapi/datasets/equipment_utils.py:161 | the rounded value is within half a hundredth of the input and a whole number of hundredths |
| Numeric.Round2Idempotent | datasetapi/datasets/equipment_utils.py:161 | rounding a rounded value changes nothing |
| DashboardTab.SumField | desktop_app/ui/dashboard_tab.py:30-31 | the sum exists exactly when every entry holds an addable value (absent counts as 0); with the key absent everywhere it is 0 |
| DashboardTab.SumFieldAbsentAsZero | desktop_app/ui/dashboard_tab.py:30-31 | an entry without the key leaves the sum unchanged |
| DashboardTab.ProcessedCount | desktop_app/ui/dashboard_tab.py:29 | at most the number of datasets; all of them exactly when each is_processed is truthy; none exactly when none is |
| DashboardTab.AvgColumns | desktop_app/ui/dashboard_tab.py:32 | 0 with no datasets; otherwise the floor of total_columns / total_datasets |
| DashboardTab.Recent | desktop_app/ui/dashboard_tab.py:35 | the first min(5, n) datasets, in order |
| DashboardTab.DashboardOf | desktop_app/ui/dashboard_tab.py:22-47 | the worker's result exists exactly when both sums succeed; then total_datasets is the number of datasets, processed_datasets is the number of processed datasets (at most the total), total_rows and avg_columns are the sum and floor average, and the recent list is the first five |
| DashboardTab.EmptyDashboard | desktop_app/ui/dashboard_tab.py:28-35 | with no datasets every statistic is 0 and the recent list is empty |
| DashboardTab.CardsDistinct | desktop_app/ui/dashboard_tab.py:209-211 | the four stat cards land in four distinct cells of a 2 × 2 grid |
| DashboardTab.CardsInReadingOrder | desktop_app/ui/dashboard_tab.py:209-211 | card i goes to the i-th cell in reading order, so every cell is filled |

## Left out

- File parsing (`pd.read_csv`, `read_json`, `read_excel`) is not modelled. The parsed table, or the reader's outcome (empty data, parser error, other failure), is the input. The reader's type inference is not modelled either: a cell the model receives as a number is typed by its value, so a column whose cells read `1.0` reaches the model as whole numbers and `Frame.DType` calls it `int64`, where pandas' reader would keep `float64`.
- Python's `str()` of a number and the `.2f`/`:,` formats are function parameters (`render`, `fmt`, `fixed2`). One `render` stands for `str` of every number, so the model does not tell `str` of an `int64` value (`5`) from that of a `float64` value (`5.0`). pandas' text of the duplicate-column error is the parameter `cleanFailure`.
- Building the PDF document (ReportLab styles, colours, tables, page build) is not modelled. In `PdfViews` it is a parameter `render` giving the PDF's size or the exception's message; `PdfUtils` models only the filename and the rows each section emits.
- Floats are exact reals, or NaN where the source tests for it. IEEE rounding, infinities and overflow are not modelled.
- Frame.ToNumeric: reads decimal and exponent texts only; texts `pd.to_numeric` reads as infinities (`inf`, `-Infinity`) become missing cells here, since infinities are not modelled.
- Django ORM and persistence are not modelled: `create_dataset_from_upload`, the get_or_create of the summary record in `data_summary_api`, the creation of the statistics and column records after an equipment upload, and CASCADE deletes. The database is a sequence of `Models.Dataset` values, and the retention store is the class `HistoryUtils.DatasetStore`.
- Only the failure routing of `equipment_csv_upload` is modelled (`EquipmentViews.UploadFailureOf`); its success path writes records through the ORM. The single-dataset branch of `data_summary`, the `equipment_data_preview` view, `dataset_summary_list`, `list_available_reports`, `manual_cleanup`, the cleanup-preview view and `history_settings` are not modelled: they are ORM queries and wrappers around functions modelled here.
- Clocks are not modelled: the upload time is part of the dataset value handed to `HistoryUtils.DatasetStore.Upload`, and the `timestamp` fields of responses are left out.
- Logging, `print` and `memory_usage` figures are not modelled.
- Authentication, URL routing, the admin site and the DRF viewsets are framework wiring and are not modelled.
- On the desktop, only the pager, the row building and the delete-button enabling of the history tab, and the statistics and card placement of the dashboard, are modelled. Qt widgets, QThread workers, `load_history`, `update_stats`, `delete_selected`, `refresh_data`, `on_error` and the HTTP services are GUI or network I/O.
- Numeric.SampleVariance: `std` is carried as the sample variance (its square), since Dafny's reals have no square root; with fewer than two values pandas' NaN is None. For the same reason the per-type std in `EquipmentUtils.GroupOf` is not rounded by `.round(2)`; only the mean is.
- Numeric.Round2: rounds half-up on exact reals; Python's `round` is half-to-even on binary floats, so ties can differ.
- Numeric.Quantile: linear interpolation only; median is the quantile 1/2. pandas' other interpolation modes are not used by the source.
- Frame.ValueCountsFirstIsMost: among values with the same count the model keeps first-appearance order (in `Frame.CellValueCounts` too); pandas' tie order is an implementation detail of its hashing and sort, not modelled.
- HistoryTab.HistoryTab.OnHistoryLoaded: requires `page` and `total_pages` to be integers when present (the server always sends integers); the tab itself would store any JSON value.
- HistoryTab.RowOf: the name, file name, row and column counts and the upload date are carried as the entry holds them; their text formatting (thousands separators, date parsing) is not modelled.
- Text: `lower`, `strip`, `title` and `isalnum` are modelled on ASCII only; Unicode case mapping and whitespace classes are not.
- DashboardTab.SumField: a float count is treated as a value `+` rejects (the sum is None), whereas Python's `sum` would add it; the server sends these counters as integers, so floats are not modelled here.

## Findings

| source | as written | input that shows it | evidently intended | confidence | as-written member | corrected member |
|---|---|---|---|---|---|---|
| datasetapi/datasets/equipment_utils.py:241-277 | the empty-frame and failed-validation `ValidationError`s are raised inside the `try` and re-raised by `except Exception` as `ValueError("Error processing CSV file: …")`, so the upload view reports them as processing errors | a CSV with the header `equipment_id` and no data rows | the `ValidationError` escapes, as the docstring states and as `equipment_csv_upload`'s separate `ValidationError` handler expects | not executed | EquipmentUtils.AsWrittenEmptyFrame | EquipmentUtils.ProcessEquipmentCsvOutcome |
| datasetapi/datasets/pdf_views.py:31-143 | `get_object_or_404` raises `Http404` inside the `try`; it is not `Dataset.DoesNotExist`, so the generic handler answers 500 | an empty store and dataset id 7 | the `Dataset.DoesNotExist` handler's 404 "Dataset not found or not processed" | not executed | PdfViews.UnknownIdGives500 | PdfViews.GeneratePdfReport |
