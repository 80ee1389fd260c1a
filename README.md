# utilization_tool in Dafny

This project models the logic of the weekly utilization tool. The tool reads a
PowerBI export of booked hours and maps each employee's competency to a business
unit (BU) and service line (SSL). It flags missing timesheets, vacation and
inactive staff, and works out utilization (chargeable hours over available hours)
per row and per unit. For one unit it then produces three reports from the roster
and the export:

- an Excel workbook with an employee table and a summary sheet;
- a one-page PDF photo wall with one tile per employee, grouped by rank;
- an HTML version of that photo wall.

The model covers the parts of those steps that decide something:

- the status of every employee;
- the border colour, overlay label and caption of a tile;
- the choice of photo size;
- where each tile goes on the page;
- the rank groups.

Pandas frames are sequences of records and a NaN cell is `None`. Hours and ratios
are exact reals.

Modules, one per file:

- `Cells` (cells.dfy): cells that may be missing, `str()` of a cell (NaN prints
  as "nan"), and the three kinds of value a renderer can receive as a
  utilization: a number, NaN, or something `float()` rejects.
- `Strings` (strings.dfy): Python's `strip`, `split()`, `" ".join` and `replace`
  on strings, with Python's whitespace set, and `lower`, `upper` and `isalnum`
  restricted to ASCII letters and digits (see "Left out").
- `Frames` (frames.dfy): filtering, counting and cutting a sequence of rows,
  with the lemmas about them.
- `Status` (status.dfy): the boolean coercion and the status rule. The
  spreadsheet, PDF and HTML renderers each carry an identical copy; the model
  has one. It covers the five statuses and their precedence, the four-mask
  chain, and the fallback used when a row has no status.
- `Etl` (etl.dfy): loading the export, the competency lookup, row flags,
  aggregation per unit, week metadata, output directory names and the whole
  pipeline.
- `Sorting` (sorting.dfy): `sort_values("display_name")`. Python string order
  is used, and NaN sorts last.
- `RenderExcel` (render_excel.dfy): the roster join, the employee table, the
  summary counts, column widths and the Excel table name.
- `Layout` (layout.dfy): the PDF sizing engine. This is tile metrics,
  `required_height`, the first-fit size search and the placement loop with its
  overflow flag.
- `RenderPdf` (render_pdf.dfy): the decisions `draw_tile` takes (border,
  overlay, caption, initials, photo), the row drawn in each placed slot, and
  the header lines.
- `RenderHtml` (render_html.dfy): the HTML overlay and border tables and how
  they compare with the PDF ones, the photo fallback, the header date range
  and utilization, the rank groups and the two rows of the page.
- `Hello` (hello.py's `greet`), in hello.dfy.

The configuration files, the roster and the set of stored photos are not read.
They are passed in as values:

- an organisation as a sequence of BUs, each with its SSLs and their competency
  areas, in file order;
- the week configuration sheet as a sequence of rows;
- the roster as a sequence of entries;
- the photo folder as the set of file names (without `.jpg`) it holds.

The code does the following in four places where one might expect otherwise:

- Hours are not clamped at zero.
- A row's utilization is undefined only when its available hours are exactly 0.
  A negative number of available hours still gives a ratio.
- A competency listed in several SSLs is not an error: the last listing wins.
- Rows with an unmapped competency are aggregated under the `(None, None)` unit
  rather than left out.

A renderer may also receive a utilization that is NaN. `float()` accepts it, and
it fails every comparison. So the PDF frames such a tile in red, and the HTML
gives it the `border-red` class.

## Model

| member | source | states |
|---|---|---|
| Cells.CellText | src/etl.py:150-153 | `str()` of a present cell is the cell's text; a missing cell reads "nan" |
| Cells.UtilCellOf | src/render_pdf.py:156 | a float column value reaches a renderer as that number, or as NaN when it is missing |
| Strings.TrimLeft | src/etl.py:40 | `lstrip()` keeps a suffix: the result does not start with whitespace, and everything dropped is whitespace |
| Strings.TrimRight | src/etl.py:40 | `rstrip()` keeps a prefix: the result does not end with whitespace, and everything dropped is whitespace |
| Strings.Strip | src/etl.py:40 | `strip()` is trimmed and no longer than its input |
| Strings.StripIsSlice | src/etl.py:40 | `strip()` is the slice of its input left by cutting only whitespace from either end |
| Strings.SpaceTrimsCut | src/etl.py:40 | the right trim of the left trim cuts only whitespace from each end |
| Strings.StripKeepsAbsent | src/etl.py:40 | `strip()` never introduces a character |
| Strings.StripTrimmed | src/etl.py:40 | a trimmed string is left unchanged by `strip()` |
| Strings.StripIdempotent | src/etl.py:40 | `strip()` twice equals `strip()` once |
| Strings.Lower | src/etl.py:219 | `lower()` keeps the length, turns each capital ASCII letter into its small letter, and changes nothing else |
| Strings.LowerOfLowercase | src/etl.py:219 | a string without capital ASCII letters is its own lower-case form |
| Strings.Upper | src/render_pdf.py:213 | `upper()` keeps the length, turns each small ASCII letter into its capital, and changes nothing else |
| Strings.WordLen | src/etl.py:30 | the length of the leading run of non-whitespace characters, and a whitespace character or the end follows it |
| Strings.WordsAreWords | src/etl.py:30 | every piece of `split()` is non-empty and has no whitespace |
| Strings.WordLenOfWord | src/etl.py:30 | a word followed by whitespace or by nothing is exactly one leading run |
| Strings.WordsAfterWord | src/etl.py:30 | a leading word is the first piece of `split()` |
| Strings.WordsOfJoin | src/etl.py:30 | `split()` of a space-joined list of words gives the words back |
| Strings.JoinSingleSpaced | src/etl.py:30 | joining words with single spaces leaves no other whitespace and no blank result |
| Strings.WordsChars | src/etl.py:30 | the pieces of `split()` have no character the input lacks |
| Strings.JoinChars | src/etl.py:30 | a join of words has no character, other than ' ', that its words lack |
| Strings.TrimLeftSet | src/render_pdf.py:117 | `lstrip(chars)` keeps a suffix that starts outside `chars`, and every character it drops is in `chars` |
| Strings.TrimRightSet | src/render_pdf.py:117 | `rstrip(chars)` keeps a prefix that ends outside `chars`, and every character it drops is in `chars` |
| Strings.StripSet | src/render_pdf.py:117 | `strip(chars)` is a slice of its input with only `chars` cut from either end, and it starts and ends outside `chars` |
| Strings.StripOfTrims | src/render_pdf.py:117 | trimming the left, then the right, cuts only `chars` from each end |
| Strings.SliceUnique | src/render_pdf.py:117 | two such slices that start and end outside `chars` are the same |
| Strings.SliceEnds | src/render_pdf.py:117 | a slice whose first and last characters are outside `chars` starts and ends outside them in the input |
| Strings.StripSetUnique | src/render_pdf.py:117 | any slice with only `chars` cut from either end, starting and ending outside them, is `strip(chars)` |
| Strings.WordsOfBlank | src/render_pdf.py:210 | a string made of whitespace has no words |
| Strings.DashJoin | src/render_pdf.py:117 | `f"{a} - {b}".strip(" -")` is a slice of `a - b` with only ' ' and '-' cut from either end, and it neither starts nor ends with ' ' or '-' |
| Strings.DashJoinEmpty | src/render_pdf.py:120 | two empty fields give an empty line |
| Strings.DashJoinPlain | src/render_html.py:131 | fields that do not start or end with ' ' or '-' are joined as `a - b` |
| Strings.DashJoinFirstOnly | src/render_pdf.py:117 | a plain first field and an empty second give the first field |
| Strings.DashJoinSecondOnly | src/render_html.py:131 | an empty first field and a plain second give the second field |
| Strings.DashJoinCases | src/render_pdf.py:117 | the four cases of blank and plain fields together |
| Strings.ReplaceChar | src/etl.py:107 | `replace(a, b)` changes exactly the occurrences of `a` |
| Strings.ReplaceCharAppend | src/render_excel.py:207 | `replace` distributes over concatenation |
| Strings.ReplaceCharAbsent | src/render_excel.py:207 | `replace` leaves a string without `a` unchanged |
| Strings.RemoveChar | src/etl.py:108 | `replace(c, "")` keeps exactly the characters other than `c` (with RemoveCharAppend, in order) |
| Strings.RemoveCharAppend | src/etl.py:108 | `replace(c, "")` distributes over concatenation, so the kept characters stay in order |
| Frames.Filter | src/etl.py:147 | a boolean row selection keeps exactly the rows satisfying the condition, and only rows of the frame |
| Frames.Count | src/render_excel.py:139-141 | the `sum()` of a boolean column is the number of rows selected by it |
| Frames.CountSplit | src/render_excel.py:137-138 | rows satisfying a condition plus rows failing it make up all rows |
| Frames.CountMono | src/render_excel.py:138-141 | a condition implied by another never counts more rows |
| Frames.TakeUntil | src/etl.py:137-141 | the longest prefix before the first stopping row |
| Status.CoerceBool | src/render_excel.py:10-18 | a missing cell is false; otherwise true exactly when the trimmed, lower-cased text is one of true, 1, yes, y, t |
| Status.CoerceBoolText | src/render_excel.py:10-18 | a bool written out as "True" or "False" reads back as itself |
| Status.NormalTrue | src/render_excel.py:11 | "True", trimmed and lower-cased, is "true" |
| Status.NormalFalse | src/render_excel.py:11 | "False", trimmed and lower-cased, is "false" |
| Status.NormalOfTrimmed | src/render_excel.py:11 | a trimmed text is normalised by lower-casing alone |
| Status.CoerceBoolNaN | src/render_pdf.py:13-21 | a NaN cell reads as false |
| Status.NormalizedNaN | src/render_pdf.py:16 | "nan" is already trimmed and lower-case |
| Status.CoerceBoolIgnoresPadding | src/render_html.py:15-23 | surrounding whitespace never changes the reading |
| Status.Label | src/render_excel.py:79-83 | the five status labels are non-empty and trimmed |
| Status.StatusOfLabel | src/render_excel.py:79-83 | reading a label back gives a status whose label it is |
| Status.LabelRoundTrip | src/render_excel.py:79-83 | the labels are distinct: every status is read back from its own label |
| Status.Precedence | src/render_excel.py:79-83 | the status chosen is raised, and no status that outranks it is raised (On leave > Vacation > Missing timesheet > Unmapped > Normal) |
| Status.PrecedenceUnique | src/render_excel.py:79-83 | any raised status that no raised status outranks is the chosen one |
| Status.VacationBeatsUnmapped | src/render_excel.py:80-82 | a vacation row with an unmapped competency is "Vacation" |
| Status.Mask | src/render_excel.py:80 | `mask(cond, v)` puts `v` where the condition holds and keeps the old value elsewhere |
| Status.OnLeaveColumn | src/render_excel.py:70-74 | the on-leave condition of every row, in order |
| Status.VacationColumn | src/render_excel.py:75 | the vacation condition of every row, in order |
| Status.MissingColumn | src/render_excel.py:76 | the missing-timesheet condition of every row, in order |
| Status.UnmappedColumn | src/render_excel.py:77 | the unmapped condition of every row, in order |
| Status.MaskChain | src/render_excel.py:79-83 | starting from "Normal" and masking with Unmapped, then Missing timesheet, then Vacation, then On leave gives every row its precedence status |
| Status.RowFlags | src/render_pdf.py:28-46 | on leave is `on_leave_master` or `inactive_leave`; vacation needs hours `float()` can read that are at most 0; the other two are coerced flags |
| Status.StatusFromRow | src/render_pdf.py:24-48 | a status string that is not blank is returned as it is; otherwise the precedence of the row's conditions |
| Status.StatusFromRowNonBlank | src/render_html.py:26-50 | every row gets a non-blank status |
| Status.StatusFromLabelledRow | src/render_html.py:27-28 | a row that carries a status label keeps that status |
| Etl.NormWeek | src/etl.py:28-30 | None gives ""; otherwise the result is single-spaced and has the same words as the input |
| Etl.NormWeekIdempotent | src/etl.py:28-30 | normalising twice equals normalising once |
| Etl.IndexOf | src/etl.py:43 | the position of the first occurrence, or the length when there is none |
| Etl.NormalizeDisplayName | src/etl.py:32-47 | a value that is not a string gives ""; without a comma the trimmed input; with one, the trimmed part after the first comma, a space, then the trimmed part before it |
| Etl.NormalizeCommaFreeIdempotent | src/etl.py:46-47 | a comma-free name is trimmed, and normalising it again changes nothing |
| Etl.NormalizeLastFirst | src/etl.py:42-44 | "Last, First" becomes "First Last" |
| Etl.NormalizeDoeJane | src/etl.py:42-44 | "Doe, Jane" becomes "Jane Doe" |
| Etl.Columns | src/etl.py:133 | every column name is trimmed, in order |
| Etl.TruncateAtTotal | src/etl.py:137-141 | the rows before the first "total" row, or all rows when there is none |
| Etl.TruncateDropsFooter | src/etl.py:137-141 | a body free of "total" rows, followed by a "total" row and any footer, is cut back to the body |
| Etl.DropMissingGpn | src/etl.py:146-147 | a row is kept exactly when its GPN is present, and only rows of the frame are kept |
| Etl.DropMissingGpnAppend | src/etl.py:146-147 | dropping distributes over concatenation, so order is preserved |
| Etl.IsTotalRow | src/etl.py:137-141 | a row whose employee name is missing is not a "total" row, since it reads "nan" |
| Etl.CoerceHours | src/etl.py:176 | a number passes through unchanged; a value that is not numeric, or is blank, becomes 0.0 |
| Etl.HoursColumn | src/etl.py:172-176 | an absent hours column gives 0.0; a present one is coerced |
| Etl.Clean | src/etl.py:150-153 | a cleaned text cell is trimmed |
| Etl.CleanIsSlice | src/etl.py:150-153 | a cleaned text cell is its `str()` with only surrounding whitespace cut |
| Etl.TruncToInt | src/etl.py:163 | `int()` truncates toward zero: the greatest integer not above a non-negative number, the least not below a negative one |
| Etl.TruncOfFraction | src/etl.py:163 | every count from 1 up to 2 becomes 1, the value that flags a missing timesheet |
| Etl.MissingCount | src/etl.py:161-165 | a blank cell counts 0 (`fillna(0)`); a number counts its integer part, truncated toward zero |
| Etl.NormalizeRow | src/etl.py:150-176 | GPN, employee name and competency are their trimmed `str()`; the display name is normalised; the rank is its trimmed `str()`, or "" without the column; missing timesheets are 0 without the column or for a blank cell, and otherwise the number truncated toward zero; the status is kept, or "" without the column; hours are coerced; the week is kept, or none without the column |
| Etl.CleanRows | src/etl.py:149-176 | every row is cleaned, in order |
| Etl.KeptRows | src/etl.py:137-147 | with a GPN column no kept row lacks one; with an Employee Name column no kept row is a "total" row |
| Etl.LoadPowerBiExport | src/etl.py:119-178 | fails on a missing GPN, Employee Name or Competency column, in that order, then with the ValueError of `astype(int)` when a kept row's Missing Timesheets cannot be read as a number; succeeds exactly otherwise, and then cleans exactly the kept rows, in order |
| Etl.SslEntries | src/etl.py:188-189 | one assignment per competency area of the SSL, in list order |
| Etl.LookupLastWins | src/etl.py:186-189 | a competency is in the lookup exactly when some assignment names it, and its unit comes from the last such assignment |
| Etl.LookupOfSnoc | src/etl.py:189 | one more assignment updates one key |
| Etl.EntriesSnoc | src/etl.py:186 | the assignments of one more BU follow the earlier ones |
| Etl.BuEntriesSnoc | src/etl.py:187 | the assignments of one more SSL follow the earlier ones |
| Etl.AddSslEntries | src/etl.py:188-189 | the innermost loop performs the SSL's assignments in order |
| Etl.AddBuEntries | src/etl.py:187-189 | the middle loop performs the BU's assignments in order |
| Etl.BuildLookup | src/etl.py:184-189 | the triple loop builds the dictionary of all assignments, performed in configuration order |
| Etl.MapRow | src/etl.py:191-195 | a row is unmapped exactly when its competency is not a key; then BU and SSL are missing, otherwise they are its unit |
| Etl.MapRows | src/etl.py:191-195 | every row is mapped, in order |
| Etl.MapCompetencyToSsl | src/etl.py:183-197 | a row is unmapped exactly when no SSL lists its competency; otherwise it gets the unit of the last listing in iteration order |
| Etl.RankBucket | src/etl.py:206-213 | `RANK_MAP[raw]` when the key is present, otherwise `raw` |
| Etl.EnrichRow | src/etl.py:202-228 | missing timesheet is Missing Timesheets == 1; vacation is available <= 0; inactive leave is lower-cased status == "inactive"; plus the rank bucket and the row utilization |
| Etl.Enrich | src/etl.py:202-228 | every row is enriched, in order |
| Etl.NonVacationHasUtil | src/etl.py:217-226 | a row that is not on vacation has positive available hours and a utilization |
| Etl.GroupRows | src/etl.py:242-244 | a group's rows are exactly its rows that are not on vacation; a group has rows exactly when some such row exists |
| Etl.NonMissing | src/etl.py:251-253 | exactly the rows without a missing timesheet |
| Etl.AccOfSnoc | src/etl.py:244-259 | adding a row to a group's sums gives the sums of the longer group |
| Etl.Fold | src/etl.py:242-249 | every group the one-pass group-by holds counts at least one row, as `groupby` forms no empty group |
| Etl.FoldIsGroupSums | src/etl.py:242-261 | the one-pass fold holds exactly the groups that have a row not on vacation, each with the sums of its own rows |
| Etl.Ratio | src/etl.py:222-226 | undefined exactly when the denominator is 0; otherwise the ratio times the denominator gives the numerator (the same division serves the group ratios at src/etl.py:263-271) |
| Etl.ComputeAggregates | src/etl.py:233-273 | groups are exactly the (BU, SSL) pairs, (None, None) included, that have a row not on vacation. Each group has the sums of its rows, the number of distinct GPNs and the missing count. The two excl-missing sums are over its rows without a missing timesheet, and empty when there are none (the left merge). `util_all` is over all its rows. `util_excl_missing` is over its rows without a missing timesheet, and is undefined when there are none. |
| Etl.AggregateExample | src/etl.py:238-240 | 40h/20h with a missing timesheet and 40h/40h in one unit give util_all 0.75 and util_excl_missing 1.0 |
| Etl.FirstWeekMatch | src/etl.py:80-87 | the index of the first row whose normalised export format matches, or the length |
| Etl.ResolveWeekMeta | src/etl.py:66-95 | fails on an empty configuration, then on a week that normalises to "", then when no row matches; otherwise the trimmed fields of the first matching row |
| Etl.FirstWeek | src/etl.py:295-298 | the first Week value that is present, or none when every row lacks one |
| Etl.PickWeek | src/etl.py:294-300 | succeeds exactly when a first Week value exists and does not normalise to ""; then that normalised value |
| Etl.Sanitize | src/etl.py:104-108 | a missing part gives "UNKNOWN"; a present one is stripped, its spaces turned into '_', and every '/' and '\\' dropped, keeping the other characters in order; the result has no ' ', '/' or '\\' and is never longer than the part |
| Etl.RemoveSeparators | src/etl.py:108 | removing '/' and then '\\' keeps exactly the other characters, in order |
| Etl.SanitizeKeepsSafeNames | src/etl.py:104-108 | a trimmed name without ' ', '/' or '\\' is kept as it is |
| Etl.RemoveAbsent | src/etl.py:108 | removing a character that does not occur changes nothing |
| Etl.UnitDirName | src/etl.py:110-112 | the `<BU>_<SSL>` directory name has no path separator |
| Etl.RunEtl | src/etl.py:278-308 | the first failing step decides the error: loading, then the week pick, then the week lookup. On success the rows are the loaded rows mapped and enriched, and the totals are their aggregates. |
| Sorting.StrLeTotal | src/render_pdf.py:302 | Python's string order is total |
| Sorting.StrLeTrans | src/render_pdf.py:302 | and transitive |
| Sorting.StrLeAntisymmetric | src/render_pdf.py:302 | and antisymmetric |
| Sorting.KeyLeTotal | src/render_pdf.py:302 | the key order with NaN last is total |
| Sorting.KeyLeTrans | src/render_pdf.py:302 | and transitive |
| Sorting.Insert | src/render_pdf.py:302 | inserting into a sorted sequence gives a sorted permutation with one more element |
| Sorting.SortBy | src/render_html.py:168 | `sort_values` gives a permutation of the rows sorted by key |
| Sorting.SortBySorted | src/render_html.py:168 | rows already in key order are left as they are |
| RenderExcel.ActiveMembers | src/render_excel.py:35-39 | exactly the roster entries that are active and whose trimmed BU and SSL are the requested pair |
| RenderExcel.Matches | src/render_excel.py:61-66 | the export rows carrying a GPN; there are none exactly when no row carries it |
| RenderExcel.Pair | src/render_excel.py:61-66 | a member paired with each of its matching rows, in order |
| RenderExcel.JoinOne | src/render_excel.py:61-66 | at least one joined row per member, each keyed by the trimmed GPN and consistent with the export |
| RenderExcel.LeftJoin | src/render_excel.py:61-66 | at least one row per member; every joined row belongs to a member and is consistent with the export |
| RenderExcel.JoinedFromAppend | src/render_excel.py:61-66 | the first member's rows followed by the others' rows all belong to a member and agree with the export |
| RenderExcel.LeftJoinCovers | src/render_excel.py:61-66 | every active member appears in the join |
| RenderExcel.MatchesAtMostOne | src/render_excel.py:61-66 | with unique export GPNs a GPN matches at most one row |
| RenderExcel.JoinOneSingle | src/render_excel.py:61-66 | with unique export GPNs a member joins exactly one row |
| RenderExcel.Members | src/render_excel.py:86 | the roster side of each joined row |
| RenderExcel.MembersCons | src/render_excel.py:86 | one joined row followed by others puts its member first on the roster side |
| RenderExcel.MembersAppend | src/render_excel.py:86 | the roster side distributes over concatenation |
| RenderExcel.LeftJoinMembers | src/render_excel.py:61-66 | with unique export GPNs the join has exactly the active members, in roster order |
| RenderExcel.LeftJoinStep | src/render_excel.py:61-66 | with unique export GPNs the first member contributes exactly one row, ahead of the others' |
| RenderExcel.LeftJoinOnePerMember | src/render_excel.py:61-66 | the same, row by row |
| RenderExcel.JoinedFlags | src/render_excel.py:68-77 | a member missing from the export is on leave and has its other flags false; otherwise on leave is the roster flag or inactive leave |
| RenderExcel.DetailOf | src/render_excel.py:85-103 | a table row carries the trimmed GPN, the roster's name, rank bucket, BU, SSL, notes and coerced on-leave flag, its status, the four export flags (false for a member missing from the export), and a matched row's competency, employee status, hours and utilization, which are empty for a missing member |
| RenderExcel.SslDataset | src/render_excel.py:21-105 | one row per joined row, each with the precedence status of its conditions |
| RenderExcel.BuildSslDataset | src/render_excel.py:21-105 | the join followed by the mask chain gives the table above |
| RenderExcel.DatasetRows | src/render_excel.py:68-74 | every table row is an active member of the unit, and a member missing from the export is "On leave" |
| RenderExcel.DatasetOnLeave | src/render_excel.py:70-83 | a row is "On leave" exactly when the roster says so, the export says inactive, or the member is missing |
| RenderExcel.RawGpns | src/render_excel.py:126-127 | exactly the GPNs the export carries |
| RenderExcel.UnitUtil | src/render_excel.py:119-123 | the unit's two ratios from its aggregate, or none when it has no aggregate |
| RenderExcel.BuildSslSummary | src/render_excel.py:108-157 | fails exactly when there is no roster. Otherwise headcount is the table size and present counts rows whose GPN is in the export. Present plus missing is the headcount, `0 <= present <= headcount`, and missing is at most on leave. It also gives the status counts, the utilization and the header fields. |
| RenderExcel.MaxLen | src/render_excel.py:246 | the length of the longest value, which one of them attains |
| RenderExcel.BestWidth | src/render_excel.py:243-248 | `min_w` for no values; the longest value plus 2, clamped to `min_w` from below and to `max_w` from above, with `min_w` winning when the caps cross |
| RenderExcel.ColumnCaps | src/render_excel.py:261-265 | flag columns get (12, 20), display_name and notes (10, 60), bu and ssl (8, 45), every other header (10, 45); all caps lie within 8..60 |
| RenderExcel.ColumnWidthRange | src/render_excel.py:250-267 | every Employees column is 8 to 60 characters wide |
| RenderExcel.TableName | src/render_excel.py:207-210 | at most 250 letters, digits and '_', starting with "Employees_"; exactly the name with '-' and ' ' turned into '_' and other characters that are not alphanumeric dropped, cut to 250 |
| RenderExcel.TableNamePrefix | src/render_excel.py:207-208 | the prefix survives the replacements and the filter, and what follows it is the filtered, underscored stem |
| RenderExcel.PrefixKept | src/render_excel.py:208 | the prefix is made of characters a table name keeps |
| RenderExcel.PrefixSurvivesReplace | src/render_excel.py:207 | replacing '-' or ' ' leaves the prefix in place |
| RenderExcel.TableNameOfCleanStem | src/render_excel.py:207-210 | a short stem of letters, digits and '_' gives `Employees_` + stem |
| RenderExcel.Underscored | src/render_excel.py:207 | the stem with each '-' and ' ' turned into '_' and every other character kept, position by position |
| RenderExcel.TableNameKeepsStem | src/render_excel.py:207-210 | in a name short enough not to be cut, every letter, digit and '_' of the stem is kept, and a '-' or ' ' leaves a '_' |
| Layout.TileMetrics | src/render_pdf.py:277-283 | the tile is 12 points wider than the photo, and 6, 15 or 23 points taller depending on the name and utilization lines |
| Layout.FloorBounds | src/render_pdf.py:284 | floor division brackets its dividend |
| Layout.Cols | src/render_pdf.py:284 | at least one column; the greatest column count whose tiles and gaps fit, unless that is 1 |
| Layout.RowCentred | src/render_pdf.py:285-286 | the margins left and right of a full row are equal, and a row of more than one tile stays inside the page width |
| Layout.RankCount | src/render_pdf.py:255 | never more than the rows |
| Layout.MulAtLeast | src/render_pdf.py:259 | multiplying by a positive count does not shrink |
| Layout.MulSign | src/render_pdf.py:259 | the sign of a product with a positive factor |
| Layout.DivModUnique | src/render_pdf.py:259 | quotient and remainder are unique |
| Layout.DivMono | src/render_pdf.py:259 | floor division is monotone |
| Layout.RowsIsCeiling | src/render_pdf.py:259 | `(n + cols - 1) // cols` rows hold n tiles and one fewer does not |
| Layout.BlockBounds | src/render_pdf.py:256-265 | an empty section adds nothing; a non-empty one adds at least its title, one tile row, 10 and the section gap |
| Layout.SumBlocksSnoc | src/render_pdf.py:253-267 | summing one more rank section adds its block |
| Layout.SumBlocksNone | src/render_pdf.py:256-257 | ranks with no tiles add nothing |
| Layout.SumBlocks | src/render_pdf.py:253-267 | the blocks of the given rank sections summed in order are never negative |
| Layout.RequiredHeightOf | src/render_pdf.py:244-267 | `required_height(size)` is never negative, and is 0 when no rank section has a tile |
| Layout.FitsAt | src/render_pdf.py:271 | a size fits only a non-negative available height, and with no tiles it fits exactly such a height |
| Layout.RequiredHeightEmpty | src/render_pdf.py:253-267 | a roster with no tile in any rank section needs no height |
| Layout.RequiredHeight | src/render_pdf.py:244-267 | the loop accumulates the block of every non-empty rank section, 10 more below Manager |
| Layout.ChooseSize | src/render_pdf.py:269-275 | the first candidate size whose required height fits; 34 when none fits; always a candidate; and a fitting size whenever one exists |
| Layout.GeometryOf | src/render_pdf.py:277-286 | the placement uses at least one column |
| Layout.SectionSlots | src/render_pdf.py:300-312 | as many slots as tiles, row-major, each in a column below `cols` |
| Layout.SlotsWithinAppend | src/render_pdf.py:291-311 | slots that name a tile of an earlier section stay valid when joined |
| Layout.SlotsWithinStep | src/render_pdf.py:291-311 | the slots placed so far, followed by the next section's slots, all name a section placed so far and a tile inside it |
| Layout.SlotsInRange | src/render_pdf.py:291-311 | every slot names one of the sections placed so far and a tile inside it |
| Layout.AllSlotsPrefix | src/render_pdf.py:291-322 | the slots of fewer sections are a prefix of the slots of more |
| Layout.MulSucc | src/render_pdf.py:305 | one more row moves down by one more row height |
| Layout.SlotAt | src/render_pdf.py:303-310 | tile k sits in row k div cols and column k mod cols |
| Layout.PlaceSection | src/render_pdf.py:296-317 | one section: the tiles drawn are those up to the first that ends below the margin; without overflow the cursor moves by what the section consumes |
| Layout.SectionPrefix | src/render_pdf.py:291-322 | the slots of a section follow those of the sections before it |
| Layout.AllFitPrefix | src/render_pdf.py:306 | no slot of a fitting prefix ends below the margin |
| Layout.CutInSection | src/render_pdf.py:306-308 | overflow inside a section cuts the page's slots at the first misfit |
| Layout.SectionStep | src/render_pdf.py:291-322 | placing a whole section extends the placed slots by its slots |
| Layout.CursorStep | src/render_pdf.py:317-322 | the cursor after a section, 10 lower below Manager, is the cursor before less what the section consumes |
| Layout.PlaceRank | src/render_pdf.py:291-322 | one pass of the placement loop: an empty section is skipped, a full one extends the slots, an overflow cuts them at the first misfit |
| Layout.PlaceRanks | src/render_pdf.py:288-322 | the tiles drawn are the slots before the first misfit, and overflow is set exactly when some slot is not drawn |
| Layout.PlaceTiles | src/render_pdf.py:277-322 | the placement of the page at the chosen size over the seven rank sections; at a size whose required height fits, nothing overflows and every slot is drawn |
| Layout.MulMono | src/render_pdf.py:261 | multiplication by a non-negative factor is monotone |
| Layout.Distribute | src/render_pdf.py:261 | rows of tiles with gaps between them, regrouped |
| Layout.BlockIsConsumed | src/render_pdf.py:259-265 | a section consumes its `required_height` block less the section gap |
| Layout.SectionBottom | src/render_pdf.py:301-317 | every tile of a section ends at or above the cursor less what the section consumes |
| Layout.SectionFits | src/render_pdf.py:306 | when the section's consumption stays above the margin, no tile of it misfits |
| Layout.AllFitAppend | src/render_pdf.py:306 | fitting slots joined still fit |
| Layout.PrefixFits | src/render_pdf.py:291-322 | within the required height, the cursor never drops below the start less the blocks placed, and every slot so far fits |
| Layout.AcceptedSizeFits | src/render_pdf.py:269-322 | a size whose required height fits the page never overflows |
| RenderPdf.UtilColor | src/render_pdf.py:51-61 | grey exactly when `float()` fails; otherwise green, yellow or red |
| RenderPdf.UtilColorBuckets | src/render_pdf.py:57-61 | green below 0.25, yellow from 0.25 to 0.75 inclusive, red above, each in both directions |
| RenderPdf.UtilColorMonotone | src/render_pdf.py:57-61 | a higher utilization never gets a calmer colour |
| RenderPdf.TileBorder | src/render_pdf.py:165-171 | a border exactly for Normal and Unmapped, in the utilization colour, 4 wide from 70 points and 3 below |
| RenderPdf.PdfOverlay | src/render_pdf.py:173-181 | an overlay exactly for Missing timesheet, Vacation, On leave and Unmapped |
| RenderPdf.PdfOverlayIsUpper | src/render_pdf.py:173-181 | every status other than Normal is overlaid with its label in capitals |
| RenderPdf.BorderOrOverlay | src/render_pdf.py:165-183 | every tile has a border or an overlay, and both only when it is Unmapped |
| RenderPdf.Initials | src/render_pdf.py:209-219 | initials exist exactly when the name has words, and are 1 or 2 characters |
| RenderPdf.InitialsOfWord | src/render_pdf.py:212-213 | one word gives its first two characters upper-cased |
| RenderPdf.InitialsOfWords | src/render_pdf.py:214-215 | several words give the first characters of the first and last words, upper-cased |
| RenderPdf.InitialsOfSplit | src/render_pdf.py:214-215 | the same, stated on the split |
| RenderPdf.InitialsOfBlank | src/render_pdf.py:210-211 | a blank name gets no initials |
| RenderPdf.TileName | src/render_pdf.py:201 | the shown name is trimmed |
| RenderPdf.TileCaption | src/render_pdf.py:201-219 | the name when names are shown; otherwise the initials exactly when the name has words |
| RenderPdf.Decorate | src/render_pdf.py:155-205 | brightened exactly when on leave; a border exactly for Normal and Unmapped; an overlay exactly for the other four statuses; a utilization line exactly for Normal from 70 points; the caption of the name |
| RenderPdf.DrawTile | src/render_pdf.py:145-205 | the tile of a row: brightened exactly when its status is On leave; any border is in the colour of its utilization; and the caption of its trimmed name |
| RenderPdf.DecorateStatus | src/render_pdf.py:155-223 | for each status: brightened only when on leave; the border, the overlay in capitals, and a utilization line only for Normal from 70 points |
| RenderPdf.DrawTileStatus | src/render_pdf.py:145-223 | a row whose status reads as `s` gets the decorations of `s` |
| RenderPdf.TileRowOf | src/render_excel.py:85-103 | a tile built from a table row takes that row's status, GPN, display name and rank bucket, and its utilization as a number, or NaN when missing |
| RenderPdf.PdfPhoto | src/render_pdf.py:146-148 | the employee's own photo exactly when `<gpn>.jpg` is stored, otherwise the placeholder |
| RenderPdf.Section | src/render_pdf.py:292 | the rows of one rank section, counted by the bucket condition |
| RenderPdf.Buckets | src/render_pdf.py:255 | the rank bucket of every row, in order |
| RenderPdf.SectionCounted | src/render_pdf.py:255 | the sizing engine counts exactly the rows of a section |
| RenderPdf.WallSection | src/render_pdf.py:292-302 | a section in drawing order: a permutation of its rows, sorted by display name, as many as the sizing engine counts |
| RenderPdf.TileAt | src/render_pdf.py:302-311 | the row drawn in a slot belongs to the slot's rank section |
| RenderPdf.PlacedSlotsHaveRows | src/render_pdf.py:291-311 | every slot the placement draws has a row behind it |
| RenderPdf.HeaderLine | src/render_pdf.py:117 | two empty fields give an empty header; two plain fields give `short_key - export_format`; a single plain field gives that field |
| RenderHtml.OverlayLabel | src/render_html.py:53-60 | a label exactly for Missing timesheet, Vacation and On leave |
| RenderHtml.OverlayAgainstPdf | src/render_html.py:53-60 | the same texts as the PDF for a missing timesheet and a vacation; "LEAVE" against "ON LEAVE"; none against "UNMAPPED" for Unmapped |
| RenderHtml.BorderClass | src/render_html.py:63-74 | `border-none` exactly for a status other than Normal or a value `float()` rejects; otherwise green, yellow or red |
| RenderHtml.BorderClassBuckets | src/render_html.py:70-74 | green below 0.25, yellow below 0.75, red from 0.75, each in both directions |
| RenderHtml.BorderAgainstPdf | src/render_html.py:70-74 | a Normal tile gets the class of its PDF colour, except at exactly 0.75: red here, yellow in the PDF |
| RenderHtml.UnmappedAgainstPdf | src/render_html.py:64-65 | an Unmapped tile is framed in the PDF and not in the HTML |
| RenderHtml.PhotoFor | src/render_html.py:169-172 | the employee's own photo exactly when the GPN is not blank and `<gpn>.jpg` is stored; the placeholder otherwise |
| RenderHtml.PhotoAgainstPdf | src/render_html.py:169-172 | the photo agrees with the PDF's, except for a blank GPN when `.jpg` itself is stored |
| RenderHtml.EmployeeOf | src/render_html.py:169-183 | the name is the PDF's shown name; the own photo exactly when the trimmed GPN is not blank and stored; an overlay exactly for Missing timesheet, Vacation and On leave; `border-none` exactly for a status other than Normal or a value `float()` rejects |
| RenderHtml.TablesOfStatus | src/render_html.py:53-74 | the overlay and border of each of the five statuses |
| RenderHtml.EmployeeOfDetail | src/render_html.py:175-183 | for a table row the overlay and border follow its status, and a missing utilization is red |
| RenderHtml.EmployeeAgainstTile | src/render_html.py:175-183 | the HTML name is the PDF caption when names are shown; an HTML border or overlay implies a PDF one |
| RenderHtml.BuildEmployee | src/render_html.py:169-183 | the loop body builds the employee entry of a row, reassigning the photo path as it goes |
| RenderHtml.DateRange | src/render_html.py:129-131 | the trimmed dates joined as `start - end` when both are plain, the one plain date when the other is empty, and never a result starting or ending with ' ' or '-' |
| RenderHtml.DateRangeBlank | src/render_html.py:129-131 | two missing or empty dates give "" |
| RenderHtml.DateRangeOfDates | src/render_html.py:129-131 | two plain dates give `start - end` |
| RenderHtml.DateRangeStartOnly | src/render_html.py:129-131 | a plain start date without an end date is the whole range |
| RenderHtml.UtilVal | src/render_html.py:133 | `util_excl_missing` when the key is present, otherwise `util_all` |
| RenderHtml.UtilValPrefersPresentKey | src/render_html.py:133 | a present `util_excl_missing` wins even when it is NaN |
| RenderHtml.SameRanksAsPdf | src/render_html.py:143-151 | the same seven ranks as the PDF, in a different order |
| RenderHtml.RankClassRow | src/render_html.py:152-160 | the first five ranks have a top-row class, the last two a bottom-row class |
| RenderHtml.RankOrderDistinct | src/render_html.py:143-151 | no rank is listed twice |
| RenderHtml.Employees | src/render_html.py:167-183 | one entry per row, in order |
| RenderHtml.EmployeesSnoc | src/render_html.py:176 | one more row appends one more entry |
| RenderHtml.GroupOf | src/render_html.py:163-190 | a group carries its rank, its class and one employee per row of the section |
| RenderHtml.GroupOfSorted | src/render_html.py:168 | the employees of a group follow the display names in order |
| RenderHtml.InInit | src/render_html.py:163 | a rank of the earlier list is in the longer list |
| RenderHtml.GroupsOf | src/render_html.py:162-190 | every group has a listed rank and at least one employee |
| RenderHtml.RanksOf | src/render_html.py:186 | the rank of every group, in order |
| RenderHtml.RanksOfAppend | src/render_html.py:186 | ranks distribute over concatenation |
| RenderHtml.GroupRanks | src/render_html.py:163-166 | the groups follow the rank order and skip exactly the empty ranks |
| RenderHtml.BucketSplit | src/render_html.py:164 | a bucket is in the listed ranks exactly when it is in the earlier ones or is the last, and not both |
| RenderHtml.GroupsCoverRows | src/render_html.py:162-190 | with distinct ranks, the groups hold exactly as many employees as there are rows with a listed bucket |
| RenderHtml.BuildEmployees | src/render_html.py:167-183 | the inner loop gives the entries of the section sorted by display name |
| RenderHtml.BuildGroupsOf | src/render_html.py:162-190 | the outer loop gives the groups of the listed ranks |
| RenderHtml.BuildGroups | src/render_html.py:143-190 | the groups of `rank_order`: ranks in order without the empty ones, and every row with a listed bucket in exactly one of them |
| RenderHtml.GroupRow | src/render_html.py:434 | a group goes in at most one of the two rows |
| RenderHtml.PageRows | src/render_html.py:458 | every group goes in exactly one of the two rows, and the rows together hold all the groups |
| Hello.Greet | hello.py:3-5 | a greeting starts with "Hello, " and ends with "!" |
| Hello.Addressee | hello.py:4 | what lies between the prefix and the "!" |
| Hello.GreetAddressee | hello.py:3-5 | the greeting names the given name, or "World" when there is none or it is empty |
| Hello.GreetInjective | hello.py:4 | different non-empty names get different greetings |
| Hello.GreetDefault | hello.py:3-5 | no name, "" and "World" all give "Hello, World!" |
| Hello.GreetAlice | test_hello.py:9-10 | "Alice" gives "Hello, Alice!" |

## Left out

- Reading files is not modelled: `pd.read_excel`, the YAML and CSV configuration loaders (`load_org_config`, `load_week_config`, `load_app_config`), `mkdir` and `Path.exists`. Their results are parameters.
- The command-line entry points of src/etl.py and hello.py are not modelled: they read `sys.argv` and print.
- Photo existence is a set of stored file names. Opening, greyscale conversion, resizing and brightening images with PIL are not modelled, and neither are the base64 data URIs (`_image_to_data_uri`, `_file_to_data_uri`).
- ReportLab drawing, fonts and font registration (`try_register_ey_font`) are not modelled. The summary box text, the overlay box size (`int(photo_size * 0.18)`) and the overflow banner text are also left out. The model records the overflow flag and the placed slots.
- The Jinja template text and the CSS are not modelled. Only the row condition of the page's two rows is.
- The HTML title, `ssl_label` and `_ssl_display_name` are not modelled, because they come from a configuration lookup.
- The `background_image` configuration error is not modelled, because it depends only on the app configuration.
- openpyxl cell styling, number formats, freeze panes and the workbook writing in `write_ssl_excel` are not modelled. Only the column-width rule and the table name are.
- `_fmt_percent` in both renderers is not modelled: it formats floats as text.
- Strings.Lower, Strings.Upper, Strings.IsAlnum, Strings.LowerOfLowercase: only ASCII letters are re-cased and only ASCII letters and digits count as alphanumeric. Python's Unicode case maps and `isalnum` are not modelled, so a non-ASCII letter is left as it is or dropped. Python's `'İ'.lower()` also has two characters, where the model keeps the length.
- RenderPdf.Initials: inherits that restriction. In Python "Søren" gives "SØ" and "Aßmann" gives "ASS", so upper-cased initials can be 3 characters long; the model's 1 or 2 characters hold for ASCII names.
- RenderExcel.TableName: inherits that restriction, so a non-ASCII letter or digit of the file stem, which Python keeps, is dropped in the model.
- IEEE floats are not modelled: hours, ratios and page geometry are exact reals or integers, and no rounding or overflow is modelled.
- Sorting.SortBy: the source calls `sort_values` without a stable sort, so rows with equal display names may come out in any order. The model keeps them in table order. Its contract states only a sorted permutation, so it holds for any tie order.
- The name truncation at src/render_pdf.py:203-204 is not modelled. It cannot run, because names are shown only above 42 points.
- The summary as a Python dict is modelled as `RenderHtml.SummaryFields`, holding the four keys the HTML reads. An absent key is `None`.
- RenderExcel.UnitUtil, RenderExcel.BuildSslSummary: the head of the unit's totals frame is modelled as a lookup of the exact key. The trimmed-text comparison of `BU`/`SSL` at src/render_excel.py:119-122 is not modelled.
- Export columns that no modelled decision reads are not carried. `rank_bucket_raw` is not kept, because it equals `rank_bucket`.
- app/streamlit_app.py, src/html_to_pdf.py, src/html_to_image.py and src/utils.py are not part of this model: they are UI, browser automation and file loading.
