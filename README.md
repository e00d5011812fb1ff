# Activity register: verified model

This project models the core of a small Streamlit application that registers
scheduled activities per specialist. It also models the data-preparation
rules of the two thesis-analysis scripts that ship with it. Everything is
written in Dafny and every contract is proved.

- **Record store (`db.py`)**: `Store.ActivityStore` is a class holding
  - the `scheduled_activities` rows;
  - the append-only `audit_log`;
  - the AUTOINCREMENT counter.

  Its methods are batch insert, standard status/notes update, admin
  reschedule and admin delete. Each method states its whole new state. The
  range query is the pure function `Store.QueryRange`: filter, then order by
  (date, specialist, activity).
- **Monthly matrix export (`db.py`)**: `Matrix.ExportMonthMatrix` is the
  pivot's content. It gives either a placeholder sheet, or a title, a header
  row and one row per (specialist, activity, unit) with a status per day.
- **Form and grid logic (`app.py`)**: `App` holds
  - month bounds;
  - the admin-code check;
  - the expansion of a date range into scheduled days;
  - submission validation and record building;
  - change detection in the status grid;
  - the dashboard counts.
- **Section 6 analysis script (`resultados_tesis_section6_fix.py`)**:
  `Section6` holds column-name canonicalisation, column search, the item
  indicators, the fixed 15/15/21/12 row segmentation and the per-row item
  metrics.
- **Colab analysis script (`tesis_resultados_colab.py`)**: `Colab` holds
  - the sheet choice and column renaming;
  - the forward-filled group label and the treatment indicator;
  - the column-name patterns;
  - the `mujer` indicator and the sample filters;
  - the model-file slug.

Supporting modules:
- `Wrappers`: Option and Result.
- `Seqs`: filter, sorted-distinct keys (pandas `groupby` order) and a sort
  by a total preorder.
- `Text`: Python `str` operations on `seq<char>`, and the code-point string
  order that SQLite's BINARY collation and pandas use.
- `Calendar`: the proleptic Gregorian calendar of Python's `date`, with
  `toordinal` and `weekday`.

The wall clock, the admin secret and the environment variable are
parameters. Dates are `Calendar.Date` values restricted to years 1..9999, as
in Python. Python's `None` and pandas' NA are `Option.None`.

## Model

| member | source | states |
|---|---|---|
| Store.OrDefault | db.py:69-72 | `value or default`: the value when present and non-empty, otherwise the default ("" for status and notes, "—" for the author) |
| Store.OrDefaultIdempotent | db.py:69-72 | the store's `or default` applied to a value the form already defaulted changes nothing |
| Store.IndexOf | db.py:115-117 | the first row carrying the id, or -1 exactly when no row has that id |
| Store.BatchInsertFresh | db.py:55-74 | after a batch the table stays well formed (ids ascending, below the counter); the j-th new row gets id next + j, above every earlier id; it carries its record's labels and date; its status, notes and author are the record's values, or "", "" and "—" when those are missing or empty; it has the batch time and no update stamp |
| Store.UpdateChangesOnlyStatusAndNotes | db.py:95-111 | the update keeps id, date, labels and creation stamp of every row; rows named by no change, including every row when the id is unknown, are unchanged |
| Store.UpdateLastChangeWins | db.py:99-110 | when several changes name a row, the row ends with the last one's status, notes and actor, and the update time |
| Store.RescheduleKeepsWellFormed | db.py:119-120 | rescheduling a row keeps the table well formed |
| Store.DeleteRemovesId | db.py:134 | deleting leaves a well-formed table without that id, holding exactly the other rows |
| Store.RemoveAt | db.py:134 | the DELETE keeps every other row in order: one row fewer, rows before the deleted one unchanged, rows after it moved up by one |
| Store.RowLeIsTotalPreorder | db.py:86 | the (date, specialist, activity) ordering is a total preorder |
| Store.QueryRange | db.py:76-93 | the result holds exactly the rows with from ≤ date ≤ to and, when the filter is neither None nor "", that specialist; it is a permutation of the filtered rows, sorted by (date, specialist, activity) |
| Store.BatchInsertVisible | db.py:55-93 | a newly inserted row whose date lies in the range is returned by the unfiltered query |
| Store.RescheduleVisible | db.py:76-93 | a rescheduled row is returned by a query over a range containing its new date |
| Store.DeleteInvisible | db.py:76-93 | no query returns a deleted id |
| Store.ActivityStore.constructor | db.py:24-53 | empty tables, counter at 1 |
| Store.ActivityStore.Find | db.py:115-117 | the loop finds the index the function IndexOf specifies |
| Store.ActivityStore.AddScheduledRecords | db.py:55-74 | appends exactly the rows of `Inserted` with consecutive fresh ids, advances the counter by the batch size and leaves the audit log alone |
| Store.ActivityStore.UpdateRecordsStatusAndNotes | db.py:95-111 | the rows become `ApplyChanges` of the old rows, in change order; counter and audit log unchanged |
| Store.ActivityStore.AdminUpdateScheduledDate | db.py:113-126 | returns true iff the id exists. On false, rows and audit log are unchanged. On true, only that row's date, update time and updater change, and exactly one UPDATE_DATE entry with the old and new dates, actor and reason is appended |
| Store.ActivityStore.AdminDeleteRecord | db.py:128-140 | returns true iff the id exists. On false, nothing changes. On true, exactly that row is removed and exactly one DELETE entry with the old date and no new date is appended |
| Store.AuditTrailScenario | db.py:113-140 | a reschedule followed by a delete grows the audit log by two entries when the id existed and by none otherwise, and never alters earlier entries |
| Matrix.KeyLtIsStrictTotalOrder | db.py:157-163 | the (specialist, activity, unit) group order is a strict total order |
| Matrix.GroupKeys | db.py:157-163 | the pivot's row keys are exactly the distinct keys of the query, strictly ascending |
| Matrix.FirstOnCell | db.py:157-163 | `aggfunc="first"`: the first record in query order with that key and day, or -1 when there is none |
| Matrix.BodyRow | db.py:211-221 | a data row is the three labels followed by one cell per day 1..last day |
| Matrix.HeaderRow | db.py:182-200 | the header is "Especialista", "Actividad", "Unidad de medida", then the numbers 1..last day |
| Matrix.ExportMonthMatrix | db.py:143-221 | a placeholder with "Sin datos para el rango seleccionado" iff the query is empty; otherwise a grid titled for the month whose header is the three label headers then 1..last day, and whose rows, one per distinct key in key order, are all as wide as the header |
| Matrix.ExportCoversEveryRecord | db.py:157-221 | for a one-month range, every queried record has a row, and its day cell shows the status of the first record on that cell |
| Matrix.BodyCovers | db.py:157-221 | a queried record whose key labels a row appears in that row, on its day, as the status of the first record of that cell |
| Matrix.BodyCellSource | db.py:157-162 | a non-empty day cell of a row shows the status of a queried record with the row's key on that day |
| Matrix.ExportEmptyCells | db.py:162 | a day cell with no record is "" |
| Matrix.ExportMonthMatrixAsWritten | db.py:211-221 | as written: same sheet shape and labels, but every day cell is "" |
| Matrix.ExportAsWrittenLosesStatus | db.py:219-220 | a one-record month whose status is non-empty exports "" as written, but the status in the intended sheet |
| App.MonthBounds | app.py:20-28 | first = day 1 of the month; last = the month's final day (December rolls over through January 1); no result for December 9999, where Python raises |
| App.MonthBoundsSpanMonth | app.py:20-28 | a date lies within the bounds iff it is in the same month, and the bounds span exactly the month's length |
| App.ConfiguredSecret | app.py:38 | the secrets value unless missing or empty, else the environment value unless missing or empty, else none |
| App.VerifyAdmin | app.py:37-39 | false without a configured secret; otherwise true iff the code equals the secret |
| App.IsAdmin | app.py:46-54 | admin iff the role is "Administrador", the code is non-empty and its stripped form verifies |
| App.EmitWeekend | app.py:118 | without the weekend option no Saturday or Sunday is emitted |
| App.ExpandStep | app.py:116-120 | one iteration of the walk extends the covered days by exactly the current date |
| App.ExpandRange | app.py:111-120 | [] when start > end; otherwise strictly ascending dates, exactly those in [start, end] whose day name is selected (all seven when none is) and that are weekdays unless weekends are included; no result when the walk would step past 9999-12-31 |
| App.ExpandedInDateTerms | app.py:111-120 | the finished walk, in date comparisons: strictly ascending dates, each in [start, end] and passing the day filter, and every such date present |
| App.BuildSubmission | app.py:125-141 | the error message iff specialist, activity, both units or the date list is empty; otherwise one record per date, in order, with stripped labels, the final unit, status "", stripped notes and the stripped actor name or "—" |
| App.SubmissionStored | app.py:129-142 | the stored rows are unmarked, on the chosen dates, with the stripped actor name as author, or "—" when the name is blank |
| App.StoredAuthor | app.py:138 | `(actor_name or "—").strip()` followed by the store's `or "—"` gives the stripped name, or "—" when the name is blank |
| App.SubmissionBlankOtherUnit | app.py:126-129 | "Otro" with a blank free text passes validation and stores an empty unit |
| App.FirstWithId | app.py:190 | the first original row with the id, or -1 when none has it |
| App.DetectChanges | app.py:187-203 | the loop yields exactly `Changes` and the refused ids `RefusedDateEdits`; date edits only revert the local row |
| App.ChangesExactlyDiffering | app.py:195-203 | an entry is emitted iff the row's status or notes (compared as `str`) differ from the original; it carries id, status, notes (missing as "") and the stripped actor |
| App.ChangesIgnoreDates | app.py:191-194 | two grids that differ only in dates produce the same change list, so no date ever reaches the update |
| App.UneditedGridHasNoChanges | app.py:187-205 | saving an unedited grid with distinct ids sends no change |
| App.Count | app.py:222-231 | a count never exceeds the number of rows |
| App.CountsAddUp | app.py:222-231 | completed + missed + pending ≤ planned, with equality when every status is "✓", "✗" or "" |
| App.CountPositive | app.py:222-231 | planned > 0 iff the specialist has a row |
| App.Specialists | app.py:229 | each specialist with rows appears once, in ascending order |
| App.Dashboard | app.py:221-231 | one summary per specialist with rows, in specialist order, each with its own counts, planned ≥ 1 and the marks within the planned count |
| App.CompletionRate | app.py:232-235 | the rate lies in [0, 1]; it is completed / (completed + missed) when something is decided and 0 otherwise; it is 1 iff some task is completed and none missed |
| App.DisplayedDashboard | app.py:236 | the shown table is a permutation of the summary, by planned count descending |
| App.StrippedOr | app.py:284-285 | `text.strip() or fallback`: the fallback for blank text; otherwise a non-empty text without surrounding whitespace that stripping leaves unchanged |
| App.AdminArgumentsNeverBlank | app.py:280-294 | the actor and reason handed to a reschedule or delete are never blank and carry no surrounding whitespace; the actor is "ADMIN" exactly when the name is blank or strips to "ADMIN" |
| Text.Strip | app.py:129-138 | Python's `str.strip()`: no surrounding whitespace, empty iff the input is all whitespace, and the input itself when it has none |
| Text.StripRemovesOnlyEdgeSpace | app.py:129-138 | the input is some leading whitespace, then the stripped text, then some trailing whitespace: nothing else is removed |
| Calendar.OrdinalOrder | app.py:112-116 | comparing dates is comparing their day ordinals |
| Calendar.SuccCorrect | app.py:120 | `cur + timedelta(days=1)` is valid and has the next ordinal, below 9999-12-31 |
| Calendar.PredCorrect | app.py:27 | `next_first - timedelta(days=1)` is valid and has the previous ordinal, above 0001-01-01 |
| Section6.ReplaceRuns | resultados_tesis_section6_fix.py:31 | `re.sub("[^0-9a-zA-Z]+", "_", …)`: only ASCII letters, digits and "_" remain, with no "__", and the alphanumerics are kept in order |
| Section6.StripUnderscores | resultados_tesis_section6_fix.py:31 | `.strip("_")`: the result neither starts nor ends with "_" and keeps the alphanumerics |
| Section6.LowerKeepsAlnum | resultados_tesis_section6_fix.py:31 | lower-casing commutes with taking the alphanumerics |
| Section6.Canon | resultados_tesis_section6_fix.py:30-33 | the canonical name uses only [0-9a-z_], has no leading or trailing "_", has no "__", and has the source's alphanumerics lower-cased |
| Section6.CanonCollapseIsIdentity | resultados_tesis_section6_fix.py:32 | the second `re.sub("_+", "_")` never changes anything |
| Section6.ReplaceRunsFixed | resultados_tesis_section6_fix.py:31 | a name already of canonical shape passes the substitution unchanged |
| Section6.CanonIdempotent | resultados_tesis_section6_fix.py:30-33 | canon(canon(s)) == canon(s) |
| Section6.FirstMatching | resultados_tesis_section6_fix.py:43-45 | the first column containing every required part and the preferred part, or -1 when none does |
| Section6.FilterFirst | resultados_tesis_section6_fix.py:38-46 | the first candidate with the preferred part is the first column with all required parts and that part |
| Section6.FindCol | resultados_tesis_section6_fix.py:35-46 | none iff no column contains every lower-cased part; with a non-empty preference the first candidate containing it, otherwise the first candidate |
| Section6.ResolveColumn | resultados_tesis_section6_fix.py:263-276 | `find_col(specific) or find_col(general)`: the specific match unless missing or empty, then the general one |
| Section6.ResolveColumnMissing | resultados_tesis_section6_fix.py:263-276 | when the specific parts include the general ones, the result is missing iff the general search fails |
| Section6.BuildOk | resultados_tesis_section6_fix.py:48-56 | from the ok column when present: 1 exactly where it is numerically 1 and 0 on every other row; else, when RESP and IDX are both present, 1 exactly where their string forms agree and 0 elsewhere; else missing on every row |
| Section6.BuildOkIndicator | resultados_tesis_section6_fix.py:48-56 | every indicator is missing, 0 or 1, and all are missing iff neither source column exists |
| Section6.PrefixSums | resultados_tesis_section6_fix.py:253 | `np.cumsum([0] + sizes)` starts at 0 and adds one size per step |
| Section6.TreatmentOfRow | resultados_tesis_section6_fix.py:250-260 | rows 0..29 are control, 30..62 treated, later rows missing |
| Section6.Segment | resultados_tesis_section6_fix.py:250-259 | the slice-filling loop gives row i group 1 for i < 15, 2 below 30, 3 below 51, 4 below 63, missing after |
| Section6.NItems | resultados_tesis_section6_fix.py:285 | the number of present items never exceeds the number of items |
| Section6.HitsBound | resultados_tesis_section6_fix.py:285-286 | 0 ≤ hits ≤ items present ≤ 4 for 0/1/missing indicators |
| Section6.ValidRows | resultados_tesis_section6_fix.py:317 | exactly the rows with at least one item and a group, in row order |
| Section6.ValidRowsAssigned | resultados_tesis_section6_fix.py:250-317 | a valid row lies in the first 63, has a treatment and between 1 and 4 items |
| Section6.PickSheet | resultados_tesis_section6_fix.py:103 | "Hoja1" when the workbook has it, otherwise the first sheet |
| Colab.FirstPresent | tesis_resultados_colab.py:66-69 | the first preferred name the workbook has, or -1 when it has none |
| Colab.DiscoverSheet | tesis_resultados_colab.py:61-71 | the loop returns the first preferred name present, else the first sheet |
| Colab.PickSheetIsDiscoverRule | tesis_resultados_colab.py:61-71 | the other script's sheet choice is the same rule with the single name "Hoja1" |
| Colab.EnsureColumn | tesis_resultados_colab.py:87-90 | renames every occurrence of `current` to `alias` iff `current` exists and `alias` does not; otherwise the columns are unchanged; other columns never change |
| Colab.EnsureColumnIdempotent | tesis_resultados_colab.py:87-90 | a second identical rename changes nothing |
| Colab.FirstMentioning | tesis_resultados_colab.py:98-101 | the first string column whose cell mentions grupo/trat/control, or -1 |
| Colab.ScanTakesFirstMention | tesis_resultados_colab.py:97-102 | after the loop each row's label is the cell of the first string column mentioning a group, or "" |
| Colab.LastFilled | tesis_resultados_colab.py:103 | the nearest non-blank position at or before the row, or -1 |
| Colab.FFill | tesis_resultados_colab.py:103 | `replace({"": NA}).ffill()` keeps the length and never leaves an empty string |
| Colab.FFillNearest | tesis_resultados_colab.py:103 | blanks take the nearest earlier non-blank label; blanks before any label stay missing |
| Colab.BuildGroupLabel | tesis_resultados_colab.py:93-104 | the label is the forward fill of "Unnamed: 0" when present, otherwise of the column scan |
| Colab.TreatAsWritten | tesis_resultados_colab.py:107-112 | as written: a missing label gives 0; otherwise 0 with "control", 1 with only "trat", missing otherwise |
| Colab.Treat | tesis_resultados_colab.py:107-112 | intended: 0 iff the label mentions "control", 1 iff it mentions "trat" but not "control", missing otherwise and for a missing label |
| Colab.LeadingUnlabelledRowsBecomeControl | tesis_resultados_colab.py:103-112 | rows before the first label get 0 as written and missing as intended |
| Colab.TreatAgreesOnLabels | tesis_resultados_colab.py:107-112 | the as-written and intended indicators agree on every present label |
| Colab.PatternColumns | tesis_resultados_colab.py:119-125 | exactly the columns whose lower-cased name contains "p_blue" and ends with "_" + the suffix, in column order |
| Colab.PatternColumnsDisjoint | tesis_resultados_colab.py:166-168 | no column feeds two of pA, pB, pC, pD |
| Colab.GkColumns | tesis_resultados_colab.py:157-160 | exactly the "TESIS_TOTAL_C_1_player_gk_…_ok" columns, in column order |
| Colab.Mujer | tesis_resultados_colab.py:153-155 | missing iff the sex is missing; 1 exactly for "female" or "mujer" in any case; otherwise 0 |
| Colab.RowsWithId | tesis_resultados_colab.py:136-138 | a KeyError message iff the id column is missing; otherwise exactly the rows with an id, ascending |
| Colab.AnalysisSample | tesis_resultados_colab.py:178-179 | the two filters in a row keep exactly the rows with pA, pD and treat present and treat in {0, 1}, in row order and with repeated rows kept |
| Colab.TreatIsBinary | tesis_resultados_colab.py:107-112 | the intended indicator is 0 or 1 whenever present, so the treat filter keeps every complete row |
| Colab.NameSlug | tesis_resultados_colab.py:301 | the slug has no space, no "+" and no upper-case ASCII letter |
| Colab.NameSlugIdempotent | tesis_resultados_colab.py:301 | slugging a slug changes nothing |

## Left out

- SQLite connection handling, the database directory and the table DDL (db.py:13-53). The store is an in-memory object whose methods are atomic, standing in for each SQL transaction.
- The wall clock `_now_iso` (db.py:15-16). Each operation takes one timestamp `now`, used for every row and audit entry it writes; the source reads the clock once per statement.
- Audit entry and row ids come from AUTOINCREMENT counters. The model numbers audit entries 1, 2, … and rows from a counter that never goes back, which is what SQLite's AUTOINCREMENT guarantees.
- Column types: dates are `Calendar.Date` values rather than ISO text. `date(scheduled_date)` in SQL and `isoformat()` in Python agree on every valid date, so the text form is not modelled.
- openpyxl styling, column widths, the A1:AI1 merge and the xlsx/BytesIO serialisation (db.py:147-227). The sheet is a title, a header row and body rows of text or number cells.
- Text.Lower: case mapping covers ASCII letters only. Python's `str.lower()` also maps other letters, for example "İ" (U+0130) to "i̇" (two code points, so the length changes) and the Kelvin sign (U+212A) to "k". The model's answers are unaffected: `canon` lower-cases only after replacing every non-ASCII-alphanumeric run by "_", the "gk" columns are matched without lower-casing, and every other lower-cased test looks for ASCII words with no "i" or "k" (grupo, trat, control, female, mujer, p_blue and the a–d suffixes), while "i" and "k" are the only ASCII letters the full mapping produces from non-ASCII ones.
- Matrix.Title: the title zero-pads the year to four digits; `strftime('%Y')` pads years below 1000 only on some platforms.
- Streamlit widgets, tabs, session state, messages, charts and the download button (app.py). The inputs they produce are parameters.
- `get_admin_code` and `os.getenv` (app.py:30-38). Their values are parameters.
- App.DetectChanges requires every edited row to have an original row with its id. The grid's id column is read-only, so the editor cannot produce another id.
- App.DisplayedDashboard: `sort_values("planned", ascending=False)` does not promise an order among equal planned counts. The model's sort is one admissible order.
- Store.QueryRange: SQLite leaves the order of rows equal in (date, specialist, activity) unspecified. The model's stable sort is one admissible order, and the contract promises only the sort keys.
- App.CompletionRate is stated over exact reals; floating-point rounding is not modelled.
- The dashboard's `fillna("")` (app.py:221) is not modelled, because the status column is NOT NULL.
- Rates, means, standard deviations, the regressions, tests, predictions, the `shift_*`/`d_optim` arithmetic, `p4`/`fmt` rounding and all plots in both analysis scripts. These are floating-point numerics and foreign library calls.
- Section6.BuildOk: the numeric coercion of the ok column (`pd.to_numeric(..., errors="coerce")`) is an input. Each cell carries its numeric value, or none, together with its `astype(str)` text.
- Excel reading, the path fallbacks in `load_excel`, and CSV/HTML/Stata writing and logging. All of these are I/O.
- `compute_row_mean` (tesis_resultados_colab.py:128-132) is a floating-point mean.
- `to_numeric` (tesis_resultados_colab.py:115-116) is pandas coercion; its results are inputs to `Colab.AnalysisSample`.
- `read_workbook` (tesis_resultados_colab.py:74-82) is file I/O.
- Colab.BuildGroupLabel: whether pandas considers a column a string column (`is_string_dtype`) is an input flag of each column.

## Findings

| source | as written | input that shows it | evidently intended | confidence | as-written member | corrected member |
|---|---|---|---|---|---|---|
| db.py:219-220 | `getattr(row, str(d), "")` on a row from `itertuples(index=False)`: the integer day labels are not valid field names, so the tuple renames them by position (`_3`, `_4`, … after the three label columns, whatever the day), no field is named "5" and every day cell falls back to "" | one record dated day 5 of the month with status "✓" | the day cell shows the status pivoted into column `d` | medium, not executed | Matrix.ExportMonthMatrixAsWritten, Matrix.ExportAsWrittenLosesStatus | Matrix.ExportMonthMatrix |
| tesis_resultados_colab.py:107-112 | `treat.mask(lower.str.contains(...), v)` on an NA label: `contains` yields NA, `mask` fills the NA condition so that the value is replaced, so the row becomes 1 and then 0 (control) | a sheet whose first rows precede any group label: after the forward fill their label is NA | a row without a label has no treatment and leaves the sample | medium, not executed | Colab.TreatAsWritten, Colab.LeadingUnlabelledRowsBecomeControl | Colab.Treat |
