# RdvGenerator — a Dafny model of the report generator

RdvGenerator reads an Excel sheet of sales appointments and writes one
Word report per salesperson for a chosen period. This project models the
core of that program in Dafny and proves properties of the model:

- `rdv_generator.py`:
  - the text helpers `sanitize_filename` and `normalize`;
  - the column finder `detect_column`;
  - the loader `load_rdv_data`, which resolves the year, month, day and
    salesperson columns, assembles a `date` column, keeps the rows of a
    day window and groups them by salesperson;
  - the report builder `creer_rapport_rdv`, which produces the cover
    texts, the running header, the appointment table and the output
    filename.
- `app_rdv.py`:
  - the widget ranges for month, year and days;
  - the guard on the button;
  - the case-insensitive selection of salespeople;
  - the loop that builds one report per selected salesperson.

Modules follow the program's structure:

| module | file | models |
|---|---|---|
| `Wrappers` | `wrappers.dfy` | `Option` and `Result` |
| `Text` | `text.dfy` | `normalize`, `sanitize_filename`, `str.lower`, `p in s`, string order |
| `Numerals` | `numerals.dfy` | `str(int)`, `{:02d}`, and reading decimal text back |
| `Calendar` | `calendar.dfy` | Gregorian dates, the pandas timestamp range, `strftime("%d/%m/%Y")`, `str(Timestamp)` |
| `Seqs` | `seqs.dfy` | order-keeping filtering, which stands in for a boolean mask |
| `Columns` | `columns.dfy` | `detect_column`, both as a function and as its loop |
| `Loader` | `loader.dfy` | `load_rdv_data` on a sheet that has already been parsed |
| `Report` | `report.dfy` | `creer_rapport_rdv`, with the document as a value |
| `App` | `app.dfy` | the selection, the report loop and the page's outcome |

How the model represents the source's data:

- **Sheet.** A sheet is its column names plus its rows. Each row is a map
  from column name to cell.
- **Cell.** A cell is `Num`, `Txt`, `Stamp` or `Blank`:
  - `Num` is an integer;
  - `Txt` is a string;
  - `Stamp` is a pandas timestamp at midnight;
  - `Blank` is NaN or NaT.
- **Load result.** The loader's dictionary is a sequence of `Group`s, in
  the key order that `groupby` produces. When pandas would raise, the
  loader returns `Err`.
- **Document.** A document records only what is written into it: whether
  logos were added, the title, the cover text, the running header, the
  heading, the body (a notice or a table) and the filename.

Where the code and its documentation disagree, the model follows the code:

- A missing column makes `load_rdv_data` return `{}`. It raises no error.
- One row whose date cannot be assembled fails the whole load, even when
  that row lies outside the period.
- A date is assembled from the number year*10000 + month*100 + day read as
  `%Y%m%d`, not part by part. A day or month out of range can carry:
  (2024, 2, 101) assembles to 1 March 2024.
- An absent address column gives an empty cell.
- An empty reason or address cell is written as `nan`.
- Selection compares `str.lower()` forms with `in`. It ignores case but
  not accents, so "Ophelie" does not select "Ophélie".

## Model

| member | source | states |
|---|---|---|
| Text.Lower | app_rdv.py:55 | `str.lower()` on one character: it changes exactly the capitals of the table and leaves none; a mark stays a mark, an ASCII character stays ASCII, and a letter without a decomposition gets none |
| Text.LowerAll | app_rdv.py:55 | `s.lower()` keeps the length and lowers each character on its own |
| Text.Contains | rdv_generator.py:22 | `p in s`, defined as `p` being a prefix of some suffix of `s`; ContainsIff states it as an occurrence at some offset |
| Text.Normalize | rdv_generator.py:16-17 | normalised text contains no `_`, no `-` and no combining mark |
| Text.NormalizeAscii | rdv_generator.py:16-17 | on ASCII text, `normalize` keeps the length and maps each character on its own: lower-cased, with `_` and `-` becoming spaces |
| Text.NormalizePerChar | rdv_generator.py:16-17 | the same per-character behaviour holds for any text that has no combining mark and no letter NFD splits |
| Text.NormalizeDecomposed | rdv_generator.py:16-17 | an accented letter normalises to its lower-case base letter |
| Text.NormalizeIdempotent | rdv_generator.py:16-17 | normalising twice gives the same text as normalising once |
| Text.NormalizeAppend | rdv_generator.py:16-17 | `normalize` commutes with concatenation |
| Text.NfdDecomposed | rdv_generator.py:17 | NFD output has no letter left to decompose |
| Text.NormalizeAccentExamples | rdv_generator.py:17 | "Année" normalises to "annee"; "OPHÉLIE" and "Ophélie" both normalise to "ophelie" |
| Text.NormalizeSeparatorExample | rdv_generator.py:17 | "Nom_du-Commercial" normalises to "nom du commercial" |
| Text.LowerLettersAreNormal | rdv_generator.py:20 | a keyword made of lower-case ASCII letters is its own normal form |
| Text.SanitizeFilename | rdv_generator.py:13-14 | keeps the length; turns each space into `_` and each `/` into `-`; leaves no space or `/`; changes nothing else |
| Text.SanitizeIdempotent | rdv_generator.py:13-14 | sanitising twice gives the same name as sanitising once |
| Text.ContainsIff | rdv_generator.py:22 | `p in s` holds iff `p` occurs at some offset of `s` |
| Text.ContainsKeepsChars | app_rdv.py:55 | every character of a contained text occurs in the containing text |
| Text.ShortNeverContains | rdv_generator.py:22 | a text no longer than `p`, and different from it, does not contain `p` |
| Text.StrLessIrreflexive | rdv_generator.py:52 | the key order that `groupby` sorts by is irreflexive |
| Text.StrLessTransitive | rdv_generator.py:52 | the key order is transitive |
| Text.StrLessTotal | rdv_generator.py:52 | the key order is total |
| Text.StrLessAsymmetric | rdv_generator.py:52 | the key order is asymmetric |
| Numerals.IntToString | rdv_generator.py:79 | `str(i)` is the digits of i, with a leading `-` for a negative i; IntToStringRoundTrip reads it back |
| Numerals.Pad2 | rdv_generator.py:119 | `{n:02d}` is two digits; Pad2Meaning gives their value |
| Numerals.NatToString | rdv_generator.py:79 | `str(n)` is a non-empty run of digits; it is one digit exactly when n < 10 |
| Numerals.NatToStringRoundTrip | rdv_generator.py:79 | reading the digits of `str(n)` gives n back |
| Numerals.IntToStringRoundTrip | rdv_generator.py:79 | parsing `str(i)` gives i back, negative values included |
| Numerals.IntToStringInjective | rdv_generator.py:79 | distinct integers have distinct texts |
| Numerals.Pad2Meaning | rdv_generator.py:119 | `{n:02d}` is two digits that read back as n, for 0 <= n < 100 |
| Numerals.Pad4Meaning | rdv_generator.py:114 | `%Y` is four digits that read back as the year |
| Calendar.DaysInMonth | rdv_generator.py:36-40 | a month has 28 to 31 days |
| Calendar.MakeDate | rdv_generator.py:36-40 | a date is built exactly when year, month and day form a Gregorian date, and it holds those three values |
| Calendar.CalendarRules | rdv_generator.py:36-40 | 29 February exists only in leap years; 30 February never exists; day 31 exists only in the seven long months; day 28 always exists and day 32 never does |
| Calendar.DateExamples | rdv_generator.py:36-40 | 2024-03-15 is accepted; 2024-02-30, 2023-02-29 and 1900-02-29 are rejected; 2024-02-29 and 2000-02-29 are accepted |
| Calendar.FormatDate | rdv_generator.py:114 | `dd/mm/yyyy` is ten characters, with slashes at offsets 2 and 5 |
| Calendar.FormatDateRoundTrip | rdv_generator.py:114 | parsing a formatted date gives the date back |
| Calendar.FormatDateInjective | rdv_generator.py:114 | distinct dates are formatted differently |
| Calendar.TimestampText | rdv_generator.py:115-116 | `str(Timestamp)` is `yyyy-mm-dd 00:00:00` |
| Columns.FirstMatchNormalized | rdv_generator.py:19-24 | None iff no column's normal form contains the normalised keyword; otherwise the result is the first column that matches |
| Columns.FirstMatch | rdv_generator.py:19-24 | the same, stated with the keyword before normalisation |
| Columns.DetectColumn | rdv_generator.py:19-24 | the loop returns the first matching column, or None |
| Columns.FoundColumnIsTruthy | rdv_generator.py:33 | with a non-empty keyword, a found column is a non-empty name, so `all([...])` accepts it |
| Loader.KeywordIsNormal | rdv_generator.py:28-31 | "annee", "mois", "jour" and "commercial" are their own normal forms |
| Loader.DetectKeyword | rdv_generator.py:28-31 | detecting one of those four keywords is matching its literal text |
| Loader.ResolveSchemaDetects | rdv_generator.py:28-34 | the four columns resolve iff `detect_column` finds all four, and they are the columns it returns |
| Loader.LoadMissingColumn | rdv_generator.py:33-34 | a missing year, month, day or salesperson column gives the empty result |
| Calendar.AssembleDate | rdv_generator.py:36-40 | the date pandas assembles from year, month and day: the number year*10000 + month*100 + day, read as `%Y%m%d`; when there is one, it has the same combined number and lies in the timestamp range |
| Calendar.DecodedCombines | rdv_generator.py:36-40 | reading an eight-digit number as `%Y%m%d` splits it into fields that combine back to that number |
| Calendar.AssembleDateExact | rdv_generator.py:36-40 | parts that already form a date with a four-digit year assemble to that date, or to nothing outside the timestamp range |
| Calendar.AssembleDateInRange | rdv_generator.py:36-40 | with a month in 1..12 and a day in 1..31 nothing carries: an assembled date is the date the parts name |
| Calendar.AssembleDateExamples | rdv_generator.py:36-40 | (2024, 2, 101) assembles to 1 March 2024 and (2024, 0, 115) to 15 January 2024; (2024, 2, 30), (2024, 13, 1) and (999, 3, 1) assemble to nothing |
| Loader.ResolveSchema | rdv_generator.py:28-34 | the four columns, or None when one is missing; ResolveSchemaDetects ties it to the four `detect_column` calls |
| Loader.RowDate | rdv_generator.py:36-40 | a row's date is the date AssembleDate builds from its three numbers; an empty part gives no date; a text or date part, or numbers from which no date is assembled, is an error |
| Loader.AssembleDates | rdv_generator.py:36-40 | the column is assembled iff every row's date is; it then holds each row's date, in order |
| Loader.WithDateColumn | rdv_generator.py:36 | the `date` column is appended, or overwritten if present; each row gets its own date; every other cell is unchanged |
| Loader.Dated | rdv_generator.py:36-40 | the frame with its `date` column, or the conversion's error; AssembleDates and WithDateColumn state its parts |
| Loader.RejectsInvalidDate | rdv_generator.py:36-40 | one row that cannot be assembled fails the resolved load |
| Loader.LoadRejectsInvalidDate | rdv_generator.py:36-40 | a row whose three numbers assemble to no date fails the whole load, wherever that row lies |
| Loader.LoadResolvedErrors | rdv_generator.py:36-52 | a resolved load fails only for a row that cannot be assembled or for a kept row whose salesperson cell is not text |
| Loader.LoadErrors | rdv_generator.py:26-52 | a failing load had all four columns resolved |
| Loader.LoadResolvedEmptyWindow | rdv_generator.py:42-50 | with the first day after the last day, a resolved load returns the empty result or fails on a date |
| Loader.LoadEmptyWindow | rdv_generator.py:42-50 | the same holds for the whole load |
| Loader.DateColumnIsNoDatePart | rdv_generator.py:28-36 | the derived `date` column matches none of "annee", "mois" and "jour" |
| Loader.SchemaAvoidsDateColumn | rdv_generator.py:28-36 | no resolved year, month or day column is the derived `date` column |
| Loader.Window | rdv_generator.py:42-47 | the rows whose year and month cells equal the period's and whose day lies in the window, in order; WindowMembers and WindowRows state it |
| Loader.WindowMembers | rdv_generator.py:42-47 | a row is kept iff it is a row of the frame that lies in the window |
| Loader.WindowRowDate | rdv_generator.py:36-47 | a kept row's `date` cell is the timestamp assembled from the requested year and month and its own day |
| Loader.WindowRows | rdv_generator.py:36-47 | the same holds for every kept row of a dated frame |
| Loader.GroupBy | rdv_generator.py:52 | one group per distinct text key in sorted order, or an error for a key that is not text; GroupByPartition states it |
| Loader.InsertKey | rdv_generator.py:52 | adding a key keeps the keys strictly sorted and adds exactly that key |
| Loader.SortedKeys | rdv_generator.py:52 | the keys are strictly sorted and are exactly the text values of the column |
| Loader.GroupByShape | rdv_generator.py:52 | there is one group per sorted key, holding the rows with that key; every salesperson cell is text or empty |
| Loader.GroupsNonEmpty | rdv_generator.py:52 | every group has at least one row |
| Loader.GroupRowsMatchKey | rdv_generator.py:52 | every row of a group comes from the input and carries the group's key |
| Loader.EveryRowGrouped | rdv_generator.py:52 | every row with a text salesperson is in the group of that value |
| Loader.GroupByPartition | rdv_generator.py:52 | the groups partition the rows that have a text key: keys are strictly increasing, no group is empty, each row is in its own key's group, and the rows keep their order |
| Loader.Load | rdv_generator.py:26-52 | the empty result for a missing column, otherwise LoadResolved; LoadMissingColumn, LoadErrors, LoadEmptyWindow and LoadedRows state it |
| Loader.LoadResolved | rdv_generator.py:36-52 | the dated frame, then the window, then `{}` for an empty window or the groups; LoadResolvedErrors and LoadedRowsResolved state it |
| Loader.LoadedRows | rdv_generator.py:26-52 | every returned row lies in the window, has a `date` cell assembled from its numbers, and sits in its salesperson's group |
| Loader.LoadedDatesAreRowDates | rdv_generator.py:36-52 | with a day window inside 1..31, a real month and a four-digit year, every loaded row's `date` cell is the date (year, month, day) itself |
| Loader.LoadIsResolved | rdv_generator.py:26-52 | once the columns resolve, the load is the resolved load |
| Loader.LoadedRowsResolved | rdv_generator.py:36-52 | the same row facts hold for a resolved load |
| Report.PeriodText | rdv_generator.py:79 | `du {jour_debut} au {jour_fin} {mois_nom} {annee}`; PeriodTextDeterminesDays shows it determines the days |
| Report.InfoText | rdv_generator.py:75-79 | the cover paragraph's runs; InfoTextShows states what it shows |
| Report.RunningHeader | rdv_generator.py:88 | the running header's run; RunningHeaderShows states what it shows |
| Report.CaptionsAgree | rdv_generator.py:76-88 | the cover text and the running header each show both the salesperson and the period caption |
| Report.InfoTextShows | rdv_generator.py:76-79 | the cover text contains the salesperson and the period |
| Report.RunningHeaderShows | rdv_generator.py:88 | the running header contains the period and the salesperson |
| Report.PeriodTextDeterminesDays | rdv_generator.py:79 | two windows with a different first day or a different last day get different captions |
| Report.CellText | rdv_generator.py:115-116 | `str()` of a cell: an integer in decimal, a text as it is, a timestamp as `yyyy-mm-dd 00:00:00`, an empty cell as `nan` |
| Report.OptionalText | rdv_generator.py:115-116 | `str(row[col]) if col else ""`; TableShape states the cells it fills |
| Report.RowCells | rdv_generator.py:113-116 | the three cells of one row, or the date cell's error; TableRows and TableShape state it |
| Report.DateText | rdv_generator.py:114 | a timestamp is written `dd/mm/yyyy` and reads back as the same date; an empty cell is written ""; any other value is an error |
| Report.TableRows | rdv_generator.py:112-116 | the table is built iff every row's cells are; it then has one row of cells per frame row, in order; otherwise the error is `NotADate` |
| Report.TableRowsStop | rdv_generator.py:112-116 | the first row that cannot be written stops the table with that row's error |
| Report.TableRowsErrors | rdv_generator.py:114 | a table fails iff some row's date cell is neither a timestamp nor empty |
| Report.TableKeywordIsNormal | rdv_generator.py:96-98 | "date", "raison" and "adresse" are their own normal forms |
| Report.DetectTableKeyword | rdv_generator.py:96-98 | detecting one of those keywords is matching its literal text |
| Report.TableColumnsDetect | rdv_generator.py:96-98 | the table's columns are the ones `detect_column` returns |
| Report.HeaderRow | rdv_generator.py:103-107 | the header cells, filled one by one, are "Date", "Raison du RDV" and "Adresse" |
| Report.BuildRows | rdv_generator.py:112-116 | the row loop builds the table that TableRows describes, or stops with its error |
| Report.BuildBody | rdv_generator.py:92-116 | the section under the heading is the notice for an empty frame, and the table otherwise |
| Report.BodyOf | rdv_generator.py:92-116 | the notice for an empty frame, `NoDateColumn` without a "date" column, otherwise the table; EmptyFrameHasNoTable, BodyErrors and TableShape state it |
| Report.ReportSpec | rdv_generator.py:54-121 | the document: logos, title, cover text, running header, heading, body and filename; ReportBody states when it fails |
| Report.ReportFilename | rdv_generator.py:119 | `{output_dir}/RDV_{sanitize_filename(commercial)}_{mois:02d}_{annee}.docx`; FilenameShape, FilenameDeterminesPeriod and FilenameCollision state it |
| Report.CreateReport | rdv_generator.py:54-121 | the method builds exactly the document that ReportSpec describes, with the same title, cover text, header, body and filename, or fails with the same error |
| Report.EmptyFrameHasNoTable | rdv_generator.py:93-94 | a frame with no rows gives the "Aucun rendez-vous trouvé pour cette période." notice and no table |
| Report.BodyErrors | rdv_generator.py:95-116 | a non-empty frame fails iff no column contains "date", or some row's date cell is neither a timestamp nor empty |
| Report.TableShape | rdv_generator.py:100-116 | a built table has the three headers and one row of three cells per frame row, in order; it holds the formatted date or "", then `str()` of the reason and of the address, or "" for an absent column |
| Report.ReportBody | rdv_generator.py:54-121 | a report succeeds iff its body does, and then carries that body |
| Report.FilenameShape | rdv_generator.py:119 | the file lies directly in the output directory; its name starts with `RDV_`, ends with `.docx`, and has no `/` and no space |
| Report.FilenameDeterminesPeriod | rdv_generator.py:119 | two reports for one salesperson with the same filename are for the same month and year |
| Report.Pad2Cancel | rdv_generator.py:119 | the two-digit month field can be read off the front of the rest of the name |
| Report.FilenameCollision | rdv_generator.py:119 | two salespeople get the same file for a month iff their sanitised names are equal |
| Report.FilenameCollisionExample | rdv_generator.py:119 | "Jean Dupont" and "Jean_Dupont" write the same file |
| Report.LoadedReportDates | rdv_generator.py:26-116 | for a loaded group whose `date` column is the derived one, the report succeeds and writes each row's window date as `dd/mm/yyyy` |
| Report.GroupTableDates | rdv_generator.py:112-116 | in a loaded group's table, each row's first cell is the appointment's date |
| Report.DatedRowsWritable | rdv_generator.py:112-116 | when every row holds a timestamp in the date column, the table is built |
| App.AnyTargetIn | app_rdv.py:55 | a salesperson is selected iff the lower-cased form of some chosen name occurs in the lower-cased key |
| App.Select | app_rdv.py:53-56 | the loaded groups that AnyTargetIn selects, in load order; SelectKeeps states it |
| App.SelectKeeps | app_rdv.py:53-56 | the filtered groups are a subsequence of the loaded ones, and a group is kept iff it is selected |
| App.NameThenMoreSelected | app_rdv.py:55 | a chosen name selects every key that starts with it |
| App.MissingLetterNotSelected | app_rdv.py:55 | a key that lacks one of the name's lower-cased letters is not selected |
| App.AccentedNameSelected | app_rdv.py:55 | "Ophélie" selects "Ophélie Martin" |
| App.UnaccentedKeyNotSelected | app_rdv.py:55 | "Ophélie" does not select "OPHELIE MARTIN" or "Ophelie Martin" |
| App.SelectionIgnoresCase | app_rdv.py:55 | "Sandra" selects "SANDRA" and "sandra b." |
| App.Sequenced | app_rdv.py:59-60 | the report loop succeeds iff every report does; it then holds each report in order; otherwise it fails with the first failure |
| App.SequencedFirstFailure | app_rdv.py:59-60 | the first failing report decides the loop's error |
| App.GroupReports | app_rdv.py:59-60 | there is one report per selected group |
| App.ReportsSpec | app_rdv.py:59-60 | the reports of all groups in order, or the first failure; Sequenced states it |
| App.GenerateReports | app_rdv.py:59-60 | the loop builds the reports that ReportsSpec describes: one per group, in order, or the first failure |
| App.GroupReportAt | app_rdv.py:60 | the k-th report is the one for the k-th group's frame under its key |
| App.ValidInputs | app_rdv.py:16-34 | the chosen names are among the five targets, the month is 1..12, the year is 2022..2029, the days are 1..31 |
| App.RunSpec | app_rdv.py:36-66 | idle without inputs, then the load's error, the warning, a report's error or the reports; RunNeedsInputs, RunNothingFound and RunOneReportPerGroup state it |
| App.Run | app_rdv.py:36-66 | the page's outcome is the one RunSpec describes |
| App.RunNeedsInputs | app_rdv.py:36-37 | nothing happens iff there is no file, no chosen salesperson or no click |
| App.RunNothingFound | app_rdv.py:53-66 | the warning appears iff the load succeeds and none of its groups is selected |
| App.RunOneReportPerGroup | app_rdv.py:51-60 | after a successful run there is at least one selected group, and exactly one report per selected group, in order, each built from that group's frame under its key |

## Left out

- Reading the workbook (`pd.read_excel`) is not modelled. The model starts from an already-parsed sheet.
- Writing the file (`doc.save`), creating the directory (`os.makedirs`) and zipping the reports are not modelled. The download button and the temporary directory are left out too.
- The Streamlit widgets are not modelled. Their values become parameters, limited to the widgets' ranges.
- Document styling is left out: fonts, alignment, cell shading, the table style, the "Intense Quote" style and page breaks.
- Logo handling is reduced to one boolean. It says whether a logo path was given and the file exists; the picture itself and its size are left out.
- The month name `%B` comes from the locale. It is passed in as a table of twelve names.
- Text.Lower: only ASCII letters and the accented letters of French are lower-cased. Python's full Unicode case table is not modelled.
- Text.Nfd: only the accented letters of French are decomposed. Python's full NFD table is not modelled.
- Cells hold integers, texts, timestamps or nothing. Float cells are not modelled, including integer columns that pandas turns into floats when a cell is empty; `str(value)` then shows `1.0` rather than `1`.
- Loader.RowDate: numeric text in a date part, such as "2024", is treated as an error. pandas may convert such text.
- Loader.RowDate / Loader.LoadRejectsInvalidDate: a combined number with fewer than eight digits is rejected, as when it is split arithmetically. pandas versions that read the number as text with `strptime` accept one-digit month and day fields there, so 1700101 can become 1 October 1700.
- Text.IsMark: only the combining diacritical marks U+0300 to U+036F count as category Mn. Other nonspacing marks, such as U+20D7 or U+0483, survive `normalize` in the model.
- Report.CellText: an empty cell is written `nan`. In a reason or address column that pandas types as dates, an empty cell is `NaT` and is written `NaT`.
- Loader.GroupBy: a salesperson value that is not text fails the load. pandas would group it, and the selection's `.lower()` would raise later.
- Calendar.FormatDate: `%Y` pads every year to four digits. Years below 1000 lie outside the timestamp range, so no date that reaches it is shorter.
