/** `creer_rapport_rdv` (rdv_generator.py:54-121) reduced to what it
    computes: the texts of the cover page and of the running header, the
    appointment table and the output filename.  The document is a value;
    fonts, alignment, shading and page breaks are not part of it. */
module Report {
  import opened Wrappers
  import opened Text
  import opened Numerals
  import opened Calendar
  import opened Columns
  import opened Loader

  /** What follows the "Rendez-vous" heading: the notice of an empty frame,
      or the table (its header row and one row of three cells per
      appointment). */
  datatype Body = NoAppointments(notice: string) | Appointments(header: seq<string>, rows: seq<seq<string>>)

  /** The document `creer_rapport_rdv` saves, and the path it saves it to.
      `coverLogo` and `headerLogo` say whether a picture was added. */
  datatype Document = Document(coverLogo: bool, title: string, info: string,
                               headerLogo: bool, runningHeader: string,
                               heading: string, body: Body, filename: string)

  /** The exceptions the table loop raises: `row[None]` when no column
      contains "date", and `.strftime` on a cell that is neither a date nor
      empty. */
  datatype ReportError = NoDateColumn | NotADate

  const Title := "RAPPORT RDV COMMERCIAL"
  const Heading := "Rendez-vous"
  const EmptyNotice := "Aucun rendez-vous trouvé pour cette période."
  const Headers := ["Date", "Raison du RDV", "Adresse"]

  /** `f"du {jour_debut} au {jour_fin} {mois_nom} {annee}"`. */
  function PeriodText(dayFrom: int, dayTo: int, monthName: string, year: int): string
  {
    "du " + (IntToString(dayFrom) + (" au " + (IntToString(dayTo) + (" " + monthName + " " + IntToString(year)))))
  }

  /** The runs of the cover-page paragraph (rdv_generator.py:75-79). */
  function InfoText(commercial: string, period: string): string
  {
    "\nCommercial : " + commercial + "\n" + "Période : " + period
  }

  /** The run of the page header (rdv_generator.py:88). */
  function RunningHeader(commercial: string, period: string): string
  {
    "   Compte rendu " + period + " – RDV de " + commercial
  }

  /** The cover page and the running header show the same period caption
      and the same salesperson (rdv_generator.py:77-79 and 88). */
  lemma CaptionsAgree(commercial: string, period: string)
    ensures Contains(InfoText(commercial, period), period) && Contains(InfoText(commercial, period), commercial)
    ensures Contains(RunningHeader(commercial, period), period)
    ensures Contains(RunningHeader(commercial, period), commercial)
  {
    InfoTextShows(commercial, period);
    RunningHeaderShows(commercial, period);
  }

  lemma InfoTextShows(commercial: string, period: string)
    ensures Contains(InfoText(commercial, period), period) && Contains(InfoText(commercial, period), commercial)
  {
    var head := "\nCommercial : ";
    var mid := "\n" + "Période : ";
    assert InfoText(commercial, period) == (head + commercial + mid) + period;
    OccursAfter(head + commercial + mid, period);
    assert InfoText(commercial, period) == head + (commercial + (mid + period));
    OccursBefore(head, commercial, mid + period);
  }

  lemma RunningHeaderShows(commercial: string, period: string)
    ensures Contains(RunningHeader(commercial, period), period)
    ensures Contains(RunningHeader(commercial, period), commercial)
  {
    var open := "   Compte rendu ";
    var close := " – RDV de ";
    assert RunningHeader(commercial, period) == (open + period + close) + commercial;
    OccursAfter(open + period + close, commercial);
    assert RunningHeader(commercial, period) == open + (period + (close + commercial));
    OccursBefore(open, period, close + commercial);
  }

  lemma OccursAfter(a: string, p: string)
    ensures Contains(a + p, p)
  {
    ContainsIff(a + p, p);
    assert (a + p)[|a|..|a| + |p|] == p;
    assert OccursAt(a + p, p, |a|);
  }

  lemma OccursBefore(a: string, p: string, b: string)
    ensures Contains(a + (p + b), p)
  {
    ContainsIff(a + (p + b), p);
    assert (a + (p + b))[|a|..|a| + |p|] == p;
    assert OccursAt(a + (p + b), p, |a|);
  }

  /** The caption determines the day window: two windows with different
      first or last days are captioned differently. */
  lemma PeriodTextDeterminesDays(d1: nat, e1: nat, d2: nat, e2: nat, monthName: string, year: int)
    requires PeriodText(d1, e1, monthName, year) == PeriodText(d2, e2, monthName, year)
    ensures d1 == d2 && e1 == e2
  {
    var tail := " " + monthName + " " + IntToString(year);
    var a1, a2 := NatToString(d1), NatToString(d2);
    var b1, b2 := NatToString(e1), NatToString(e2);
    PeriodTextSplit(d1, e1, monthName, year);
    PeriodTextSplit(d2, e2, monthName, year);
    CancelPrefix("du ", a1 + (" au " + (b1 + tail)), a2 + (" au " + (b2 + tail)));
    DigitsThenSpace(a1, " au " + (b1 + tail), a2, " au " + (b2 + tail));
    CancelPrefix(" au ", b1 + tail, b2 + tail);
    DigitsThenSpace(b1, tail, b2, tail);
    IntToStringInjective(d1, d2);
    IntToStringInjective(e1, e2);
  }

  lemma PeriodTextSplit(d: nat, e: nat, monthName: string, year: int)
    ensures PeriodText(d, e, monthName, year)
         == "du " + (NatToString(d) + (" au " + (NatToString(e) + (" " + monthName + " " + IntToString(year)))))
  {
    assert IntToString(d) == NatToString(d) && IntToString(e) == NatToString(e);
  }

  /** A run of digits ends where the next space starts. */
  lemma DigitsThenSpace(a1: string, r1: string, a2: string, r2: string)
    requires AllDigits(a1) && AllDigits(a2)
    requires r1 != [] && r1[0] == ' ' && r2 != [] && r2[0] == ' '
    requires a1 + r1 == a2 + r2
    ensures a1 == a2 && r1 == r2
  {
    var s := a1 + r1;
    FirstSpace(s, a1, r1);
    FirstSpace(s, a2, r2);
    assert a1 == s[..|a1|];
    assert a2 == s[..|a2|];
    CancelPrefix(a1, r1, r2);
  }

  lemma FirstSpace(s: string, a: string, r: string)
    requires AllDigits(a) && r != [] && r[0] == ' ' && s == a + r
    ensures |a| < |s| && s[|a|] == ' '
    ensures forall k :: 0 <= k < |a| ==> s[k] != ' '
  {
    forall k | 0 <= k < |a|
      ensures s[k] != ' '
    {
      assert s[k] == a[k];
    }
  }

  /** `f"{output_dir}/RDV_{sanitize_filename(commercial)}_{mois:02d}_{annee}.docx"`. */
  function ReportFilename(outputDir: string, commercial: string, month: int, year: int): string
    requires 1 <= month <= 12
  {
    outputDir + "/RDV_" + SanitizeFilename(commercial) + FileTail(month, year)
  }

  /** `_{mois:02d}_{annee}.docx`. */
  function FileTail(month: int, year: int): string
    requires 1 <= month <= 12
  {
    "_" + (Pad2(month) + YearSuffix(year))
  }

  /** The columns the table reads (rdv_generator.py:96-98). */
  datatype TableColumns = TableColumns(date: Option<string>, reason: Option<string>, address: Option<string>)

  /** `detect_column` for "date", "raison" and "adresse", keywords that are
      their own normal form (TableColumnsDetect). */
  function ChooseColumns(columns: seq<string>): TableColumns
  {
    TableColumns(FirstMatchNormalized(columns, "date"), FirstMatchNormalized(columns, "raison"),
                 FirstMatchNormalized(columns, "adresse"))
  }

  /** `str(value)` of a cell: integers in decimal, texts as they are, an
      empty cell as "nan" and a timestamp as `yyyy-mm-dd 00:00:00`. */
  function CellText(c: Cell): string
  {
    match c
    case Num(n) => IntToString(n)
    case Txt(s) => s
    case Stamp(d) => TimestampText(d)
    case Blank => "nan"
  }

  /** The date cell: `dd/mm/yyyy` for a timestamp, "" for an empty cell; any
      other value has no `strftime`. */
  function DateText(c: Cell): (r: Result<string, ReportError>)
    ensures r.Ok? <==> c.Stamp? || c.Blank?
    ensures c.Stamp? ==> r == Ok(FormatDate(c.date)) && ParseDate(r.value) == Some(c.date)
    ensures c.Blank? ==> r == Ok("")
    ensures r.Err? ==> r.error == NotADate
  {
    match c
    case Stamp(d) =>
      FormatDateRoundTrip(d);
      Ok(FormatDate(d))
    case Blank => Ok("")
    case _ => Err(NotADate)
  }

  /** `str(row[col]) if col else ""`. */
  function OptionalText(row: Row, column: Option<string>): string
  {
    if column.Some? then CellText(CellAt(row, column.value)) else ""
  }

  /** The three cells added for one row (rdv_generator.py:113-116). */
  function RowCells(row: Row, cols: TableColumns): (r: Result<seq<string>, ReportError>)
    requires cols.date.Some?
  {
    match DateText(CellAt(row, cols.date.value))
    case Err(e) => Err(e)
    case Ok(d) => Ok([d, OptionalText(row, cols.reason), OptionalText(row, cols.address)])
  }

  /** The rows of the table, one per row of the frame in frame order; the
      first row whose date cell cannot be written stops the report. */
  function TableRows(rows: seq<Row>, cols: TableColumns): (r: Result<seq<seq<string>>, ReportError>)
    requires cols.date.Some?
    ensures r.Ok? <==> forall i :: 0 <= i < |rows| ==> RowCells(rows[i], cols).Ok?
    ensures r.Err? ==> r.error == NotADate
    ensures r.Ok? ==> |r.value| == |rows|
    ensures r.Ok? ==> forall i :: 0 <= i < |rows| ==> RowCells(rows[i], cols) == Ok(r.value[i])
    decreases |rows|
  {
    if rows == [] then Ok([])
    else
      var front := rows[..|rows| - 1];
      assert forall i :: 0 <= i < |front| ==> front[i] == rows[i];
      match TableRows(front, cols)
      case Err(e) => Err(e)
      case Ok(done) =>
        match RowCells(rows[|rows| - 1], cols)
        case Err(e) => Err(e)
        case Ok(cells) => Ok(done + [cells])
  }

  /** The body: a notice when the frame is empty (`df.empty`: no row or no
      column), otherwise the table. */
  function BodyOf(frame: Sheet): (r: Result<Body, ReportError>)
  {
    if frame.rows == [] || frame.columns == [] then Ok(NoAppointments(EmptyNotice))
    else
      var cols := ChooseColumns(frame.columns);
      if cols.date.None? then Err(NoDateColumn)
      else match TableRows(frame.rows, cols)
        case Err(e) => Err(e)
        case Ok(rows) => Ok(Appointments(Headers, rows))
  }

  /** The document `creer_rapport_rdv` builds.  `logo` says that a logo path
      was given and the file exists; `monthNames` is the table `%B` reads
      (January first). */
  function ReportSpec(frame: Sheet, commercial: string, dayFrom: int, dayTo: int, month: int, year: int,
                      outputDir: string, logo: bool, monthNames: seq<string>): Result<Document, ReportError>
    requires 1 <= month <= 12 && 1 <= year <= 9999 && |monthNames| == 12
  {
    var period := PeriodText(dayFrom, dayTo, monthNames[month - 1], year);
    match BodyOf(frame)
    case Err(e) => Err(e)
    case Ok(body) =>
      Ok(Document(logo, Title, InfoText(commercial, period), logo, RunningHeader(commercial, period),
                  Heading, body, ReportFilename(outputDir, commercial, month, year)))
  }

  /** `creer_rapport_rdv`: the cover page, the running header, the body and
      the filename.  `datetime(annee, mois, 1)` needs a real month and
      year. */
  method CreateReport(frame: Sheet, commercial: string, dayFrom: int, dayTo: int, month: int, year: int,
                      outputDir: string, logo: bool, monthNames: seq<string>)
    returns (r: Result<Document, ReportError>)
    requires 1 <= month <= 12 && 1 <= year <= 9999 && |monthNames| == 12
    ensures r == ReportSpec(frame, commercial, dayFrom, dayTo, month, year, outputDir, logo, monthNames)
  {
    var period := PeriodText(dayFrom, dayTo, monthNames[month - 1], year);
    var body := BuildBody(frame);
    if body.Err? {
      return Err(body.error);
    }
    r := Ok(Document(logo, Title, InfoText(commercial, period), logo, RunningHeader(commercial, period),
                     Heading, body.value, ReportFilename(outputDir, commercial, month, year)));
  }

  /** The "Rendez-vous" section (rdv_generator.py:92-116). */
  method BuildBody(frame: Sheet) returns (r: Result<Body, ReportError>)
    ensures r == BodyOf(frame)
  {
    if frame.rows == [] || frame.columns == [] {
      return Ok(NoAppointments(EmptyNotice));
    }
    var colDate := DetectColumn(frame.columns, "date");
    var colReason := DetectColumn(frame.columns, "raison");
    var colAddress := DetectColumn(frame.columns, "adresse");
    TableColumnsDetect(frame.columns);
    var cols := TableColumns(colDate, colReason, colAddress);
    var header := HeaderRow();
    if cols.date.None? {
      return Err(NoDateColumn);
    }
    var rows := BuildRows(frame.rows, cols);
    if rows.Err? {
      return Err(rows.error);
    }
    return Ok(Appointments(header, rows.value));
  }

  /** The header cells, filled one by one (rdv_generator.py:103-107). */
  method HeaderRow() returns (header: seq<string>)
    ensures header == Headers
  {
    header := ["", "", ""];
    for i := 0 to |Headers|
      invariant |header| == |Headers|
      invariant header[..i] == Headers[..i]
    {
      header := header[i := Headers[i]];
    }
    assert header == header[..|Headers|];
  }

  /** One table row added per row of the frame (rdv_generator.py:112-116). */
  method BuildRows(frame: seq<Row>, cols: TableColumns) returns (r: Result<seq<seq<string>>, ReportError>)
    requires cols.date.Some?
    ensures r == TableRows(frame, cols)
  {
    var rows: seq<seq<string>> := [];
    var k := 0;
    while k < |frame|
      invariant 0 <= k <= |frame|
      invariant TableRows(frame[..k], cols) == Ok(rows)
    {
      var cells := RowCells(frame[k], cols);
      assert frame[..k + 1][..k] == frame[..k];
      if cells.Err? {
        TableRowsStop(frame, k, cols);
        return Err(cells.error);
      }
      rows := rows + [cells.value];
      k := k + 1;
    }
    assert frame[..k] == frame;
    return Ok(rows);
  }

  /** A row that cannot be written makes the whole table fail. */
  lemma TableRowsStop(rows: seq<Row>, k: int, cols: TableColumns)
    requires cols.date.Some?
    requires 0 <= k < |rows| && RowCells(rows[k], cols).Err?
    ensures TableRows(rows, cols) == Err(RowCells(rows[k], cols).error)
  {
    assert RowCells(rows[k], cols).error == NotADate;
  }

  /** The three table keywords are their own normal form. */
  lemma TableKeywordIsNormal(keyword: string)
    requires keyword == "date" || keyword == "raison" || keyword == "adresse"
    ensures Normalize(keyword) == keyword
  {
    LowerLettersAreNormal(keyword);
  }

  lemma DetectTableKeyword(columns: seq<string>, keyword: string)
    requires keyword == "date" || keyword == "raison" || keyword == "adresse"
    ensures FirstMatch(columns, keyword) == FirstMatchNormalized(columns, keyword)
  {
    TableKeywordIsNormal(keyword);
  }

  /** ChooseColumns picks the columns `detect_column` returns for "date",
      "raison" and "adresse". */
  lemma TableColumnsDetect(columns: seq<string>)
    ensures ChooseColumns(columns) ==
              TableColumns(FirstMatch(columns, "date"), FirstMatch(columns, "raison"), FirstMatch(columns, "adresse"))
  {
    DetectTableKeyword(columns, "date");
    DetectTableKeyword(columns, "raison");
    DetectTableKeyword(columns, "adresse");
  }

  /** An empty frame gets the notice and no table. */
  lemma EmptyFrameHasNoTable(frame: Sheet, commercial: string, dayFrom: int, dayTo: int, month: int, year: int,
                             outputDir: string, logo: bool, monthNames: seq<string>)
    requires 1 <= month <= 12 && 1 <= year <= 9999 && |monthNames| == 12
    requires frame.rows == []
    ensures var r := ReportSpec(frame, commercial, dayFrom, dayTo, month, year, outputDir, logo, monthNames);
            r.Ok? && r.value.body == NoAppointments(EmptyNotice)
  {
  }

  /** A non-empty frame fails exactly when no column contains "date" or
      some row's date cell is neither a date nor empty. */
  lemma BodyErrors(frame: Sheet)
    requires frame.rows != [] && frame.columns != []
    ensures var cols := ChooseColumns(frame.columns);
            BodyOf(frame).Err? <==>
              cols.date.None? ||
              exists i :: 0 <= i < |frame.rows| && !(CellAt(frame.rows[i], cols.date.value).Stamp?
                                                     || CellAt(frame.rows[i], cols.date.value).Blank?)
  {
    var cols := ChooseColumns(frame.columns);
    if cols.date.Some? {
      TableRowsErrors(frame.rows, cols);
    }
  }

  /** A table fails exactly when some row's date cell is neither a
      timestamp nor empty. */
  lemma TableRowsErrors(rows: seq<Row>, cols: TableColumns)
    requires cols.date.Some?
    ensures TableRows(rows, cols).Err? <==>
              exists i :: 0 <= i < |rows| && !(CellAt(rows[i], cols.date.value).Stamp?
                                               || CellAt(rows[i], cols.date.value).Blank?)
  {
    if TableRows(rows, cols).Err? {
      var i :| 0 <= i < |rows| && RowCells(rows[i], cols).Err?;
      assert !(CellAt(rows[i], cols.date.value).Stamp? || CellAt(rows[i], cols.date.value).Blank?);
    } else {
      forall i | 0 <= i < |rows|
        ensures CellAt(rows[i], cols.date.value).Stamp? || CellAt(rows[i], cols.date.value).Blank?
      {
        assert RowCells(rows[i], cols).Ok?;
      }
    }
  }

  /** The table of a non-empty frame: the three headers, then one row of
      three cells per row of the frame, in frame order: the date as
      `dd/mm/yyyy` or "", then the reason and the address as `str()` of the
      cell, or "" when the column is absent. */
  lemma TableShape(frame: Sheet)
    requires frame.rows != [] && frame.columns != []
    requires BodyOf(frame).Ok?
    ensures var body := BodyOf(frame).value;
            var cols := ChooseColumns(frame.columns);
            && cols.date.Some?
            && body.Appointments?
            && body.header == Headers
            && |body.rows| == |frame.rows|
            && forall i :: 0 <= i < |frame.rows| ==>
                 && |body.rows[i]| == 3
                 && (CellAt(frame.rows[i], cols.date.value).Stamp? ==>
                       body.rows[i][0] == FormatDate(CellAt(frame.rows[i], cols.date.value).date))
                 && (CellAt(frame.rows[i], cols.date.value).Blank? ==> body.rows[i][0] == "")
                 && body.rows[i][1] == (if cols.reason.None? then ""
                                        else CellText(CellAt(frame.rows[i], cols.reason.value)))
                 && body.rows[i][2] == (if cols.address.None? then ""
                                        else CellText(CellAt(frame.rows[i], cols.address.value)))
  {
    var cols := ChooseColumns(frame.columns);
    var rows := TableRows(frame.rows, cols).value;
    forall i | 0 <= i < |frame.rows|
      ensures |rows[i]| == 3
      ensures CellAt(frame.rows[i], cols.date.value).Stamp? ==>
                rows[i][0] == FormatDate(CellAt(frame.rows[i], cols.date.value).date)
      ensures CellAt(frame.rows[i], cols.date.value).Blank? ==> rows[i][0] == ""
      ensures rows[i][1] == OptionalText(frame.rows[i], cols.reason)
      ensures rows[i][2] == OptionalText(frame.rows[i], cols.address)
    {
      assert RowCells(frame.rows[i], cols) == Ok(rows[i]);
    }
  }

  /** The report is written directly into `output_dir`: the part after
      `output_dir + "/"` starts with "RDV_", ends with ".docx" and holds no
      slash and no space. */
  lemma FilenameShape(outputDir: string, commercial: string, month: int, year: int)
    requires 1 <= month <= 12
    ensures var f := ReportFilename(outputDir, commercial, month, year);
            var name := f[|outputDir| + 1..];
            && |f| > |outputDir| + 1
            && f == outputDir + "/" + name
            && |name| > 9 && name[..4] == "RDV_" && name[|name| - 5..] == ".docx"
            && forall i :: 0 <= i < |name| ==> name[i] != '/' && name[i] != ' '
  {
    var sane := SanitizeFilename(commercial);
    var tail := FileTail(month, year);
    var name := "RDV_" + sane + tail;
    var f := outputDir + "/" + name;
    assert ReportFilename(outputDir, commercial, month, year) == f;
    assert f[|outputDir| + 1..] == name;
    FileTailShape(month, year);
    assert name[|name| - 5..] == tail[|tail| - 5..];
    assert name[..4] == "RDV_";
    NoSlashAppend("RDV_", sane);
    NoSlashAppend("RDV_" + sane, tail);
  }

  /** `_{mois:02d}_{annee}.docx` has at least ten characters, ends with
      ".docx" and holds no slash and no space. */
  lemma FileTailShape(month: int, year: int)
    requires 1 <= month <= 12
    ensures var tail := FileTail(month, year);
            |tail| >= 10 && tail[|tail| - 5..] == ".docx" && NoSlashNoSpace(tail)
  {
    var number := IntToString(year);
    NoSlashInNumber(year);
    NoSlashAppend("_", number);
    NoSlashAppend("_" + number, ".docx");
    assert YearSuffix(year) == "_" + number + ".docx";
    assert forall i :: 0 <= i < |Pad2(month)| ==> Pad2(month)[i] != '/' && Pad2(month)[i] != ' ';
    NoSlashAppend(Pad2(month), YearSuffix(year));
    NoSlashAppend("_", Pad2(month) + YearSuffix(year));
  }

  predicate NoSlashNoSpace(s: string)
  {
    forall i :: 0 <= i < |s| ==> s[i] != '/' && s[i] != ' '
  }

  lemma NoSlashAppend(a: string, b: string)
    requires NoSlashNoSpace(a) && NoSlashNoSpace(b)
    ensures NoSlashNoSpace(a + b)
  {
    forall i | 0 <= i < |a + b| ensures (a + b)[i] != '/' && (a + b)[i] != ' ' {
      if i >= |a| {
        assert (a + b)[i] == b[i - |a|];
      }
    }
  }

  lemma NoSlashInNumber(n: int)
    ensures forall i :: 0 <= i < |IntToString(n)| ==> IntToString(n)[i] != '/' && IntToString(n)[i] != ' '
  {
    var s := IntToString(n);
    if n < 0 {
      assert forall i :: 1 <= i < |s| ==> s[i] == NatToString(-n)[i - 1];
    }
  }

  lemma CancelPrefix(p: string, a: string, b: string)
    requires p + a == p + b
    ensures a == b
  {
    assert a == (p + a)[|p|..];
    assert b == (p + b)[|p|..];
  }

  lemma CancelSuffix(a: string, b: string, q: string)
    requires a + q == b + q
    ensures a == b
  {
    assert a == (a + q)[..|a|];
    assert b == (b + q)[..|b|];
  }

  /** Two reports of one salesperson for different periods never share a
      file: the filename determines the month and the year. */
  lemma FilenameDeterminesPeriod(outputDir: string, commercial: string, m1: int, y1: int, m2: int, y2: int)
    requires 1 <= m1 <= 12 && 1 <= m2 <= 12
    requires ReportFilename(outputDir, commercial, m1, y1) == ReportFilename(outputDir, commercial, m2, y2)
    ensures m1 == m2 && y1 == y2
  {
    var prefix := outputDir + "/RDV_" + SanitizeFilename(commercial) + "_";
    FilenameSplit(outputDir, commercial, m1, y1);
    FilenameSplit(outputDir, commercial, m2, y2);
    CancelPrefix(prefix, Pad2(m1) + YearSuffix(y1), Pad2(m2) + YearSuffix(y2));
    Pad2Cancel(m1, m2, YearSuffix(y1), YearSuffix(y2));
    CancelSuffix("_" + IntToString(y1), "_" + IntToString(y2), ".docx");
    CancelPrefix("_", IntToString(y1), IntToString(y2));
    IntToStringInjective(y1, y2);
  }

  function YearSuffix(year: int): string
  {
    "_" + IntToString(year) + ".docx"
  }

  lemma FilenameSplit(outputDir: string, commercial: string, month: int, year: int)
    requires 1 <= month <= 12
    ensures ReportFilename(outputDir, commercial, month, year)
              == (outputDir + "/RDV_" + SanitizeFilename(commercial) + "_") + (Pad2(month) + YearSuffix(year))
  {
  }

  lemma Pad2Cancel(m1: int, m2: int, a: string, b: string)
    requires 0 <= m1 < 100 && 0 <= m2 < 100
    requires Pad2(m1) + a == Pad2(m2) + b
    ensures m1 == m2 && a == b
  {
    assert Pad2(m1) == (Pad2(m1) + a)[..2];
    assert Pad2(m2) == (Pad2(m2) + b)[..2];
    Pad2Meaning(m1);
    Pad2Meaning(m2);
    CancelPrefix(Pad2(m1), a, b);
  }

  /** For one period, two salespeople get the same file, and the later
      report overwrites the earlier one, exactly when their sanitised names
      agree. */
  lemma FilenameCollision(outputDir: string, c1: string, c2: string, month: int, year: int)
    requires 1 <= month <= 12
    ensures ReportFilename(outputDir, c1, month, year) == ReportFilename(outputDir, c2, month, year)
            <==> SanitizeFilename(c1) == SanitizeFilename(c2)
  {
    var p := outputDir + "/RDV_";
    var a, b := SanitizeFilename(c1), SanitizeFilename(c2);
    if p + a + FileTail(month, year) == p + b + FileTail(month, year) {
      CancelSuffix(p + a, p + b, FileTail(month, year));
      CancelPrefix(p, a, b);
    }
  }

  /** "Jean Dupont" and "Jean_Dupont" are written to the same file. */
  lemma FilenameCollisionExample(outputDir: string, month: int, year: int, a: string, b: string)
    requires 1 <= month <= 12
    requires a == "Jean Dupont" && b == "Jean_Dupont"
    ensures ReportFilename(outputDir, a, month, year) == ReportFilename(outputDir, b, month, year)
  {
    SanitizesTo(a, b);
    SanitizesTo(b, b);
    FilenameCollision(outputDir, a, b, month, year);
  }

  lemma SanitizesTo(s: string, t: string)
    requires |t| == |s|
    requires forall i :: 0 <= i < |s| ==> t[i] == (if s[i] == ' ' then '_' else if s[i] == '/' then '-' else s[i])
    ensures SanitizeFilename(s) == t
  {
  }

  /** The report fails exactly when its body does, and otherwise carries
      that body. */
  lemma ReportBody(frame: Sheet, commercial: string, dayFrom: int, dayTo: int, month: int, year: int,
                   outputDir: string, logo: bool, monthNames: seq<string>)
    requires 1 <= month <= 12 && 1 <= year <= 9999 && |monthNames| == 12
    ensures var r := ReportSpec(frame, commercial, dayFrom, dayTo, month, year, outputDir, logo, monthNames);
            && (r.Ok? <==> BodyOf(frame).Ok?)
            && (r.Ok? ==> r.value.body == BodyOf(frame).value)
  {
  }

  /** The table of a loaded group: one row per appointment whose date cell
      is the appointment's date (annee, mois, day) as `dd/mm/yyyy`. */
  predicate DatesTabled(body: Result<Body, ReportError>, frame: Sheet, s: Schema, month: int, year: int)
  {
    && body.Ok?
    && body.value.Appointments?
    && |body.value.rows| == |frame.rows|
    && forall i :: 0 <= i < |frame.rows| ==>
         && CellAt(frame.rows[i], s.day).Num?
         && Assemblable(year, month, CellAt(frame.rows[i], s.day).n)
         && |body.value.rows[i]| == 3
         && body.value.rows[i][0] == FormatDate(AssembleDate(year, month, CellAt(frame.rows[i], s.day).n).value)
  }

  /** End to end: when the first column that contains "date" is the one the
      load wrote, the report of every group the load returns is written and
      lists each appointment with its date. */
  lemma LoadedReportDates(sheet: Sheet, s: Schema, dayFrom: int, dayTo: int, month: int, year: int,
                          gs: seq<Group>, g: int, outputDir: string, logo: bool, monthNames: seq<string>)
    requires 1 <= month <= 12 && 1 <= year <= 9999 && |monthNames| == 12
    requires ResolveSchema(sheet.columns) == Some(s)
    requires Load(sheet, dayFrom, dayTo, month, year) == Ok(gs)
    requires 0 <= g < |gs|
    requires FirstMatch(gs[g].frame.columns, "date") == Some(DateColumn)
    ensures var r := ReportSpec(gs[g].frame, gs[g].key, dayFrom, dayTo, month, year, outputDir, logo, monthNames);
            r.Ok? && DatesTabled(Ok(r.value.body), gs[g].frame, s, month, year)
  {
    LoadedRows(sheet, s, dayFrom, dayTo, month, year, gs);
    TableColumnsDetect(gs[g].frame.columns);
    GroupTableDates(gs, s, dayFrom, dayTo, month, year, g);
    ReportBody(gs[g].frame, gs[g].key, dayFrom, dayTo, month, year, outputDir, logo, monthNames);
  }

  lemma GroupTableDates(gs: seq<Group>, s: Schema, dayFrom: int, dayTo: int, month: int, year: int, g: int)
    requires LoadedGroups(gs, s, dayFrom, dayTo, month, year)
    requires 0 <= g < |gs|
    requires ChooseColumns(gs[g].frame.columns).date == Some(DateColumn)
    ensures DatesTabled(BodyOf(gs[g].frame), gs[g].frame, s, month, year)
  {
    var frame := gs[g].frame;
    assert frame.columns != [] by {
      assert DateColumn in frame.columns;
    }
    DatedRowsWritable(frame);
    TableShape(frame);
    var rows := BodyOf(frame).value.rows;
    forall i | 0 <= i < |frame.rows|
      ensures CellAt(frame.rows[i], s.day).Num?
      ensures Assemblable(year, month, CellAt(frame.rows[i], s.day).n)
      ensures rows[i][0] == FormatDate(AssembleDate(year, month, CellAt(frame.rows[i], s.day).n).value)
    {
      assert frame.rows[i] in frame.rows;
    }
  }

  /** Rows that carry a date in the `date` column give a table. */
  lemma DatedRowsWritable(frame: Sheet)
    requires frame.rows != [] && frame.columns != []
    requires ChooseColumns(frame.columns).date == Some(DateColumn)
    requires forall row :: row in frame.rows ==> CellAt(row, DateColumn).Stamp?
    ensures BodyOf(frame).Ok?
  {
    BodyErrors(frame);
    forall i | 0 <= i < |frame.rows| ensures CellAt(frame.rows[i], DateColumn).Stamp? {
      assert frame.rows[i] in frame.rows;
    }
  }
}
