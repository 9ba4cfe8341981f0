/** `load_rdv_data` (rdv_generator.py:26-52): resolve the columns, assemble
    a date for every row, keep the rows of the requested day window and
    group them by salesperson.

    The sheet arrives already parsed (`pd.read_excel` is not part of this
    model): a list of column names and a list of rows, each row a map from
    column name to cell. */
module Loader {
  import opened Wrappers
  import opened Text
  import opened Seqs
  import opened Calendar
  import opened Columns

  /** A spreadsheet cell: an integer, a text, a date (a pandas timestamp at
      midnight) or an empty cell (`NaN`/`NaT`). */
  datatype Cell = Num(n: int) | Txt(s: string) | Stamp(date: ValidDate) | Blank

  type Row = map<string, Cell>

  /** A data frame: its column names, in order, and its rows, in order. */
  datatype Sheet = Sheet(columns: seq<string>, rows: seq<Row>)

  /** One entry of the dictionary `load_rdv_data` returns: a salesperson
      value and the frame of that salesperson's rows. */
  datatype Group = Group(key: string, frame: Sheet)

  /** The exceptions the load raises: `pd.to_datetime` cannot assemble a
      row's date, or a salesperson value is not a text. */
  datatype LoadError = CannotAssembleDate | NonTextSalesperson

  /** The columns the load resolves (rdv_generator.py:28-31). */
  datatype Schema = Schema(year: string, month: string, day: string, salesperson: string)

  /** The column `df['date'] = ...` writes (rdv_generator.py:36). */
  const DateColumn := "date"

  /** `row[column]`; a column the row lacks reads as an empty cell. */
  function CellAt(row: Row, column: string): Cell
  {
    if column in row then row[column] else Blank
  }

  /** All four columns resolved, or `None` when any of them is missing
      (rdv_generator.py:28-34).  The keywords are already in normal form
      (KeywordIsNormal), so matching against them is `detect_column`
      (ResolveSchemaDetects). */
  function ResolveSchema(columns: seq<string>): Option<Schema>
  {
    var year := FirstMatchNormalized(columns, "annee");
    var month := FirstMatchNormalized(columns, "mois");
    var day := FirstMatchNormalized(columns, "jour");
    var salesperson := FirstMatchNormalized(columns, "commercial");
    if year.None? || month.None? || day.None? || salesperson.None? then None
    else Some(Schema(year.value, month.value, day.value, salesperson.value))
  }

  /** The four keywords `load_rdv_data` looks for are their own normal form. */
  lemma KeywordIsNormal(keyword: string)
    requires keyword == "annee" || keyword == "mois" || keyword == "jour" || keyword == "commercial"
    ensures Normalize(keyword) == keyword
  {
    LowerLettersAreNormal(keyword);
  }

  lemma DetectKeyword(columns: seq<string>, keyword: string)
    requires keyword == "annee" || keyword == "mois" || keyword == "jour" || keyword == "commercial"
    ensures FirstMatch(columns, keyword) == FirstMatchNormalized(columns, keyword)
  {
    KeywordIsNormal(keyword);
  }

  /** ResolveSchema finds its columns as `detect_column` does: it succeeds
      exactly when all four keywords are found, and then holds the columns
      `detect_column` returns. */
  lemma ResolveSchemaDetects(columns: seq<string>)
    ensures ResolveSchema(columns).Some? <==>
              && FirstMatch(columns, "annee").Some? && FirstMatch(columns, "mois").Some?
              && FirstMatch(columns, "jour").Some? && FirstMatch(columns, "commercial").Some?
    ensures ResolveSchema(columns).Some? ==>
              ResolveSchema(columns).value == Schema(FirstMatch(columns, "annee").value,
                                                     FirstMatch(columns, "mois").value,
                                                     FirstMatch(columns, "jour").value,
                                                     FirstMatch(columns, "commercial").value)
  {
    DetectKeyword(columns, "annee");
    DetectKeyword(columns, "mois");
    DetectKeyword(columns, "jour");
    DetectKeyword(columns, "commercial");
  }

  predicate IsNumOrBlank(c: Cell)
  {
    c.Num? || c.Blank?
  }

  /** Numbers from which `pd.to_datetime` assembles a date (AssembleDate). */
  predicate Assemblable(y: int, m: int, d: int)
  {
    AssembleDate(y, m, d).Some?
  }

  /** The date `pd.to_datetime` assembles for one row: an empty component
      gives `NaT`; a text or date component, or numbers from which no date
      is assembled, make the whole conversion fail. */
  function RowDate(row: Row, s: Schema): (r: Result<Option<ValidDate>, LoadError>)
    ensures r.Ok? && r.value.Some? <==>
              && CellAt(row, s.year).Num? && CellAt(row, s.month).Num? && CellAt(row, s.day).Num?
              && Assemblable(CellAt(row, s.year).n, CellAt(row, s.month).n, CellAt(row, s.day).n)
    ensures r.Ok? && r.value.Some? ==>
              r.value.value == AssembleDate(CellAt(row, s.year).n, CellAt(row, s.month).n, CellAt(row, s.day).n).value
    ensures r.Err? <==>
              || !IsNumOrBlank(CellAt(row, s.year)) || !IsNumOrBlank(CellAt(row, s.month))
              || !IsNumOrBlank(CellAt(row, s.day))
              || (&& CellAt(row, s.year).Num? && CellAt(row, s.month).Num? && CellAt(row, s.day).Num?
                  && !Assemblable(CellAt(row, s.year).n, CellAt(row, s.month).n, CellAt(row, s.day).n))
  {
    var y, m, d := CellAt(row, s.year), CellAt(row, s.month), CellAt(row, s.day);
    if !IsNumOrBlank(y) || !IsNumOrBlank(m) || !IsNumOrBlank(d) then Err(CannotAssembleDate)
    else if y.Blank? || m.Blank? || d.Blank? then Ok(None)
    else match AssembleDate(y.n, m.n, d.n)
      case Some(v) => Ok(Some(v))
      case None => Err(CannotAssembleDate)
  }

  /** The conversion of the whole column: it succeeds only when every row's
      date can be assembled, whatever the period asked for. */
  function AssembleDates(rows: seq<Row>, s: Schema): (r: Result<seq<Option<ValidDate>>, LoadError>)
    ensures r.Ok? <==> forall i :: 0 <= i < |rows| ==> RowDate(rows[i], s).Ok?
    ensures r.Err? ==> r.error == CannotAssembleDate
    ensures r.Ok? ==> |r.value| == |rows|
    ensures r.Ok? ==> forall i :: 0 <= i < |rows| ==> RowDate(rows[i], s) == Ok(r.value[i])
  {
    if rows == [] then Ok([])
    else match RowDate(rows[0], s)
      case Err(e) => Err(e)
      case Ok(d) =>
        match AssembleDates(rows[1..], s)
        case Err(e) =>
          assert forall i :: 1 <= i < |rows| ==> rows[i] == rows[1..][i - 1];
          Err(e)
        case Ok(ds) =>
          assert forall i :: 1 <= i < |rows| ==> rows[i] == rows[1..][i - 1];
          Ok([d] + ds)
  }

  function DateCell(d: Option<ValidDate>): Cell
  {
    if d.Some? then Stamp(d.value) else Blank
  }

  /** The frame after `df['date'] = ...`: the column is appended (or
      overwritten where it exists) and holds each row's assembled date. */
  function WithDateColumn(sheet: Sheet, dates: seq<Option<ValidDate>>): (r: Sheet)
    requires |dates| == |sheet.rows|
    ensures DateColumn in r.columns
    ensures r.columns == if DateColumn in sheet.columns then sheet.columns
                         else sheet.columns + [DateColumn]
    ensures |r.rows| == |sheet.rows|
    ensures forall i :: 0 <= i < |r.rows| ==> CellAt(r.rows[i], DateColumn) == DateCell(dates[i])
    ensures forall i, c :: 0 <= i < |r.rows| && c != DateColumn ==>
              CellAt(r.rows[i], c) == CellAt(sheet.rows[i], c)
  {
    Sheet(if DateColumn in sheet.columns then sheet.columns else sheet.columns + [DateColumn],
          seq(|sheet.rows|, i requires 0 <= i < |sheet.rows| => sheet.rows[i][DateColumn := DateCell(dates[i])]))
  }

  /** The frame with its date column, or the conversion's failure. */
  function Dated(sheet: Sheet, s: Schema): (r: Result<Sheet, LoadError>)
  {
    match AssembleDates(sheet.rows, s)
    case Err(e) => Err(e)
    case Ok(dates) => Ok(WithDateColumn(sheet, dates))
  }

  /** The mask of rdv_generator.py:42-47.  An empty cell compares false. */
  predicate InWindow(row: Row, s: Schema, dayFrom: int, dayTo: int, month: int, year: int)
  {
    && CellAt(row, s.year) == Num(year)
    && CellAt(row, s.month) == Num(month)
    && CellAt(row, s.day).Num? && dayFrom <= CellAt(row, s.day).n <= dayTo
  }

  /** `df_filtre`: the rows of the window, in their original order. */
  function Window(rows: seq<Row>, s: Schema, dayFrom: int, dayTo: int, month: int, year: int): seq<Row>
  {
    Filter(rows, row => InWindow(row, s, dayFrom, dayTo, month, year))
  }

  /** The rows whose salesperson cell is the text `key`, in order. */
  function RowsWithKey(rows: seq<Row>, column: string, key: string): seq<Row>
  {
    Filter(rows, row => CellAt(row, column) == Txt(key))
  }

  /** A sequence of texts in strictly increasing order (hence distinct). */
  predicate StrictlySorted(keys: seq<string>)
  {
    forall i, j :: 0 <= i < j < |keys| ==> StrLess(keys[i], keys[j])
  }

  /** Inserts a key into a strictly sorted sequence of keys. */
  function InsertKey(keys: seq<string>, key: string): (r: seq<string>)
    requires StrictlySorted(keys)
    ensures StrictlySorted(r)
    ensures forall k :: k in r <==> k in keys || k == key
  {
    if keys == [] then [key]
    else if key == keys[0] then keys
    else if StrLess(key, keys[0]) then
      assert forall j :: 0 <= j < |keys| ==> StrLess(key, keys[j]) by {
        forall j | 0 <= j < |keys| ensures StrLess(key, keys[j]) {
          if j > 0 { StrLessTransitive(key, keys[0], keys[j]); }
        }
      }
      [key] + keys
    else
      var rest := InsertKey(keys[1..], key);
      StrLessTotal(key, keys[0]);
      assert forall j :: 0 <= j < |rest| ==> StrLess(keys[0], rest[j]) by {
        forall j | 0 <= j < |rest| ensures StrLess(keys[0], rest[j]) {
          assert rest[j] in rest;
          if rest[j] != key {
            var m :| 0 <= m < |keys[1..]| && keys[1..][m] == rest[j];
            assert keys[m + 1] == rest[j];
          }
        }
      }
      [keys[0]] + rest
  }

  /** The distinct text salesperson values of the rows, sorted as `groupby`
      sorts its keys. */
  function SortedKeys(rows: seq<Row>, column: string): (r: seq<string>)
    ensures StrictlySorted(r)
    ensures forall k :: k in r <==> exists i :: 0 <= i < |rows| && CellAt(rows[i], column) == Txt(k)
  {
    if rows == [] then []
    else
      var rest := SortedKeys(rows[1..], column);
      assert forall i :: 1 <= i < |rows| ==> rows[i] == rows[1..][i - 1];
      match CellAt(rows[0], column)
      case Txt(k) => InsertKey(rest, k)
      case _ => rest
  }

  predicate IsTextOrBlank(c: Cell)
  {
    c.Txt? || c.Blank?
  }

  /** `dict(tuple(df_filtre.groupby(col_com)))`: one group per distinct text
      value, keys in sorted order, rows with an empty salesperson cell left
      out (`dropna`). */
  function GroupBy(columns: seq<string>, rows: seq<Row>, column: string): (r: Result<seq<Group>, LoadError>)
  {
    if exists i :: 0 <= i < |rows| && !IsTextOrBlank(CellAt(rows[i], column)) then Err(NonTextSalesperson)
    else
      var keys := SortedKeys(rows, column);
      Ok(seq(|keys|, i requires 0 <= i < |keys| => Group(keys[i], Sheet(columns, RowsWithKey(rows, column, keys[i])))))
  }

  /** `load_rdv_data(path, jour_debut, jour_fin, mois, annee)` on an already
      parsed sheet. */
  function Load(sheet: Sheet, dayFrom: int, dayTo: int, month: int, year: int): (r: Result<seq<Group>, LoadError>)
  {
    match ResolveSchema(sheet.columns)
    case None => Ok([])
    case Some(s) => LoadResolved(sheet, s, dayFrom, dayTo, month, year)
  }

  /** The load once its four columns are resolved (rdv_generator.py:36-52). */
  function LoadResolved(sheet: Sheet, s: Schema, dayFrom: int, dayTo: int, month: int, year: int)
    : (r: Result<seq<Group>, LoadError>)
  {
    match Dated(sheet, s)
    case Err(e) => Err(e)
    case Ok(frame) =>
      var kept := Window(frame.rows, s, dayFrom, dayTo, month, year);
      if kept == [] then Ok([]) else GroupBy(frame.columns, kept, s.salesperson)
  }

  /** A missing year, month, day or salesperson column gives the empty
      result, not an error (rdv_generator.py:33-34). */
  lemma LoadMissingColumn(sheet: Sheet, dayFrom: int, dayTo: int, month: int, year: int)
    requires || FirstMatch(sheet.columns, "annee").None? || FirstMatch(sheet.columns, "mois").None?
             || FirstMatch(sheet.columns, "jour").None? || FirstMatch(sheet.columns, "commercial").None?
    ensures Load(sheet, dayFrom, dayTo, month, year) == Ok([])
  {
    ResolveSchemaDetects(sheet.columns);
  }

  /** One row whose numbers assemble to no date makes the whole load fail, even when that row lies outside the
      requested window. */
  lemma LoadRejectsInvalidDate(sheet: Sheet, dayFrom: int, dayTo: int, month: int, year: int,
                               s: Schema, i: int, y: int, m: int, d: int)
    requires ResolveSchema(sheet.columns) == Some(s)
    requires 0 <= i < |sheet.rows|
    requires CellAt(sheet.rows[i], s.year) == Num(y)
    requires CellAt(sheet.rows[i], s.month) == Num(m)
    requires CellAt(sheet.rows[i], s.day) == Num(d)
    requires !Assemblable(y, m, d)
    ensures Load(sheet, dayFrom, dayTo, month, year) == Err(CannotAssembleDate)
  {
    LoadIsResolved(sheet, s, dayFrom, dayTo, month, year);
    RejectsInvalidDate(sheet, dayFrom, dayTo, month, year, s, i);
  }

  lemma RejectsInvalidDate(sheet: Sheet, dayFrom: int, dayTo: int, month: int, year: int, s: Schema, i: int)
    requires 0 <= i < |sheet.rows|
    requires RowDate(sheet.rows[i], s).Err?
    ensures LoadResolved(sheet, s, dayFrom, dayTo, month, year) == Err(CannotAssembleDate)
  {
  }

  /** Once the columns are resolved, the load fails only for a row whose
      date cannot be assembled or for a kept row whose salesperson is
      neither a text nor empty. */
  lemma LoadResolvedErrors(sheet: Sheet, s: Schema, dayFrom: int, dayTo: int, month: int, year: int)
    requires LoadResolved(sheet, s, dayFrom, dayTo, month, year).Err?
    ensures || (exists i :: 0 <= i < |sheet.rows| && RowDate(sheet.rows[i], s).Err?)
            || (&& Dated(sheet, s).Ok?
                && exists row :: row in Window(Dated(sheet, s).value.rows, s, dayFrom, dayTo, month, year)
                                 && !IsTextOrBlank(CellAt(row, s.salesperson)))
  {
    if Dated(sheet, s).Ok? {
      var frame := Dated(sheet, s).value;
      var kept := Window(frame.rows, s, dayFrom, dayTo, month, year);
      var i :| 0 <= i < |kept| && !IsTextOrBlank(CellAt(kept[i], s.salesperson));
      assert kept[i] in kept;
    }
  }

  /** The load fails only when all four columns were found, and then only
      for the reasons of LoadResolvedErrors. */
  lemma LoadErrors(sheet: Sheet, dayFrom: int, dayTo: int, month: int, year: int)
    requires Load(sheet, dayFrom, dayTo, month, year).Err?
    ensures ResolveSchema(sheet.columns).Some?
    ensures LoadResolved(sheet, ResolveSchema(sheet.columns).value, dayFrom, dayTo, month, year).Err?
  {
  }

  /** With `jour_debut > jour_fin` no row is kept, so once the columns are
      resolved the result is empty unless some row's date cannot be
      assembled. */
  lemma LoadResolvedEmptyWindow(sheet: Sheet, s: Schema, dayFrom: int, dayTo: int, month: int, year: int)
    requires dayFrom > dayTo
    ensures LoadResolved(sheet, s, dayFrom, dayTo, month, year) in {Ok([]), Err(CannotAssembleDate)}
  {
    match Dated(sheet, s)
    case Err(e) =>
    case Ok(frame) =>
      var kept := Window(frame.rows, s, dayFrom, dayTo, month, year);
      if kept != [] {
        assert false;
      }
  }

  /** With `jour_debut > jour_fin` the result is empty, or the load fails
      because some row's date cannot be assembled. */
  lemma LoadEmptyWindow(sheet: Sheet, dayFrom: int, dayTo: int, month: int, year: int)
    requires dayFrom > dayTo
    ensures Load(sheet, dayFrom, dayTo, month, year) in {Ok([]), Err(CannotAssembleDate)}
  {
    if ResolveSchema(sheet.columns).Some? {
      LoadResolvedEmptyWindow(sheet, ResolveSchema(sheet.columns).value, dayFrom, dayTo, month, year);
    }
  }

  /** "date" contains none of the keywords "annee", "mois" and "jour". */
  lemma DateColumnIsNoDatePart(column: string, keyword: string)
    requires column == "date"
    requires keyword == "annee" || keyword == "mois" || keyword == "jour"
    ensures !MatchesNormalized(column, keyword)
  {
    NormalizesTo(column, column);
    ShortNeverContains(Normalize(column), keyword);
  }

  /** The year, month and day columns are never the `date` column the load
      writes, so writing it leaves them alone. */
  lemma SchemaAvoidsDateColumn(columns: seq<string>, s: Schema)
    requires ResolveSchema(columns) == Some(s)
    ensures s.year != DateColumn && s.month != DateColumn && s.day != DateColumn
  {
    if s.year == DateColumn {
      DateColumnIsNoDatePart(s.year, "annee");
    }
    if s.month == DateColumn {
      DateColumnIsNoDatePart(s.month, "mois");
    }
    if s.day == DateColumn {
      DateColumnIsNoDatePart(s.day, "jour");
    }
  }

  /** Every kept row satisfies the mask, and every row of the frame that
      satisfies it is kept. */
  lemma WindowMembers(rows: seq<Row>, s: Schema, dayFrom: int, dayTo: int, month: int, year: int)
    ensures var kept := Window(rows, s, dayFrom, dayTo, month, year);
            && IsSubsequence(kept, rows)
            && (forall row :: row in kept <==> row in rows && InWindow(row, s, dayFrom, dayTo, month, year))
  {
    var kept := Window(rows, s, dayFrom, dayTo, month, year);
    forall row | row in rows && InWindow(row, s, dayFrom, dayTo, month, year)
      ensures row in kept
    {
      var i :| 0 <= i < |rows| && rows[i] == row;
    }
    forall row | row in kept
      ensures row in rows && InWindow(row, s, dayFrom, dayTo, month, year)
    {
      var k :| 0 <= k < |kept| && kept[k] == row;
    }
  }

  /** A row of the dated frame that satisfies the mask carries the date
      (annee, mois, day) in its `date` column, provided the year, month and
      day columns are not that column. */
  lemma WindowRowDate(sheet: Sheet, s: Schema, frame: Sheet, i: int,
                      dayFrom: int, dayTo: int, month: int, year: int)
    requires s.year != DateColumn && s.month != DateColumn && s.day != DateColumn
    requires Dated(sheet, s) == Ok(frame)
    requires 0 <= i < |frame.rows|
    requires InWindow(frame.rows[i], s, dayFrom, dayTo, month, year)
    ensures Assemblable(year, month, CellAt(frame.rows[i], s.day).n)
    ensures CellAt(frame.rows[i], DateColumn) == Stamp(AssembleDate(year, month, CellAt(frame.rows[i], s.day).n).value)
  {
    var dates := AssembleDates(sheet.rows, s).value;
    assert RowDate(sheet.rows[i], s) == Ok(dates[i]);
    assert CellAt(sheet.rows[i], s.year) == Num(year);
    assert CellAt(sheet.rows[i], s.month) == Num(month);
    assert CellAt(sheet.rows[i], s.day) == CellAt(frame.rows[i], s.day);
  }

  /** The rows the load keeps are exactly the rows of the frame with
      year = annee, month = mois and jour_debut <= day <= jour_fin, in
      order; each carries its assembled date (annee, mois, day). */
  lemma WindowRows(sheet: Sheet, s: Schema, frame: Sheet,
                   dayFrom: int, dayTo: int, month: int, year: int)
    requires ResolveSchema(sheet.columns) == Some(s)
    requires Dated(sheet, s) == Ok(frame)
    ensures var kept := Window(frame.rows, s, dayFrom, dayTo, month, year);
            && IsSubsequence(kept, frame.rows)
            && (forall row :: row in kept <==> row in frame.rows && InWindow(row, s, dayFrom, dayTo, month, year))
            && (forall row :: row in kept ==>
                  && Assemblable(year, month, CellAt(row, s.day).n)
                  && CellAt(row, DateColumn) == Stamp(AssembleDate(year, month, CellAt(row, s.day).n).value))
  {
    var kept := Window(frame.rows, s, dayFrom, dayTo, month, year);
    SchemaAvoidsDateColumn(sheet.columns, s);
    WindowMembers(frame.rows, s, dayFrom, dayTo, month, year);
    forall row | row in kept
      ensures Assemblable(year, month, CellAt(row, s.day).n)
      ensures CellAt(row, DateColumn) == Stamp(AssembleDate(year, month, CellAt(row, s.day).n).value)
    {
      var i :| 0 <= i < |frame.rows| && frame.rows[i] == row;
      WindowRowDate(sheet, s, frame, i, dayFrom, dayTo, month, year);
    }
  }

  lemma GroupByShape(columns: seq<string>, rows: seq<Row>, column: string, gs: seq<Group>)
    requires GroupBy(columns, rows, column) == Ok(gs)
    ensures var keys := SortedKeys(rows, column);
            && |gs| == |keys|
            && forall g :: 0 <= g < |gs| ==>
                 gs[g].key == keys[g] && gs[g].frame == Sheet(columns, RowsWithKey(rows, column, keys[g]))
    ensures forall i :: 0 <= i < |rows| ==> IsTextOrBlank(CellAt(rows[i], column))
  {
  }

  lemma GroupsNonEmpty(columns: seq<string>, rows: seq<Row>, column: string, gs: seq<Group>)
    requires GroupBy(columns, rows, column) == Ok(gs)
    ensures forall g :: 0 <= g < |gs| ==> gs[g].frame.rows != []
  {
    GroupByShape(columns, rows, column, gs);
    var keys := SortedKeys(rows, column);
    forall g | 0 <= g < |gs| ensures gs[g].frame.rows != [] {
      assert keys[g] in keys;
      var i :| 0 <= i < |rows| && CellAt(rows[i], column) == Txt(keys[g]);
      assert rows[i] in RowsWithKey(rows, column, keys[g]);
    }
  }

  lemma GroupRowsMatchKey(columns: seq<string>, rows: seq<Row>, column: string, gs: seq<Group>)
    requires GroupBy(columns, rows, column) == Ok(gs)
    ensures forall g, row :: 0 <= g < |gs| && row in gs[g].frame.rows ==>
              row in rows && CellAt(row, column) == Txt(gs[g].key)
  {
    GroupByShape(columns, rows, column, gs);
    forall g, row | 0 <= g < |gs| && row in gs[g].frame.rows
      ensures row in rows && CellAt(row, column) == Txt(gs[g].key)
    {
      var k :| 0 <= k < |gs[g].frame.rows| && gs[g].frame.rows[k] == row;
    }
  }

  lemma EveryRowGrouped(columns: seq<string>, rows: seq<Row>, column: string, gs: seq<Group>)
    requires GroupBy(columns, rows, column) == Ok(gs)
    ensures forall i :: 0 <= i < |rows| && CellAt(rows[i], column).Txt? ==>
              exists g :: 0 <= g < |gs| && gs[g].key == CellAt(rows[i], column).s && rows[i] in gs[g].frame.rows
  {
    GroupByShape(columns, rows, column, gs);
    var keys := SortedKeys(rows, column);
    forall i | 0 <= i < |rows| && CellAt(rows[i], column).Txt?
      ensures exists g :: 0 <= g < |gs| && gs[g].key == CellAt(rows[i], column).s && rows[i] in gs[g].frame.rows
    {
      var k := CellAt(rows[i], column).s;
      assert k in keys;
      var g :| 0 <= g < |keys| && keys[g] == k;
      assert rows[i] in RowsWithKey(rows, column, k);
      assert gs[g].key == k && rows[i] in gs[g].frame.rows;
    }
  }

  /** The groups partition the kept rows that have a text salesperson:
      keys are sorted and distinct, every group is non-empty and holds, in
      their original order, exactly the kept rows whose salesperson is its
      key.  Rows with an empty salesperson belong to no group. */
  lemma GroupByPartition(columns: seq<string>, rows: seq<Row>, column: string, gs: seq<Group>)
    requires GroupBy(columns, rows, column) == Ok(gs)
    ensures forall i, j :: 0 <= i < j < |gs| ==> StrLess(gs[i].key, gs[j].key)
    ensures forall g :: 0 <= g < |gs| ==>
              && gs[g].frame.columns == columns
              && gs[g].frame.rows == RowsWithKey(rows, column, gs[g].key)
              && gs[g].frame.rows != []
              && IsSubsequence(gs[g].frame.rows, rows)
    ensures forall g, row :: 0 <= g < |gs| && row in gs[g].frame.rows ==>
              row in rows && CellAt(row, column) == Txt(gs[g].key)
    ensures forall i :: 0 <= i < |rows| && CellAt(rows[i], column).Txt? ==>
              exists g :: 0 <= g < |gs| && gs[g].key == CellAt(rows[i], column).s && rows[i] in gs[g].frame.rows
    ensures forall i :: 0 <= i < |rows| ==> IsTextOrBlank(CellAt(rows[i], column))
  {
    GroupByShape(columns, rows, column, gs);
    GroupsNonEmpty(columns, rows, column, gs);
    GroupRowsMatchKey(columns, rows, column, gs);
    EveryRowGrouped(columns, rows, column, gs);
  }

  /** What a successful load hands on: every group's frame has the `date`
      column and at least one row, and every row of a group lies in the
      window, has the group's key as its salesperson and carries its
      assembled date. */
  predicate LoadedGroups(gs: seq<Group>, s: Schema, dayFrom: int, dayTo: int, month: int, year: int)
  {
    && (forall g :: 0 <= g < |gs| ==> DateColumn in gs[g].frame.columns && gs[g].frame.rows != [])
    && (forall g, row :: 0 <= g < |gs| && row in gs[g].frame.rows ==>
          && InWindow(row, s, dayFrom, dayTo, month, year)
          && CellAt(row, s.salesperson) == Txt(gs[g].key)
          && Assemblable(year, month, CellAt(row, s.day).n)
          && CellAt(row, DateColumn) == Stamp(AssembleDate(year, month, CellAt(row, s.day).n).value))
  }

  /** With the widgets' ranges (a day window inside 1..31, a real month, a
      four-digit year) no part carries: every loaded row's `date` cell is
      the date (annee, mois, day) itself. */
  lemma LoadedDatesAreRowDates(gs: seq<Group>, s: Schema, dayFrom: int, dayTo: int, month: int, year: int)
    requires LoadedGroups(gs, s, dayFrom, dayTo, month, year)
    requires 1 <= dayFrom && dayTo <= 31 && 1 <= month <= 12 && 1000 <= year <= 9999
    ensures forall g, row :: 0 <= g < |gs| && row in gs[g].frame.rows ==>
              && IsValidDate(year, month, CellAt(row, s.day).n)
              && CellAt(row, DateColumn) == Stamp(Date(year, month, CellAt(row, s.day).n))
  {
    forall g, row | 0 <= g < |gs| && row in gs[g].frame.rows
      ensures IsValidDate(year, month, CellAt(row, s.day).n)
      ensures CellAt(row, DateColumn) == Stamp(Date(year, month, CellAt(row, s.day).n))
    {
      AssembleDateInRange(year, month, CellAt(row, s.day).n);
    }
  }

  lemma LoadedRows(sheet: Sheet, s: Schema, dayFrom: int, dayTo: int, month: int, year: int, gs: seq<Group>)
    requires ResolveSchema(sheet.columns) == Some(s)
    requires Load(sheet, dayFrom, dayTo, month, year) == Ok(gs)
    ensures LoadedGroups(gs, s, dayFrom, dayTo, month, year)
  {
    LoadIsResolved(sheet, s, dayFrom, dayTo, month, year);
    LoadedRowsResolved(sheet, s, dayFrom, dayTo, month, year, gs);
  }

  lemma LoadIsResolved(sheet: Sheet, s: Schema, dayFrom: int, dayTo: int, month: int, year: int)
    requires ResolveSchema(sheet.columns) == Some(s)
    ensures Load(sheet, dayFrom, dayTo, month, year) == LoadResolved(sheet, s, dayFrom, dayTo, month, year)
  {
  }

  lemma LoadedRowsResolved(sheet: Sheet, s: Schema, dayFrom: int, dayTo: int, month: int, year: int, gs: seq<Group>)
    requires ResolveSchema(sheet.columns) == Some(s)
    requires LoadResolved(sheet, s, dayFrom, dayTo, month, year) == Ok(gs)
    ensures LoadedGroups(gs, s, dayFrom, dayTo, month, year)
  {
    var frame := Dated(sheet, s).value;
    var kept := Window(frame.rows, s, dayFrom, dayTo, month, year);
    if kept != [] {
      WindowRows(sheet, s, frame, dayFrom, dayTo, month, year);
      GroupByPartition(frame.columns, kept, s.salesperson, gs);
    }
  }
}
