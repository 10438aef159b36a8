/** The production spreadsheet parser, from the rows the spreadsheet
    library returns onward: find the header row among the first ten rows,
    take the column positions from it, then turn every row after it that
    has a patient and a date into a production record. A cell is a string;
    the empty string stands for a missing or empty cell. `Number` is a
    parameter. */
module ProductionParser {
  import opened Types
  import opened Text
  import opened Normalizers
  import opened Classifiers
  import opened Periods

  /** One production row. */
  datatype ParsedProductionRecord = ParsedProductionRecord(
    rowNumber: Option<real>,
    serviceDate: string,
    patientName: string,
    patientNameNormalized: string,
    convenioOriginal: string,
    convenioNormalized: string,
    procedureOriginal: string,
    categories: seq<ProcedureCategory>,
    generatesRepasse: bool)

  datatype ProductionParseResult = ProductionParseResult(
    records: seq<ParsedProductionRecord>,
    totalRows: nat,
    skippedRows: nat,
    periodStart: Option<string>,
    periodEnd: Option<string>)

  /** Where each field is read from. */
  datatype Columns = Columns(numero: nat, data: nat, paciente: nat, plano: nat, tipo: nat)

  /** The positions used when no header row is found. */
  const DefaultColumns := Columns(0, 1, 2, 3, 4)

  /** How many leading rows are searched for the header. */
  const HeaderSearchRows: nat := 10

  /** The first data row when no header row is found. */
  const DefaultStartRow: nat := 3

  // ---------------------------------------------------------------------
  // Header detection

  /** `Array.prototype.findIndex`: the first position whose element passes
      `p`, or `None` (the source's -1). */
  function FindIndex(hs: seq<string>, p: string -> bool): (r: Option<nat>)
    ensures r.Some? ==> r.value < |hs|
  {
    FindFrom(hs, p, 0)
  }

  /** The search of `FindIndex` from position `i` on. */
  function FindFrom(hs: seq<string>, p: string -> bool, i: nat): (r: Option<nat>)
    requires i <= |hs|
    ensures r.Some? ==> i <= r.value < |hs|
    decreases |hs| - i
  {
    if i == |hs| then None
    else if p(hs[i]) then Some(i)
    else FindFrom(hs, p, i + 1)
  }

  /** The search from `i` finds the first passing position at or after
      `i`, and finds nothing only when no position from `i` on passes. */
  lemma {:induction false} FindFromFirst(hs: seq<string>, p: string -> bool, i: nat)
    requires i <= |hs|
    ensures var r := FindFrom(hs, p, i);
      && (r.Some? ==> p(hs[r.value]) && forall j :: i <= j < r.value ==> !p(hs[j]))
      && (r.None? ==> forall j :: i <= j < |hs| ==> !p(hs[j]))
    decreases |hs| - i
  {
    if i < |hs| && !p(hs[i]) {
      FindFromFirst(hs, p, i + 1);
    }
  }

  /** `FindIndex` gives the first passing position, and nothing only when
      no position passes. */
  lemma FindIndexFirst(hs: seq<string>, p: string -> bool)
    ensures var r := FindIndex(hs, p);
      && (r.Some? ==> p(hs[r.value]) && forall j :: 0 <= j < r.value ==> !p(hs[j]))
      && (r.None? ==> forall j :: 0 <= j < |hs| ==> !p(hs[j]))
  {
    FindFromFirst(hs, p, 0);
  }

  /** A header cell as it is compared: upper-cased, then trimmed. */
  function HeaderCell(c: string): string {
    Trim(Upper(c))
  }

  function HeaderCells(row: seq<string>): seq<string> {
    MapSeq(HeaderCell, row)
  }

  const PatientWords: seq<string> := ["PACIENTE", "NOME"]
  const DateWords: seq<string> := ["DATA"]
  const PlanWords: seq<string> := ["PLANO", "CONVENIO"]
  const TypeWords: seq<string> := ["TIPO"]

  predicate IsPatientHeader(h: string) { ContainsAny(h, PatientWords) }
  predicate IsDateHeader(h: string) { h == "DATA" || ContainsAny(h, DateWords) }
  predicate IsPlanHeader(h: string) { ContainsAny(h, PlanWords) }
  predicate IsTypeHeader(h: string) { h == "TIPO" || ContainsAny(h, TypeWords) }
  predicate IsNumberHeader(h: string) { h == "NUMERO" || h == "NUM" || h == "#" }

  /** `found >= 0 ? found : fallback`. */
  function OrElse(found: Option<nat>, fallback: nat): nat {
    if found.Some? then found.value else fallback
  }

  /** The column positions a row gives when it names the patient column;
      `None` when it does not (it is then no header row). */
  function HeaderColumns(row: seq<string>): Option<Columns> {
    var hs := HeaderCells(row);
    match FindIndex(hs, IsPatientHeader)
    case None => None
    case Some(paciente) =>
      Some(Columns(
        OrElse(FindIndex(hs, IsNumberHeader), 0),
        OrElse(FindIndex(hs, IsDateHeader), 1),
        paciente,
        OrElse(FindIndex(hs, IsPlanHeader), 3),
        OrElse(FindIndex(hs, IsTypeHeader), 4)))
  }

  /** A row is a header row exactly when some cell names the patient
      column, and the patient column is the first such cell. */
  lemma HeaderColumnsPatient(row: seq<string>)
    ensures var r := HeaderColumns(row);
      && (r.Some? <==> exists j :: 0 <= j < |row| && IsPatientHeader(HeaderCell(row[j])))
      && (r.Some? ==> var k := r.value.paciente;
            && k < |row| && IsPatientHeader(HeaderCell(row[k]))
            && forall j :: 0 <= j < k ==> !IsPatientHeader(HeaderCell(row[j])))
  {
    FindIndexFirst(HeaderCells(row), IsPatientHeader);
  }

  /** Where the header row is and the column positions it gives. */
  datatype Header = Header(row: nat, cols: Columns)

  /** Rows searched for the header: `Math.min(10, rows.length)`. */
  function SearchLimit(rows: seq<seq<string>>): nat {
    if |rows| < HeaderSearchRows then |rows| else HeaderSearchRows
  }

  /** The first header row at or after `i` among the searched rows, with
      `columnsOf` telling a header row (and its positions) from any other
      row; the parser passes `HeaderColumns`. */
  function HeaderFrom(rows: seq<seq<string>>, i: nat, columnsOf: seq<string> -> Option<Columns>): (h: Option<Header>)
    requires i <= SearchLimit(rows)
    ensures h.Some? ==> i <= h.value.row < SearchLimit(rows)
    decreases SearchLimit(rows) - i
  {
    if i == SearchLimit(rows) then None
    else match columnsOf(rows[i])
      case Some(cols) => Some(Header(i, cols))
      case None => HeaderFrom(rows, i + 1, columnsOf)
  }

  /** The search from `i` finds the first header row at or after `i`, with
      the positions that row gives, and finds nothing only when no
      searched row from `i` on is one. */
  lemma {:induction false} HeaderFromFirst(rows: seq<seq<string>>, i: nat, columnsOf: seq<string> -> Option<Columns>)
    requires i <= SearchLimit(rows)
    ensures var h := HeaderFrom(rows, i, columnsOf);
      && (h.Some? ==>
            columnsOf(rows[h.value.row]) == Some(h.value.cols)
            && forall j :: i <= j < h.value.row ==> columnsOf(rows[j]).None?)
      && (h.None? ==> forall j :: i <= j < SearchLimit(rows) ==> columnsOf(rows[j]).None?)
    decreases SearchLimit(rows) - i
  {
    if i < SearchLimit(rows) && columnsOf(rows[i]).None? {
      HeaderFromFirst(rows, i + 1, columnsOf);
    }
  }

  /** The header row, if any of the first ten rows is one. */
  function HeaderRow(rows: seq<seq<string>>): Option<Header> {
    HeaderFrom(rows, 0, HeaderColumns)
  }

  /** The header search loop: the first of the first ten rows that names
      a patient column, and the positions it gives; -1 and the defaults
      when there is none. */
  method FindHeader(rows: seq<seq<string>>) returns (headerRow: int, cols: Columns)
    ensures HeaderRow(rows).None? ==> headerRow == -1 && cols == DefaultColumns
    ensures HeaderRow(rows).Some? ==> headerRow == HeaderRow(rows).value.row && cols == HeaderRow(rows).value.cols
  {
    headerRow, cols := -1, DefaultColumns;
    var i := 0;
    while i < SearchLimit(rows)
      invariant i <= SearchLimit(rows)
      invariant HeaderRow(rows) == HeaderFrom(rows, i, HeaderColumns)
    {
      var headers := HeaderCells(rows[i]);
      var pacienteIdx := FindIndex(headers, IsPatientHeader);
      if pacienteIdx.Some? {
        headerRow := i;
        cols := Columns(
          OrElse(FindIndex(headers, IsNumberHeader), 0),
          OrElse(FindIndex(headers, IsDateHeader), 1),
          pacienteIdx.value,
          OrElse(FindIndex(headers, IsPlanHeader), 3),
          OrElse(FindIndex(headers, IsTypeHeader), 4));
        break;
      }
      i := i + 1;
    }
  }

  /** The header row is the first searched row that names a patient
      column, and the columns are the positions it gives; there is no
      header exactly when no searched row names one. */
  lemma HeaderRowFirst(rows: seq<seq<string>>)
    ensures var h := HeaderRow(rows);
      && (h.Some? <==> exists j :: 0 <= j < SearchLimit(rows) && HeaderColumns(rows[j]).Some?)
      && (h.Some? ==>
            h.value.row < HeaderSearchRows && HeaderColumns(rows[h.value.row]) == Some(h.value.cols)
            && forall j :: 0 <= j < h.value.row ==> HeaderColumns(rows[j]).None?)
  {
    HeaderFromFirst(rows, 0, HeaderColumns);
  }

  // ---------------------------------------------------------------------
  // Rows and records

  /** `!paciente || !data`: the raw patient or date cell is empty. A cell
      of white space only is not empty here. */
  predicate Skipped(cols: Columns, row: seq<string>) {
    CellAt(row, cols.paciente) == "" || CellAt(row, cols.data) == ""
  }

  /** The record built from a row that is not skipped. */
  function RecordOf(cols: Columns, row: seq<string>, toNumber: string -> real): (r: ParsedProductionRecord)
    ensures r.serviceDate == NormalizeDate(CellAt(row, cols.data))
    ensures r.rowNumber.None? <==> CellAt(row, cols.numero) == ""
    ensures IsExcludedConvenio(r.convenioOriginal) ==> !r.generatesRepasse
  {
    var patientName := Field(row, cols.paciente);
    var plano := Field(row, cols.plano);
    var tipo := Field(row, cols.tipo);
    var categories := ProcedureCategories(tipo);
    var numero := CellAt(row, cols.numero);
    ParsedProductionRecord(
      if numero != "" then Some(toNumber(numero)) else None,
      NormalizeDate(CellAt(row, cols.data)),
      patientName,
      NormalizePatientName(patientName),
      plano,
      NormalizeConvenio(plano),
      tipo,
      categories,
      !IsExcludedConvenio(plano) && !AllProceduresNonBillable(categories))
  }

  /** The conversion of a kept row, as a function value. */
  function RowRecord(cols: Columns, toNumber: string -> real): seq<string> -> ParsedProductionRecord {
    row => RecordOf(cols, row, toNumber)
  }

  // ---------------------------------------------------------------------
  // The parse as a function of the rows

  /** The rows that are kept, in order. */
  function KeptRows(cols: Columns, data: seq<seq<string>>): seq<seq<string>> {
    if data == [] then []
    else
      var row := data[|data| - 1];
      KeptRows(cols, data[..|data| - 1]) + (if Skipped(cols, row) then [] else [row])
  }

  /** The number of rows that are skipped. */
  function SkippedCount(cols: Columns, data: seq<seq<string>>): nat {
    if data == [] then 0
    else SkippedCount(cols, data[..|data| - 1]) + (if Skipped(cols, data[|data| - 1]) then 1 else 0)
  }

  /** The service dates of some records, in order. */
  function ServiceDates(records: seq<ParsedProductionRecord>): (ds: seq<string>)
    ensures |ds| == |records| && forall i :: 0 <= i < |records| ==> ds[i] == records[i].serviceDate
  {
    if records == [] then [] else ServiceDates(records[..|records| - 1]) + [records[|records| - 1].serviceDate]
  }

  /** The row the data starts at. */
  function StartRow(rows: seq<seq<string>>): nat {
    match HeaderRow(rows)
    case Some(h) => h.row + 1
    case None => DefaultStartRow
  }

  /** The column positions used for the data rows. */
  function ColumnsFor(rows: seq<seq<string>>): Columns {
    match HeaderRow(rows)
    case Some(h) => h.cols
    case None => DefaultColumns
  }

  /** The rows from `start` on; none when `start` is past the end. */
  function From(rows: seq<seq<string>>, start: nat): seq<seq<string>> {
    if start <= |rows| then rows[start..] else []
  }

  /** What `parseProductionExcel` returns for the rows of its sheet. */
  function ParseProduction(rows: seq<seq<string>>, toNumber: string -> real): (r: ProductionParseResult)
    ensures r.totalRows == |r.records|
  {
    var cols := ColumnsFor(rows);
    var data := From(rows, StartRow(rows));
    var records := MapSeq(RowRecord(cols, toNumber), KeptRows(cols, data));
    var period := PeriodOf(ServiceDates(records));
    ProductionParseResult(records, |records|, SkippedCount(cols, data), period.start, period.end)
  }

  /** The result of the parse, spelled out from the kept rows. */
  lemma ParseProductionUnfold(rows: seq<seq<string>>, toNumber: string -> real)
    ensures var cols := ColumnsFor(rows);
      var data := From(rows, StartRow(rows));
      var records := MapSeq(RowRecord(cols, toNumber), KeptRows(cols, data));
      var period := PeriodOf(ServiceDates(records));
      ParseProduction(rows, toNumber) == ProductionParseResult(records, |records|, SkippedCount(cols, data), period.start, period.end)
  {
  }

  // ---------------------------------------------------------------------
  // parseProductionExcel

  /** `parseProductionExcel` after the sheet has been read into rows. */
  method ParseProductionRows(rows: seq<seq<string>>, toNumber: string -> real) returns (result: ProductionParseResult)
    ensures result == ParseProduction(rows, toNumber)
  {
    var headerRow, cols := FindHeader(rows);
    var startRow: nat := if headerRow >= 0 then headerRow + 1 else DefaultStartRow;
    var data := if startRow <= |rows| then rows[startRow..] else [];
    RowRecordDate(cols, toNumber);
    result := ReadRows(cols, data, RowRecord(cols, toNumber));
  }

  /** The row loop of `parseProductionExcel`, over the rows after the
      header. The conversion of a kept row into a record is the parameter
      `build` (the caller passes `RecordOf`); all the loop relies on is
      that a record carries its row's normalised date. */
  method ReadRows(cols: Columns, data: seq<seq<string>>, build: seq<string> -> ParsedProductionRecord)
    returns (result: ProductionParseResult)
    requires forall row :: build(row).serviceDate == NormalizeDate(CellAt(row, cols.data))
    ensures var records := MapSeq(build, KeptRows(cols, data));
      var period := PeriodOf(ServiceDates(records));
      result == ProductionParseResult(records, |records|, SkippedCount(cols, data), period.start, period.end)
  {
    var records: seq<ParsedProductionRecord> := [];
    var totalRows, skippedRows := 0, 0;
    var periodStart: Option<string> := None;
    var periodEnd: Option<string> := None;
    ghost var kept: seq<seq<string>> := [];
    assert data[..0] == [];
    for i := 0 to |data|
      invariant kept == KeptRows(cols, data[..i]) && records == MapSeq(build, kept)
      invariant totalRows == |records| && skippedRows == SkippedCount(cols, data[..i])
      invariant Period(periodStart, periodEnd) == PeriodOf(ServiceDates(records))
    {
      var row := data[i];
      RowStep(cols, data, i);
      if Skipped(cols, row) {
        skippedRows := skippedRows + 1;
        continue;
      }
      totalRows := totalRows + 1;
      var record := build(row);
      var dateStr := NormalizeDate(CellAt(row, cols.data));
      periodStart, periodEnd := Observe(periodStart, periodEnd, dateStr);
      MapSeqSnoc(build, kept, row);
      DatesStep(records, record);
      PeriodOfAppend(ServiceDates(records), dateStr);
      records := records + [record];
      kept := kept + [row];
    }
    assert data[..|data|] == data;
    result := ProductionParseResult(records, totalRows, skippedRows, periodStart, periodEnd);
  }

  /** One more row: kept rows and skipped count after it. */
  lemma RowStep(cols: Columns, data: seq<seq<string>>, i: nat)
    requires i < |data|
    ensures KeptRows(cols, data[..i + 1]) == KeptRows(cols, data[..i]) + (if Skipped(cols, data[i]) then [] else [data[i]])
    ensures SkippedCount(cols, data[..i + 1]) == SkippedCount(cols, data[..i]) + (if Skipped(cols, data[i]) then 1 else 0)
  {
    assert data[..i + 1][..i] == data[..i];
  }

  lemma DatesStep(records: seq<ParsedProductionRecord>, r: ParsedProductionRecord)
    ensures ServiceDates(records + [r]) == ServiceDates(records) + [r.serviceDate]
  {
    assert (records + [r])[..|records|] == records;
  }

  /** A converted row carries the row's normalised date. */
  lemma RowRecordDate(cols: Columns, toNumber: string -> real)
    ensures forall row :: RowRecord(cols, toNumber)(row).serviceDate == NormalizeDate(CellAt(row, cols.data))
  {
  }

  // ---------------------------------------------------------------------
  // What the parse promises

  /** Every row after the header is either kept or counted as skipped. */
  lemma {:induction false} CountsAddUp(cols: Columns, data: seq<seq<string>>)
    ensures |KeptRows(cols, data)| + SkippedCount(cols, data) == |data|
  {
    if data != [] {
      CountsAddUp(cols, data[..|data| - 1]);
    }
  }

  /** No kept row is a skipped one. */
  lemma {:induction false} KeptRowsKept(cols: Columns, data: seq<seq<string>>)
    ensures forall j :: 0 <= j < |KeptRows(cols, data)| ==> !Skipped(cols, KeptRows(cols, data)[j])
  {
    if data != [] {
      KeptRowsKept(cols, data[..|data| - 1]);
    }
  }

  /** A record as the parser emits it: a trimmed patient and payer, the
      normalised name and payer, the categories of its `TIPO` field, and
      a repasse expected exactly when the payer is not excluded and not
      every procedure is non-billable. */
  predicate WellFormedRecord(r: ParsedProductionRecord) {
    && Trimmed(r.patientName)
    && Trimmed(r.convenioOriginal)
    && r.patientNameNormalized == NormalizePatientName(r.patientName)
    && r.convenioNormalized == NormalizeConvenio(r.convenioOriginal)
    && r.categories == ProcedureCategories(r.procedureOriginal)
    && (r.generatesRepasse <==> !IsExcludedConvenio(r.convenioOriginal) && !AllProceduresNonBillable(r.categories))
  }

  lemma RecordOfWellFormed(cols: Columns, row: seq<string>, toNumber: string -> real)
    ensures WellFormedRecord(RecordOf(cols, row, toNumber))
  {
  }

  /** The number of rows kept is the number of records; together with the
      skipped rows they are all the rows after the header (or after the
      third row when there is no header). */
  lemma ParseProductionCounts(rows: seq<seq<string>>, toNumber: string -> real)
    ensures var r := ParseProduction(rows, toNumber);
      && r.totalRows == |r.records|
      && r.totalRows + r.skippedRows == |From(rows, StartRow(rows))|
  {
    CountsAddUp(ColumnsFor(rows), From(rows, StartRow(rows)));
  }

  /** Every record is well formed and comes from a row whose patient and
      date cells are not empty. */
  lemma ParseProductionRecords(rows: seq<seq<string>>, toNumber: string -> real)
    ensures forall r | r in ParseProduction(rows, toNumber).records :: WellFormedRecord(r)
  {
    var cols := ColumnsFor(rows);
    var kept := KeptRows(cols, From(rows, StartRow(rows)));
    var records := MapSeq(RowRecord(cols, toNumber), kept);
    ParseProductionUnfold(rows, toNumber);
    forall r | r in records ensures WellFormedRecord(r) {
      var j :| 0 <= j < |records| && records[j] == r;
      RecordOfWellFormed(cols, kept[j], toNumber);
    }
  }

  /** Every record comes from a kept row: patient and date cells present. */
  lemma ParseProductionKept(rows: seq<seq<string>>, toNumber: string -> real)
    ensures var cols := ColumnsFor(rows);
      var kept := KeptRows(cols, From(rows, StartRow(rows)));
      && ParseProduction(rows, toNumber).records == MapSeq(RowRecord(cols, toNumber), kept)
      && forall j :: 0 <= j < |kept| ==> CellAt(kept[j], cols.paciente) != "" && CellAt(kept[j], cols.data) != ""
  {
    var cols := ColumnsFor(rows);
    var kept := KeptRows(cols, From(rows, StartRow(rows)));
    ParseProductionUnfold(rows, toNumber);
    KeptRowsKept(cols, From(rows, StartRow(rows)));
    forall j | 0 <= j < |kept| ensures CellAt(kept[j], cols.paciente) != "" && CellAt(kept[j], cols.data) != "" {
      assert !Skipped(cols, kept[j]);
    }
  }

  /** The period runs from the earliest to the latest non-empty normalised
      date of the records; it is absent when there is none. */
  lemma ParseProductionPeriod(rows: seq<seq<string>>, toNumber: string -> real)
    ensures var r := ParseProduction(rows, toNumber);
      Spans(Period(r.periodStart, r.periodEnd), ServiceDates(r.records))
  {
    var cols := ColumnsFor(rows);
    var records := MapSeq(RowRecord(cols, toNumber), KeptRows(cols, From(rows, StartRow(rows))));
    var p := PeriodOf(ServiceDates(records));
    assert ParseProduction(rows, toNumber).periodStart == p.start;
    assert ParseProduction(rows, toNumber).periodEnd == p.end;
    PeriodSpans(ServiceDates(records));
  }
}
