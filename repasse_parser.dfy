/** The repasse (payment statement) CSV parser: one header line naming the
    columns, then one payment line per row; rows of reversals (`ESTORNO`)
    and rows without a patient are counted and dropped. Cells are split on
    `,` with no quoting. Decimal parsing (`parseFloat`) is a parameter. */
module RepasseParser {
  import opened Types
  import opened Text
  import opened Normalizers
  import opened Classifiers
  import opened Periods

  /** One kept payment line. */
  datatype ParsedRepasseRecord = ParsedRepasseRecord(
    serviceDate: string,
    serviceTime: string,
    patientName: string,
    patientNameNormalized: string,
    convenioOriginal: string,
    convenioNormalized: string,
    tussCode: string,
    procedureDescription: string,
    categorySlug: string,
    paymentForm: string,
    valorBruto: real,
    glosa: real,
    imposto: real,
    liquido: real,
    aRepassar: real,
    regraPct: int)

  datatype RepasseParseResult = RepasseParseResult(
    records: seq<ParsedRepasseRecord>,
    totalRows: nat,
    skippedRows: nat,
    periodStart: Option<string>,
    periodEnd: Option<string>)

  // ---------------------------------------------------------------------
  // parseInt_ and parseFloat_

  function DigitValue(c: char): nat
    requires IsDigit(c)
  {
    c as int - '0' as int
  }

  /** The longest run of decimal digits at the start of `s`. */
  function LeadingDigits(s: string): (r: string)
    ensures |r| <= |s| && r == s[..|r|] && Digits(r)
    ensures |r| < |s| ==> !IsDigit(s[|r|])
  {
    if s != [] && IsDigit(s[0]) then
      var rest := LeadingDigits(s[1..]);
      assert [s[0]] + rest == s[..|rest| + 1];
      [s[0]] + rest
    else []
  }

  /** The number a digit string spells, most significant digit first. */
  function DigitsValue(s: string): nat
    requires Digits(s)
  {
    if s == [] then 0 else 10 * DigitsValue(s[..|s| - 1]) + DigitValue(s[|s| - 1])
  }

  /** `parseInt(s, 10)` on a string that starts with no white space: an
      optional sign, then the digits up to the first non-digit; `None` (NaN)
      when there is no digit. */
  function ParseIntPrefix(s: string): Option<int> {
    var signed := s != [] && (s[0] == '-' || s[0] == '+');
    var digits := LeadingDigits(if signed then s[1..] else s);
    if digits == [] then None
    else if signed && s[0] == '-' then Some(-(DigitsValue(digits) as int))
    else Some(DigitsValue(digits))
  }

  /** `parseInt_`: a blank cell and a cell that does not parse give 0. */
  function ParseInt(val: string): (n: int)
    ensures Blank(val) ==> n == 0
    ensures n < 0 ==> Trim(val)[0] == '-'
  {
    TrimEmptyIffBlank(val);
    var t := Trim(val);
    if t == "" then 0
    else match ParseIntPrefix(t)
      case None => 0
      case Some(n) => n
  }

  /** `String.prototype.replace` with a one-character string pattern: only
      the first occurrence is replaced. */
  function ReplaceFirst(s: string, a: char, b: char): (r: string)
    ensures |r| == |s|
    ensures a !in s ==> r == s
    ensures a in s ==> var i := IndexOf(s, a);
      r[i] == b && forall j :: 0 <= j < |s| && j != i ==> r[j] == s[j]
  {
    if a !in s then s else s[..IndexOf(s, a)] + [b] + s[IndexOf(s, a) + 1..]
  }

  /** `parseFloat_`: a blank cell gives 0; otherwise the trimmed cell, its
      first `,` turned into `.`, goes to `parseFloat`, whose NaN (`None`)
      also gives 0. */
  function ParseDecimal(val: string, parseFloat: string -> Option<real>): (x: real)
    ensures Blank(val) ==> x == 0.0
    ensures x != 0.0 ==> parseFloat(ReplaceFirst(Trim(val), ',', '.')) == Some(x)
  {
    TrimEmptyIffBlank(val);
    var t := Trim(val);
    if t == "" then 0.0
    else match parseFloat(ReplaceFirst(t, ',', '.'))
      case None => 0.0
      case Some(x) => x
  }

  /** `n.toString()` for a natural number. */
  function Decimal(n: nat): (s: string)
    ensures s != [] && Digits(s)
  {
    if n < 10 then [('0' as int + n) as char]
    else Decimal(n / 10) + [('0' as int + n % 10) as char]
  }

  lemma {:induction false} DecimalValue(n: nat)
    ensures DigitsValue(Decimal(n)) == n
  {
    if n >= 10 {
      DecimalValue(n / 10);
      var s := Decimal(n);
      assert s[..|s| - 1] == Decimal(n / 10);
    }
  }

  lemma {:induction false} LeadingDigitsOfDigits(s: string)
    requires Digits(s)
    ensures LeadingDigits(s) == s
  {
    if s != [] {
      LeadingDigitsOfDigits(s[1..]);
    }
  }

  lemma DigitsTrimmed(s: string)
    requires s != [] && Digits(s)
    ensures Trimmed(s) && Trimmed("-" + s)
  {
    assert !IsWs(s[0]) && !IsWs(s[|s| - 1]);
    var m := "-" + s;
    assert m[|m| - 1] == s[|s| - 1];
  }

  /** A digit string parses as the number it spells. */
  lemma ParseIntDigits(s: string)
    requires s != [] && Digits(s)
    ensures ParseInt(s) == DigitsValue(s)
  {
    DigitsTrimmed(s);
    LeadingDigitsOfDigits(s);
    assert Trim(s) == s;
    assert ParseIntPrefix(s) == Some(DigitsValue(s));
  }

  /** A `-` before a digit string negates it. */
  lemma ParseIntNegated(s: string)
    requires s != [] && Digits(s)
    ensures ParseInt("-" + s) == -(DigitsValue(s) as int)
  {
    DigitsTrimmed(s);
    LeadingDigitsOfDigits(s);
    var m := "-" + s;
    assert m[1..] == s;
  }

  /** `parseInt_` reads back the decimal rendering of any integer. */
  lemma ParseIntDecimal(n: nat)
    ensures ParseInt(Decimal(n)) == n
    ensures ParseInt("-" + Decimal(n)) == -(n as int)
  {
    DecimalValue(n);
    ParseIntDigits(Decimal(n));
    ParseIntNegated(Decimal(n));
  }

  /** A blank cell parses as 0 with either parser. */
  lemma BlankParsesAsZero(val: string, parseFloat: string -> Option<real>)
    requires Blank(val)
    ensures ParseInt(val) == 0 && ParseDecimal(val, parseFloat) == 0.0
  {
    TrimEmptyIffBlank(val);
  }

  // ---------------------------------------------------------------------
  // Lines, header and cells

  /** `split('\n').filter((l) => l.trim())`: the lines that are not blank. */
  function NonBlankLines(parts: seq<string>): (lines: seq<string>)
    ensures forall i :: 0 <= i < |lines| ==> Trim(lines[i]) != ""
    ensures |lines| <= |parts|
  {
    if parts == [] then []
    else
      var last := parts[|parts| - 1];
      NonBlankLines(parts[..|parts| - 1]) + (if Trim(last) != "" then [last] else [])
  }

  /** The filter is complete: a line is kept exactly when it is one of the
      pieces and is not blank, and when no piece is blank all are kept. */
  lemma {:induction false} NonBlankLinesComplete(parts: seq<string>)
    ensures forall l :: l in NonBlankLines(parts) <==> l in parts && Trim(l) != ""
    ensures (forall i :: 0 <= i < |parts| ==> Trim(parts[i]) != "") ==> NonBlankLines(parts) == parts
  {
    if parts != [] {
      var init, last := parts[..|parts| - 1], parts[|parts| - 1];
      assert parts == init + [last];
      NonBlankLinesComplete(init);
    }
  }

  /** Filtering one more line appends it when it is not blank. */
  lemma NonBlankLinesSnoc(xs: seq<string>, x: string)
    ensures NonBlankLines(xs + [x]) == NonBlankLines(xs) + (if Trim(x) != "" then [x] else [])
  {
    assert (xs + [x])[..|xs + [x]| - 1] == xs;
  }

  /** The filter keeps input order: filtering a concatenation filters each
      half and concatenates the results. */
  lemma {:induction false} NonBlankLinesConcat(a: seq<string>, b: seq<string>)
    ensures NonBlankLines(a + b) == NonBlankLines(a) + NonBlankLines(b)
  {
    if b == [] {
      assert a + b == a;
    } else {
      var init, last := b[..|b| - 1], b[|b| - 1];
      var tail := if Trim(last) != "" then [last] else [];
      assert b == init + [last];
      calc {
        NonBlankLines(a + b);
        { assert a + b == (a + init) + [last]; }
        NonBlankLines((a + init) + [last]);
        { NonBlankLinesSnoc(a + init, last); }
        NonBlankLines(a + init) + tail;
        { NonBlankLinesConcat(a, init); }
        NonBlankLines(a) + NonBlankLines(init) + tail;
        { NonBlankLinesSnoc(init, last); }
        NonBlankLines(a) + NonBlankLines(b);
      }
    }
  }

  /** A header cell as a column name: trimmed and lower-cased. */
  function HeaderName(h: string): string {
    Lower(Trim(h))
  }

  /** `colMap` as the `forEach` leaves it: each column name maps to its
      index, a later duplicate overwriting an earlier one. */
  function ColumnMap(headers: seq<string>): map<string, nat> {
    if headers == [] then map[]
    else ColumnMap(headers[..|headers| - 1])[headers[|headers| - 1] := |headers| - 1]
  }

  /** The `forEach` that fills `colMap`. */
  method BuildColumnMap(headers: seq<string>) returns (colMap: map<string, nat>)
    ensures colMap == ColumnMap(headers)
  {
    colMap := map[];
    for i := 0 to |headers|
      invariant colMap == ColumnMap(headers[..i])
    {
      assert headers[..i + 1][..i] == headers[..i];
      colMap := colMap[headers[i] := i];
    }
    assert headers[..|headers|] == headers;
  }

  /** Every name of the header is in the map, and nothing else; each maps
      to the last index that carries it. */
  lemma {:induction false} ColumnMapLastWins(headers: seq<string>)
    ensures var m := ColumnMap(headers);
      && (forall k :: k in m <==> k in headers)
      && (forall k | k in m :: m[k] < |headers| && headers[m[k]] == k
            && forall j :: m[k] < j < |headers| ==> headers[j] != k)
  {
    if headers != [] {
      var init := headers[..|headers| - 1];
      assert headers == init + [headers[|headers| - 1]];
      ColumnMapLastWins(init);
    }
  }

  /** `colMap[name] ?? fallback`. */
  function Column(colMap: map<string, nat>, name: string, fallback: nat): nat {
    if name in colMap then colMap[name] else fallback
  }

  /** The cells of a data line. */
  function RowCells(line: string): seq<string> {
    Split(Trim(line), ',')
  }

  function Patient(colMap: map<string, nat>, cols: seq<string>): string {
    Field(cols, Column(colMap, "paciente", 3))
  }

  function ServiceDate(colMap: map<string, nat>, cols: seq<string>): string {
    Field(cols, Column(colMap, "data_atendimento", 1))
  }

  /** The word that marks a reversal line. */
  const Reversal: string := "ESTORNO"

  /** The line is dropped: no patient, or a reversal (`ESTORNO` in any case). */
  predicate Skipped(colMap: map<string, nat>, cols: seq<string>) {
    var paciente := Patient(colMap, cols);
    paciente == "" || Contains(Upper(paciente), Reversal)
  }

  /** The record built from a kept line. */
  function RecordOf(colMap: map<string, nat>, cols: seq<string>, parseFloat: string -> Option<real>): (r: ParsedRepasseRecord)
    ensures r.serviceDate == Field(cols, Column(colMap, "data_atendimento", 1))
    ensures !Skipped(colMap, cols) ==> WellFormedRecord(r)
  {
    var paciente := Patient(colMap, cols);
    var convenio := Field(cols, Column(colMap, "convenio", 0));
    var procedimentoDesc := Field(cols, Column(colMap, "procedimento_desc", 5));
    ParsedRepasseRecord(
      ServiceDate(colMap, cols),
      Field(cols, Column(colMap, "hora", 2)),
      paciente,
      NormalizePatientName(paciente),
      convenio,
      NormalizeConvenio(convenio),
      Field(cols, Column(colMap, "procedimento_cod", 4)),
      procedimentoDesc,
      Slug(ClassifyProcedure(procedimentoDesc)),
      Field(cols, Column(colMap, "forma_pgt", 6)),
      ParseDecimal(CellAt(cols, Column(colMap, "valor", 7)), parseFloat),
      ParseDecimal(CellAt(cols, Column(colMap, "glosa_estorno", 8)), parseFloat),
      ParseDecimal(CellAt(cols, Column(colMap, "imposto_abatimento", 9)), parseFloat),
      ParseDecimal(CellAt(cols, Column(colMap, "liquido", 10)), parseFloat),
      ParseDecimal(CellAt(cols, Column(colMap, "a_repassar", 11)), parseFloat),
      ParseInt(CellAt(cols, Column(colMap, "regra_pct", 12))))
  }

  // ---------------------------------------------------------------------
  // The parse as a function of the text

  /** The cells of the data lines that are kept, in order. */
  function KeptRows(colMap: map<string, nat>, data: seq<string>): seq<seq<string>> {
    if data == [] then []
    else
      var cols := RowCells(data[|data| - 1]);
      KeptRows(colMap, data[..|data| - 1]) + (if Skipped(colMap, cols) then [] else [cols])
  }

  /** The number of data lines that are dropped. */
  function SkippedCount(colMap: map<string, nat>, data: seq<string>): nat {
    if data == [] then 0
    else SkippedCount(colMap, data[..|data| - 1]) + (if Skipped(colMap, RowCells(data[|data| - 1])) then 1 else 0)
  }

  /** The conversion of a kept row, as a function value. */
  function RowRecord(colMap: map<string, nat>, parseFloat: string -> Option<real>): seq<string> -> ParsedRepasseRecord {
    cols => RecordOf(colMap, cols, parseFloat)
  }

  /** The service dates of some records, in order. */
  function ServiceDates(records: seq<ParsedRepasseRecord>): (ds: seq<string>)
    ensures |ds| == |records| && forall i :: 0 <= i < |records| ==> ds[i] == records[i].serviceDate
  {
    if records == [] then [] else ServiceDates(records[..|records| - 1]) + [records[|records| - 1].serviceDate]
  }

  /** The header line and the data lines of a CSV text. */
  function Lines(csvText: string): seq<string> {
    NonBlankLines(Split(csvText, '\n'))
  }

  /** What `parseRepasseCSV` returns. */
  function ParseRepasse(csvText: string, parseFloat: string -> Option<real>): (r: RepasseParseResult)
    ensures |Lines(csvText)| < 2 ==> r == RepasseParseResult([], 0, 0, None, None)
    ensures |Lines(csvText)| >= 2 ==> r.totalRows == |Lines(csvText)| - 1
  {
    var lines := Lines(csvText);
    if |lines| < 2 then RepasseParseResult([], 0, 0, None, None)
    else
      var colMap := ColumnMap(MapSeq(HeaderName, Split(lines[0], ',')));
      var data := lines[1..];
      var records := MapSeq(RowRecord(colMap, parseFloat), KeptRows(colMap, data));
      var period := PeriodOf(ServiceDates(records));
      RepasseParseResult(records, |data|, SkippedCount(colMap, data), period.start, period.end)
  }

  // ---------------------------------------------------------------------
  // parseRepasseCSV

  /** `parseRepasseCSV`. */
  method ParseRepasseCsv(csvText: string, parseFloat: string -> Option<real>) returns (result: RepasseParseResult)
    ensures result == ParseRepasse(csvText, parseFloat)
  {
    var lines := Lines(csvText);
    if |lines| < 2 {
      return RepasseParseResult([], 0, 0, None, None);
    }
    var headers := MapSeq(HeaderName, Split(lines[0], ','));
    var colMap := BuildColumnMap(headers);
    RowRecordDate(colMap, parseFloat);
    result := ReadLines(colMap, lines, RowRecord(colMap, parseFloat));
  }

  /** The line loop of `parseRepasseCSV`, from the line after the header.
      The conversion of a kept row into a record is the parameter `build`
      (the caller passes `RecordOf`); all the loop relies on is that a
      record carries its row's service date. */
  method ReadLines(colMap: map<string, nat>, lines: seq<string>, build: seq<string> -> ParsedRepasseRecord)
    returns (result: RepasseParseResult)
    requires |lines| >= 1
    requires forall cols :: build(cols).serviceDate == ServiceDate(colMap, cols)
    ensures var records := MapSeq(build, KeptRows(colMap, lines[1..]));
      var period := PeriodOf(ServiceDates(records));
      result == RepasseParseResult(records, |lines| - 1, SkippedCount(colMap, lines[1..]), period.start, period.end)
  {
    var records: seq<ParsedRepasseRecord> := [];
    var totalRows, skippedRows := 0, 0;
    var periodStart: Option<string> := None;
    var periodEnd: Option<string> := None;
    ghost var rows: seq<seq<string>> := [];
    assert lines[1..1] == [];
    for i := 1 to |lines|
      invariant rows == KeptRows(colMap, lines[1..i]) && records == MapSeq(build, rows)
      invariant totalRows == i - 1 && skippedRows == SkippedCount(colMap, lines[1..i])
      invariant Period(periodStart, periodEnd) == PeriodOf(ServiceDates(records))
    {
      var cols := RowCells(lines[i]);
      DataStep(colMap, lines, i);
      totalRows := totalRows + 1;
      if Skipped(colMap, cols) {
        skippedRows := skippedRows + 1;
      } else {
        var dateStr := ServiceDate(colMap, cols);
        periodStart, periodEnd := Observe(periodStart, periodEnd, dateStr);
        KeepRow(build, rows, cols, dateStr);
        records := records + [build(cols)];
        rows := rows + [cols];
      }
    }
    assert lines[1..|lines|] == lines[1..];
    result := RepasseParseResult(records, totalRows, skippedRows, periodStart, periodEnd);
  }

  /** Keeping one more row appends its record, and the period tracks the
      record's date. */
  lemma KeepRow(build: seq<string> -> ParsedRepasseRecord, rows: seq<seq<string>>, cols: seq<string>, date: string)
    requires build(cols).serviceDate == date
    ensures MapSeq(build, rows + [cols]) == MapSeq(build, rows) + [build(cols)]
    ensures PeriodOf(ServiceDates(MapSeq(build, rows + [cols])))
         == Track(PeriodOf(ServiceDates(MapSeq(build, rows))), date)
  {
    MapSeqSnoc(build, rows, cols);
    DatesStep(MapSeq(build, rows), build(cols));
    PeriodOfAppend(ServiceDates(MapSeq(build, rows)), date);
  }

  lemma DatesStep(records: seq<ParsedRepasseRecord>, r: ParsedRepasseRecord)
    ensures ServiceDates(records + [r]) == ServiceDates(records) + [r.serviceDate]
  {
    assert (records + [r])[..|records|] == records;
  }

  /** One more data line: kept rows and dropped count after it. */
  lemma DataStep(colMap: map<string, nat>, lines: seq<string>, i: nat)
    requires 1 <= i < |lines|
    ensures var cols := RowCells(lines[i]);
      && KeptRows(colMap, lines[1..i + 1]) == KeptRows(colMap, lines[1..i]) + (if Skipped(colMap, cols) then [] else [cols])
      && SkippedCount(colMap, lines[1..i + 1]) == SkippedCount(colMap, lines[1..i]) + (if Skipped(colMap, cols) then 1 else 0)
  {
    assert lines[1..i + 1][..i - 1] == lines[1..i];
  }

  /** A converted row carries the row's service date. */
  lemma RowRecordDate(colMap: map<string, nat>, parseFloat: string -> Option<real>)
    ensures forall cols :: RowRecord(colMap, parseFloat)(cols).serviceDate == ServiceDate(colMap, cols)
  {
  }

  // ---------------------------------------------------------------------
  // What the parse promises

  /** Every data line is either kept or counted as dropped. */
  lemma {:induction false} CountsAddUp(colMap: map<string, nat>, data: seq<string>)
    ensures |KeptRows(colMap, data)| + SkippedCount(colMap, data) == |data|
  {
    if data != [] {
      CountsAddUp(colMap, data[..|data| - 1]);
    }
  }

  /** No kept row is a dropped one. */
  lemma {:induction false} KeptRowsKept(colMap: map<string, nat>, data: seq<string>)
    ensures forall j :: 0 <= j < |KeptRows(colMap, data)| ==> !Skipped(colMap, KeptRows(colMap, data)[j])
  {
    if data != [] {
      var init := data[..|data| - 1];
      var cols := RowCells(data[|data| - 1]);
      KeptRowsKept(colMap, init);
      assert KeptRows(colMap, data) == KeptRows(colMap, init) + (if Skipped(colMap, cols) then [] else [cols]);
    }
  }

  /** A record as the parser emits it: a patient that is present and no
      reversal, and normalised name, payer and category derived from the
      raw cells it carries. */
  predicate WellFormedRecord(r: ParsedRepasseRecord) {
    && r.patientName != ""
    && !Contains(Upper(r.patientName), Reversal)
    && r.patientNameNormalized == NormalizePatientName(r.patientName)
    && r.convenioNormalized == NormalizeConvenio(r.convenioOriginal)
    && r.categorySlug == Slug(ClassifyProcedure(r.procedureDescription))
  }

  lemma RecordOfWellFormed(colMap: map<string, nat>, cols: seq<string>, parseFloat: string -> Option<real>)
    requires !Skipped(colMap, cols)
    ensures WellFormedRecord(RecordOf(colMap, cols, parseFloat))
  {
  }

  /** The counters: every line after the header is counted, and the dropped
      ones are exactly those without a record. */
  lemma ParseRepasseCounts(csvText: string, parseFloat: string -> Option<real>)
    ensures var r := ParseRepasse(csvText, parseFloat);
      var n := |Lines(csvText)|;
      && r.totalRows == (if n < 2 then 0 else n - 1)
      && |r.records| + r.skippedRows == r.totalRows
  {
    var lines := Lines(csvText);
    if |lines| >= 2 {
      var colMap := ColumnMap(MapSeq(HeaderName, Split(lines[0], ',')));
      CountsAddUp(colMap, lines[1..]);
    }
  }

  /** Every record comes from a kept line and carries its derived fields. */
  lemma ParseRepasseRecords(csvText: string, parseFloat: string -> Option<real>)
    ensures forall r | r in ParseRepasse(csvText, parseFloat).records :: WellFormedRecord(r)
  {
    var lines := Lines(csvText);
    if |lines| >= 2 {
      var colMap := ColumnMap(MapSeq(HeaderName, Split(lines[0], ',')));
      var rows := KeptRows(colMap, lines[1..]);
      var records := MapSeq(RowRecord(colMap, parseFloat), rows);
      assert ParseRepasse(csvText, parseFloat).records == records;
      KeptRowsKept(colMap, lines[1..]);
      forall r | r in records ensures WellFormedRecord(r) {
        var j :| 0 <= j < |records| && records[j] == r;
        RecordOfWellFormed(colMap, rows[j], parseFloat);
      }
    }
  }

  /** The period runs from the earliest to the latest non-empty service
      date of the records; it is absent when there is none. */
  lemma ParseRepassePeriod(csvText: string, parseFloat: string -> Option<real>)
    ensures var r := ParseRepasse(csvText, parseFloat);
      Spans(Period(r.periodStart, r.periodEnd), ServiceDates(r.records))
  {
    var lines := Lines(csvText);
    if |lines| >= 2 {
      var colMap := ColumnMap(MapSeq(HeaderName, Split(lines[0], ',')));
      var records := MapSeq(RowRecord(colMap, parseFloat), KeptRows(colMap, lines[1..]));
      var p := PeriodOf(ServiceDates(records));
      assert ParseRepasse(csvText, parseFloat)
        == RepasseParseResult(records, |lines[1..]|, SkippedCount(colMap, lines[1..]), p.start, p.end);
      PeriodSpans(ServiceDates(records));
    } else {
      PeriodSpans([]);
    }
  }
}
