/** Divergence detection: the fixed rule set that turns the matcher's output
    (matched pairs, unmatched production entries, unmatched repasse entries)
    into a list of typed, severity-tagged discrepancies. Money is `real`. */
module DivergenceDetector {
  import opened Types
  import opened Text

  /** A production entry as the detector sees it; `categories` are the
      category texts of the entry, compared after upper-casing. */
  datatype ProductionForAnalysis = ProductionForAnalysis(
    id: string,
    serviceDate: string,
    patientName: string,
    convenioOriginal: string,
    procedureOriginal: string,
    categories: seq<string>)

  /** A repasse (payment) line as the detector sees it. */
  datatype RepasseForAnalysis = RepasseForAnalysis(
    id: string,
    serviceDate: string,
    patientName: string,
    convenioOriginal: string,
    tussCode: string,
    procedureDescription: string,
    valorBruto: real,
    glosa: real,
    imposto: real,
    liquido: real,
    aRepassar: real,
    regraPct: real,
    categorySlug: string)

  /** A production entry with the repasse lines matched to it. */
  datatype MatchPair = MatchPair(production: ProductionForAnalysis, repasseRecords: seq<RepasseForAnalysis>)

  /** One detected discrepancy; `None` stands for the source's `null`. The
      free-text `detail` field is not modelled. */
  datatype Divergence = Divergence(
    kind: DivergenceType,
    severity: Severity,
    serviceDate: string,
    patientName: string,
    convenioName: string,
    productionRecordId: Option<string>,
    repasseRecordId: Option<string>,
    valorEsperado: Option<real>,
    valorRecebido: Option<real>,
    diferenca: Option<real>,
    procedureProduction: Option<string>,
    procedureRepasse: Option<string>)

  /** Amounts closer than this (R$ 0.05) are taken as equal. */
  const Tolerance: real := 0.05

  function Abs(x: real): real {
    if x < 0.0 then -x else x
  }

  // ---------------------------------------------------------------------
  // The rules, one function per emitted divergence

  /** Production entry with no repasse at all. */
  function ProductionWithoutRepasse(p: ProductionForAnalysis): Divergence {
    Divergence(ProduzidoSemRepasse, Alta, p.serviceDate, p.patientName, p.convenioOriginal,
      Some(p.id), None, None, None, None, Some(p.procedureOriginal), None)
  }

  /** How a repasse line names its procedure: TUSS code, a space, description. */
  function RepasseProcedure(r: RepasseForAnalysis): string {
    r.tussCode + " " + r.procedureDescription
  }

  /** Repasse line with no production entry. */
  function RepasseWithoutProduction(r: RepasseForAnalysis): Divergence {
    Divergence(RepasseSemProducao, Baixa, r.serviceDate, r.patientName, r.convenioOriginal,
      None, Some(r.id), None, Some(r.aRepassar), None, None, Some(RepasseProcedure(r)))
  }

  /** The line carries a glosa (an amount the payer withheld). */
  predicate HasGlosa(r: RepasseForAnalysis) {
    r.glosa > 0.0
  }

  function GlosaDivergence(p: ProductionForAnalysis, r: RepasseForAnalysis): Divergence {
    Divergence(GlosaInesperada, Media, r.serviceDate, r.patientName, r.convenioOriginal,
      Some(p.id), Some(r.id), Some(r.valorBruto), Some(r.valorBruto - r.glosa), Some(-r.glosa),
      Some(p.procedureOriginal), Some(RepasseProcedure(r)))
  }

  /** What the line should pay: the rule percentage of the net amount. */
  function ExpectedRepasse(r: RepasseForAnalysis): real {
    r.liquido * (r.regraPct / 100.0)
  }

  /** The percentage rule applies and the amount paid is off by more than
      the tolerance. */
  predicate WrongPercentage(r: RepasseForAnalysis) {
    r.regraPct > 0.0 && r.liquido > 0.0 && Abs(r.aRepassar - ExpectedRepasse(r)) > Tolerance
  }

  function PercentageDivergence(p: ProductionForAnalysis, r: RepasseForAnalysis): Divergence {
    var expected := ExpectedRepasse(r);
    Divergence(PercentualIncorreto, Alta, r.serviceDate, r.patientName, r.convenioOriginal,
      Some(p.id), Some(r.id), Some(expected), Some(r.aRepassar), Some(r.aRepassar - expected),
      Some(p.procedureOriginal), Some(RepasseProcedure(r)))
  }

  /** Exam categories, as production texts spell them once upper-cased. */
  const ExamCategories: seq<string> := ["VIDEO_NASO", "VIDEO_LARINGO", "VIDEO_GENERICO", "FEES", "CERUMEN"]

  /** Exam categories, as repasse slugs spell them. */
  const ExamSlugs: seq<string> := ["video_naso", "video_laringo", "video_generico", "fees", "cerumen"]

  /** Some production category is an exam. */
  predicate ProductionHasExam(p: ProductionForAnalysis) {
    exists i :: 0 <= i < |p.categories| && Upper(p.categories[i]) in ExamCategories
  }

  /** Some repasse line is classified as an exam. */
  predicate RepasseHasExam(lines: seq<RepasseForAnalysis>) {
    exists i :: 0 <= i < |lines| && lines[i].categorySlug in ExamSlugs
  }

  /** The production entry has an exam, the repasse lines have some line
      but none of them is an exam. */
  predicate ExamUnpaid(pair: MatchPair) {
    ProductionHasExam(pair.production) && !RepasseHasExam(pair.repasseRecords) && |pair.repasseRecords| > 0
  }

  /** `parts.join(sep)`. */
  function JoinWith(parts: seq<string>, sep: string): string {
    if parts == [] then ""
    else if |parts| == 1 then parts[0]
    else JoinWith(parts[..|parts| - 1], sep) + sep + parts[|parts| - 1]
  }

  function ExamDivergence(pair: MatchPair): Divergence
    requires |pair.repasseRecords| > 0
  {
    var p := pair.production;
    Divergence(ExameNaoPago, Alta, p.serviceDate, p.patientName, p.convenioOriginal,
      Some(p.id), Some(pair.repasseRecords[0].id), None, None, None,
      Some(p.procedureOriginal), Some(JoinWith(MapSeq(RepasseProcedure, pair.repasseRecords), " | ")))
  }

  // ---------------------------------------------------------------------
  // The detector's output as a function of its inputs

  /** What one matched repasse line yields: its glosa divergence, then its
      percentage divergence. */
  function LineDivergences(p: ProductionForAnalysis, r: RepasseForAnalysis): (ds: seq<Divergence>)
    ensures |ds| <= 2
    ensures forall d | d in ds :: d.kind != ExameNaoPago && d.productionRecordId == Some(p.id) && d.repasseRecordId == Some(r.id)
  {
    (if HasGlosa(r) then [GlosaDivergence(p, r)] else [])
      + (if WrongPercentage(r) then [PercentageDivergence(p, r)] else [])
  }

  /** What the lines of a pair yield, line by line. */
  function LinesDivergences(p: ProductionForAnalysis, lines: seq<RepasseForAnalysis>): seq<Divergence> {
    if lines == [] then []
    else LinesDivergences(p, lines[..|lines| - 1]) + LineDivergences(p, lines[|lines| - 1])
  }

  /** What one matched pair yields: its lines, then the unpaid-exam check. */
  function PairDivergences(pair: MatchPair): seq<Divergence> {
    LinesDivergences(pair.production, pair.repasseRecords)
      + (if ExamUnpaid(pair) then [ExamDivergence(pair)] else [])
  }

  /** What the matched pairs yield, pair by pair. */
  function PairsDivergences(pairs: seq<MatchPair>): seq<Divergence> {
    if pairs == [] then []
    else PairsDivergences(pairs[..|pairs| - 1]) + PairDivergences(pairs[|pairs| - 1])
  }

  /** The whole output: unmatched production, unmatched repasse, pairs. */
  function Detected(pairs: seq<MatchPair>, unmatchedProduction: seq<ProductionForAnalysis>,
                    unmatchedRepasse: seq<RepasseForAnalysis>): (ds: seq<Divergence>)
    ensures |ds| >= |unmatchedProduction| + |unmatchedRepasse|
    ensures forall i :: 0 <= i < |unmatchedProduction| ==> ds[i] == ProductionWithoutRepasse(unmatchedProduction[i])
    ensures forall i :: 0 <= i < |unmatchedRepasse| ==>
      ds[|unmatchedProduction| + i] == RepasseWithoutProduction(unmatchedRepasse[i])
  {
    MapSeq(ProductionWithoutRepasse, unmatchedProduction)
      + MapSeq(RepasseWithoutProduction, unmatchedRepasse)
      + PairsDivergences(pairs)
  }

  // ---------------------------------------------------------------------
  // detectDivergences

  /** `detectDivergences`: three passes appending to one list. */
  method DetectDivergences(matchedPairs: seq<MatchPair>, unmatchedProduction: seq<ProductionForAnalysis>,
                           unmatchedRepasse: seq<RepasseForAnalysis>)
    returns (divergences: seq<Divergence>)
    ensures divergences == Detected(matchedPairs, unmatchedProduction, unmatchedRepasse)
  {
    divergences := [];
    for i := 0 to |unmatchedProduction|
      invariant divergences == MapSeq(ProductionWithoutRepasse, unmatchedProduction[..i])
    {
      MapSeqPrefix(ProductionWithoutRepasse, unmatchedProduction, i);
      divergences := divergences + [ProductionWithoutRepasse(unmatchedProduction[i])];
    }
    assert unmatchedProduction[..|unmatchedProduction|] == unmatchedProduction;
    ghost var first := divergences;
    for i := 0 to |unmatchedRepasse|
      invariant divergences == first + MapSeq(RepasseWithoutProduction, unmatchedRepasse[..i])
    {
      MapSeqPrefix(RepasseWithoutProduction, unmatchedRepasse, i);
      AppendAssoc(first, MapSeq(RepasseWithoutProduction, unmatchedRepasse[..i]), [RepasseWithoutProduction(unmatchedRepasse[i])]);
      divergences := divergences + [RepasseWithoutProduction(unmatchedRepasse[i])];
    }
    assert unmatchedRepasse[..|unmatchedRepasse|] == unmatchedRepasse;
    ghost var second := divergences;
    for i := 0 to |matchedPairs|
      invariant divergences == second + PairsDivergences(matchedPairs[..i])
    {
      var found := AnalyzePair(matchedPairs[i]);
      PairsPrefix(matchedPairs, i);
      AppendAssoc(second, PairsDivergences(matchedPairs[..i]), found);
      divergences := divergences + found;
    }
    assert matchedPairs[..|matchedPairs|] == matchedPairs;
  }

  lemma PairsPrefix(pairs: seq<MatchPair>, i: nat)
    requires i < |pairs|
    ensures PairsDivergences(pairs[..i + 1]) == PairsDivergences(pairs[..i]) + PairDivergences(pairs[i])
  {
    assert pairs[..i + 1][..i] == pairs[..i];
  }

  lemma LinesPrefix(p: ProductionForAnalysis, lines: seq<RepasseForAnalysis>, j: nat)
    requires j < |lines|
    ensures LinesDivergences(p, lines[..j + 1]) == LinesDivergences(p, lines[..j]) + LineDivergences(p, lines[j])
  {
    assert lines[..j + 1][..j] == lines[..j];
  }

  lemma AppendAssoc(a: seq<Divergence>, b: seq<Divergence>, c: seq<Divergence>)
    ensures a + b + c == a + (b + c)
  {
  }

  /** The body of the pair loop: each line's checks, then the exam check. */
  method AnalyzePair(pair: MatchPair) returns (found: seq<Divergence>)
    ensures found == PairDivergences(pair)
  {
    var production, lines := pair.production, pair.repasseRecords;
    found := [];
    for j := 0 to |lines|
      invariant found == LinesDivergences(production, lines[..j])
    {
      var r := lines[j];
      ghost var before := found;
      var glosa: seq<Divergence> := [];
      if r.glosa > 0.0 {
        glosa := [GlosaDivergence(production, r)];
      }
      var percentage: seq<Divergence> := [];
      if r.regraPct > 0.0 && r.liquido > 0.0 {
        var expected := ExpectedRepasse(r);
        var diff := Abs(r.aRepassar - expected);
        if diff > Tolerance {
          percentage := [PercentageDivergence(production, r)];
        }
      }
      assert glosa + percentage == LineDivergences(production, r);
      found := found + glosa + percentage;
      LinesPrefix(production, lines, j);
      AppendAssoc(before, glosa, percentage);
    }
    assert lines[..|lines|] == lines;
    if ExamUnpaid(pair) {
      found := found + [ExamDivergence(pair)];
    }
  }

  // ---------------------------------------------------------------------
  // Properties of the output

  /** Number of elements of `s` that satisfy `f`. */
  function Count<T>(s: seq<T>, f: T -> bool): (n: nat)
    ensures n <= |s|
  {
    if s == [] then 0 else Count(s[..|s| - 1], f) + (if f(s[|s| - 1]) then 1 else 0)
  }

  /** The severity each kind of divergence is reported with. */
  function SeverityOf(kind: DivergenceType): Severity {
    match kind
    case ProduzidoSemRepasse => Alta
    case RepasseSemProducao => Baixa
    case GlosaInesperada => Media
    case PercentualIncorreto => Alta
    case ExameNaoPago => Alta
    case ValorDivergente => Media
  }

  /** What every emitted divergence satisfies: its severity is the one of
      its kind, the detector never reports `VALOR_DIVERGENTE`, and where
      expected value, received value and difference are all present the
      difference is received minus expected. */
  predicate WellFormed(d: Divergence) {
    && d.kind != ValorDivergente
    && d.severity == SeverityOf(d.kind)
    && (d.valorEsperado.Some? && d.valorRecebido.Some? && d.diferenca.Some? ==>
          d.diferenca.value == d.valorRecebido.value - d.valorEsperado.value)
  }

  /** The output opens with one `PRODUZIDO_SEM_REPASSE` (`ALTA`) per
      unmatched production entry, in order, with no repasse id and no
      amounts. */
  lemma UnmatchedProductionFirst(pairs: seq<MatchPair>, up: seq<ProductionForAnalysis>, ur: seq<RepasseForAnalysis>)
    ensures var ds := Detected(pairs, up, ur);
      && |ds| >= |up| + |ur|
      && forall i :: 0 <= i < |up| ==>
            && ds[i].kind == ProduzidoSemRepasse && ds[i].severity == Alta
            && ds[i].productionRecordId == Some(up[i].id) && ds[i].repasseRecordId == None
            && ds[i].valorEsperado == None && ds[i].valorRecebido == None && ds[i].diferenca == None
  {
    var a := MapSeq(ProductionWithoutRepasse, up);
    var ds := Detected(pairs, up, ur);
    assert ds == a + (MapSeq(RepasseWithoutProduction, ur) + PairsDivergences(pairs));
    forall i | 0 <= i < |up| ensures ds[i] == ProductionWithoutRepasse(up[i]) {
      assert ds[i] == a[i];
    }
  }

  /** Then comes one `REPASSE_SEM_PRODUCAO` (`BAIXA`) per unmatched repasse
      line, in order, with no production id and the amount to pass on as
      the received value. */
  lemma UnmatchedRepasseNext(pairs: seq<MatchPair>, up: seq<ProductionForAnalysis>, ur: seq<RepasseForAnalysis>)
    ensures var ds := Detected(pairs, up, ur);
      && |ds| >= |up| + |ur|
      && forall i :: 0 <= i < |ur| ==>
            && ds[|up| + i].kind == RepasseSemProducao && ds[|up| + i].severity == Baixa
            && ds[|up| + i].productionRecordId == None && ds[|up| + i].repasseRecordId == Some(ur[i].id)
            && ds[|up| + i].valorRecebido == Some(ur[i].aRepassar)
  {
    var a := MapSeq(ProductionWithoutRepasse, up);
    var b := MapSeq(RepasseWithoutProduction, ur);
    var ds := Detected(pairs, up, ur);
    forall i | 0 <= i < |ur| ensures ds[|up| + i] == RepasseWithoutProduction(ur[i]) {
      assert ds[|up| + i] == (a + b)[|up| + i] == b[i];
    }
  }

  /** One matched repasse line yields a `GLOSA_INESPERADA` exactly when it
      has a glosa, and a `PERCENTUAL_INCORRETO` exactly when the rule
      percentage and the net amount are positive and the amount paid differs
      from that percentage of the net amount by more than R$ 0.05; the
      glosa one comes first; both carry the pair's production id and the
      line's id. */
  lemma LineRules(p: ProductionForAnalysis, r: RepasseForAnalysis)
    ensures var ds := LineDivergences(p, r);
      var expected := r.liquido * (r.regraPct / 100.0);
      && |ds| <= 2
      && ((exists i :: 0 <= i < |ds| && ds[i].kind == GlosaInesperada) <==> r.glosa > 0.0)
      && ((exists i :: 0 <= i < |ds| && ds[i].kind == PercentualIncorreto) <==>
            r.regraPct > 0.0 && r.liquido > 0.0
            && (r.aRepassar - expected > 0.05 || expected - r.aRepassar > 0.05))
      && (|ds| == 2 ==> ds[0].kind == GlosaInesperada && ds[1].kind == PercentualIncorreto)
      && (forall i :: 0 <= i < |ds| ==> ds[i].productionRecordId == Some(p.id) && ds[i].repasseRecordId == Some(r.id))
      && (forall i :: 0 <= i < |ds| && ds[i].kind == GlosaInesperada ==>
            && ds[i].valorEsperado == Some(r.valorBruto)
            && ds[i].valorRecebido == Some(r.valorBruto - r.glosa)
            && ds[i].diferenca == Some(-r.glosa))
      && (forall i :: 0 <= i < |ds| && ds[i].kind == PercentualIncorreto ==>
            && ds[i].valorEsperado == Some(expected)
            && ds[i].valorRecebido == Some(r.aRepassar)
            && ds[i].diferenca == Some(r.aRepassar - expected))
  {
    var ds := LineDivergences(p, r);
    if HasGlosa(r) {
      assert ds[0].kind == GlosaInesperada;
    }
    if WrongPercentage(r) {
      assert ds[|ds| - 1].kind == PercentualIncorreto;
    }
  }

  /** A pair's lines never yield `EXAME_NAO_PAGO`, and every divergence
      they yield carries the production id. */
  lemma {:induction false} LinesShape(p: ProductionForAnalysis, lines: seq<RepasseForAnalysis>)
    ensures forall d | d in LinesDivergences(p, lines) :: d.kind != ExameNaoPago && d.productionRecordId == Some(p.id)
  {
    if lines != [] {
      LinesShape(p, lines[..|lines| - 1]);
    }
  }

  /** The exam tests of the source, stated on elements rather than indices. */
  lemma ExamTests(pair: MatchPair)
    ensures ProductionHasExam(pair.production) <==>
      exists c :: c in pair.production.categories && Upper(c) in ExamCategories
    ensures RepasseHasExam(pair.repasseRecords) <==>
      exists r :: r in pair.repasseRecords && r.categorySlug in ExamSlugs
  {
    var cs, lines := pair.production.categories, pair.repasseRecords;
    if ProductionHasExam(pair.production) {
      var k :| 0 <= k < |cs| && Upper(cs[k]) in ExamCategories;
      assert cs[k] in cs;
    }
    if RepasseHasExam(lines) {
      var k :| 0 <= k < |lines| && lines[k].categorySlug in ExamSlugs;
      assert lines[k] in lines;
    }
  }

  /** The unpaid-exam rule: a pair yields an `EXAME_NAO_PAGO` (`ALTA`)
      exactly when it has some repasse line, some production category
      upper-cased is an exam category and no line's slug is an exam slug;
      it is then the pair's last divergence, the only one of its kind, and
      it points at the first repasse line. Every divergence of a pair
      carries the pair's production id. */
  lemma ExamRule(pair: MatchPair)
    ensures var ds := PairDivergences(pair);
      var lines := pair.repasseRecords;
      var unpaid := |lines| > 0
        && (exists c :: c in pair.production.categories && Upper(c) in ExamCategories)
        && (forall r :: r in lines ==> r.categorySlug !in ExamSlugs);
      && ((exists d :: d in ds && d.kind == ExameNaoPago) <==> unpaid)
      && (unpaid ==>
            && ds[|ds| - 1].kind == ExameNaoPago && ds[|ds| - 1].severity == Alta
            && ds[|ds| - 1].repasseRecordId == Some(lines[0].id)
            && forall d | d in ds[..|ds| - 1] :: d.kind != ExameNaoPago)
      && (forall d | d in ds :: d.productionRecordId == Some(pair.production.id))
  {
    var p := pair.production;
    LinesShape(p, pair.repasseRecords);
    ExamTests(pair);
    var a := LinesDivergences(p, pair.repasseRecords);
    var ds := PairDivergences(pair);
    if ExamUnpaid(pair) {
      assert ds[..|ds| - 1] == a;
    } else {
      assert ds == a + [] == a;
    }
  }

  /** How many divergences a pair yields, counted rule by rule. */
  function PairCount(pair: MatchPair): nat {
    Count(pair.repasseRecords, HasGlosa) + Count(pair.repasseRecords, WrongPercentage)
      + (if ExamUnpaid(pair) then 1 else 0)
  }

  function PairsCount(pairs: seq<MatchPair>): nat {
    if pairs == [] then 0 else PairsCount(pairs[..|pairs| - 1]) + PairCount(pairs[|pairs| - 1])
  }

  /** Two checks per line and one per pair. */
  function PairsBound(pairs: seq<MatchPair>): nat {
    if pairs == [] then 0 else PairsBound(pairs[..|pairs| - 1]) + 2 * |pairs[|pairs| - 1].repasseRecords| + 1
  }

  lemma {:induction false} LinesLength(p: ProductionForAnalysis, lines: seq<RepasseForAnalysis>)
    ensures |LinesDivergences(p, lines)| == Count(lines, HasGlosa) + Count(lines, WrongPercentage)
  {
    if lines != [] {
      LinesLength(p, lines[..|lines| - 1]);
    }
  }

  lemma {:induction false} PairsLength(pairs: seq<MatchPair>)
    ensures |PairsDivergences(pairs)| == PairsCount(pairs) <= PairsBound(pairs)
  {
    if pairs != [] {
      var last := pairs[|pairs| - 1];
      PairsLength(pairs[..|pairs| - 1]);
      LinesLength(last.production, last.repasseRecords);
    }
  }

  /** The output length: one per unmatched entry on either side, plus, per
      pair, one per line with a glosa, one per line failing the percentage
      test and one for an unpaid exam; at most two per line and one per
      pair. */
  lemma DetectedLength(pairs: seq<MatchPair>, up: seq<ProductionForAnalysis>, ur: seq<RepasseForAnalysis>)
    ensures |Detected(pairs, up, ur)| == |up| + |ur| + PairsCount(pairs)
    ensures |Detected(pairs, up, ur)| <= |up| + |ur| + PairsBound(pairs)
  {
    PairsLength(pairs);
  }

  lemma {:induction false} LinesWellFormed(p: ProductionForAnalysis, lines: seq<RepasseForAnalysis>)
    ensures forall d | d in LinesDivergences(p, lines) :: WellFormed(d)
  {
    if lines != [] {
      LinesWellFormed(p, lines[..|lines| - 1]);
    }
  }

  lemma {:induction false} PairsWellFormed(pairs: seq<MatchPair>)
    ensures forall d | d in PairsDivergences(pairs) :: WellFormed(d)
  {
    if pairs != [] {
      var last := pairs[|pairs| - 1];
      PairsWellFormed(pairs[..|pairs| - 1]);
      LinesWellFormed(last.production, last.repasseRecords);
    }
  }

  /** Every divergence the detector emits is well formed. */
  lemma DetectedWellFormed(pairs: seq<MatchPair>, up: seq<ProductionForAnalysis>, ur: seq<RepasseForAnalysis>)
    ensures forall d | d in Detected(pairs, up, ur) :: WellFormed(d)
  {
    PairsWellFormed(pairs);
    var a := MapSeq(ProductionWithoutRepasse, up);
    var b := MapSeq(RepasseWithoutProduction, ur);
    assert forall d | d in a :: WellFormed(d);
    assert forall d | d in b :: WellFormed(d);
  }
}
