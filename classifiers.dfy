/** Procedure classification: a first-match-wins list of keyword rules over
    normalised text, the split of a production `TIPO` field into classified
    procedures, and the billability and payer-exclusion tests built on it. */
module Classifiers {
  import opened Types
  import opened Text
  import opened Normalizers

  /** Procedure names that mark a surgery. */
  const SurgeryKeywords: seq<string> := [
    "ADENOIDECTOMIA", "AMIGDALECTOMIA", "TURBINECTOMIA",
    "TURBINOPLASTIA", "FRENECTOMIA", "SEPTOPLASTIA",
    "SINUSOTOMIA", "OTOPLASTIA", "TIMPANOPLASTIA",
    "MICROCIRURGIA", "TUBO DE VENTILACAO"
  ]

  /** Some keyword of `keys` occurs in `t`. */
  predicate ContainsAny(t: string, keys: seq<string>) {
    keys != [] && (Contains(t, keys[0]) || ContainsAny(t, keys[1..]))
  }

  /** `ContainsAny` is the `any` over the keyword list. */
  lemma {:induction false} ContainsAnyIff(t: string, keys: seq<string>)
    ensures ContainsAny(t, keys) <==> exists i :: 0 <= i < |keys| && Contains(t, keys[i])
  {
    if keys != [] {
      ContainsAnyIff(t, keys[1..]);
      assert forall i :: 0 < i < |keys| ==> keys[i] == keys[1..][i - 1];
    }
  }

  /** Text that contains one of a list of non-empty keywords is not empty. */
  lemma KeywordTextNonEmpty(t: string, keys: seq<string>)
    requires ContainsAny(t, keys) && forall k | k in keys :: k != []
    ensures t != []
  {
    ContainsAnyIff(t, keys);
    var i :| 0 <= i < |keys| && Contains(t, keys[i]);
    assert keys[i] in keys;
    ContainsChars(t, keys[i], keys[i][0]);
  }

  // The keyword lists of the remaining rules, in the order the source tests
  // them.

  const CourtesyKeywords: seq<string> := ["CORTESIA"]
  const FeesKeywords: seq<string> := ["DEGLUTICAO", "FEES", "AVALIACAO ENDOSCOPICA"]
  const VideoKeywords: seq<string> := ["VIDEO", "ENDOSCOPIA", "LARINGO"]
  const NasoKeywords: seq<string> := ["NASO", "SINUSAL"]
  const LaringoKeywords: seq<string> := ["FARINGO", "LARINGO"]
  const CerumenKeywords: seq<string> := ["CERUMEN", "CERUME", "REMOCAO DE CERUME"]
  const ForeignBodyKeywords: seq<string> := ["CORPOS ESTRANHOS", "BIOPSIA"]
  const OtoneurologyKeywords: seq<string> := ["OTONEUROLOGIA"]
  const AllergyKeywords: seq<string> := ["PRICK", "TESTE", "ALERGICO"]
  const CranialNervesKeywords: seq<string> := ["PARES CRANIANOS"]
  const ConsultationKeywords: seq<string> := [
    "CONSULTA", "PRONTO SOCORRO", "PRONTO ATENDIMENTO", "CONSULTORIO", "TELEMEDICINA"
  ]

  // The conditions of the rules.

  predicate NoRepasseText(t: string) {
    t == "RETORNO" || t == "PERDA" || ContainsAny(t, CourtesyKeywords)
  }

  predicate SurgeryText(t: string) {
    ContainsAny(t, SurgeryKeywords)
  }

  predicate FeesText(t: string) {
    ContainsAny(t, FeesKeywords)
  }

  predicate VideoText(t: string) {
    ContainsAny(t, VideoKeywords)
  }

  predicate NasoText(t: string) {
    ContainsAny(t, NasoKeywords)
  }

  predicate LaringoText(t: string) {
    ContainsAny(t, LaringoKeywords)
  }

  predicate CerumenText(t: string) {
    ContainsAny(t, CerumenKeywords)
  }

  predicate ForeignBodyText(t: string) {
    ContainsAny(t, ForeignBodyKeywords)
  }

  predicate OtoneurologyText(t: string) {
    ContainsAny(t, OtoneurologyKeywords)
  }

  predicate AllergyText(t: string) {
    ContainsAny(t, AllergyKeywords)
  }

  predicate CranialNervesText(t: string) {
    ContainsAny(t, CranialNervesKeywords)
  }

  predicate ConsultationText(t: string) {
    ContainsAny(t, ConsultationKeywords)
  }

  /** The rule list applied to already normalised text. */
  function ClassifyText(t: string): (c: ProcedureCategory)
    ensures t == "" ==> c == Outro
    ensures t != "" ==> FirstFiring(t, c)
  {
    if t == "" then Outro
    else if NoRepasseText(t) then SemRepasse
    else if SurgeryText(t) then Cirurgia
    else if FeesText(t) then Fees
    else if VideoText(t) then
      if NasoText(t) then VideoNaso
      else if LaringoText(t) then VideoLaringo
      else VideoGenerico
    else if CerumenText(t) then Cerumen
    else if ForeignBodyText(t) then CorpoEstranho
    else if OtoneurologyText(t) then Otoneurologia
    else if AllergyText(t) then TesteAlergico
    else if CranialNervesText(t) then ParesCranianos
    else if ConsultationText(t) then Consulta
    else Outro
  }

  /** `classifyProcedure`: the category of a procedure description. */
  function ClassifyProcedure(procedure: string): (c: ProcedureCategory)
    ensures Blank(procedure) ==> c == Outro
    ensures var t := NormalizeText(procedure); t != "" ==> FirstFiring(t, c)
  {
    ClassifyText(NormalizeText(procedure))
  }

  // An independent reading of the rule list: each category has a condition
  // under which its rule fires and a position in the list; the answer is the
  // category of the first rule that fires.

  /** Position of a category's rule in the list. */
  function Rank(c: ProcedureCategory): nat {
    match c
    case SemRepasse => 0
    case Cirurgia => 1
    case Fees => 2
    case VideoNaso => 3
    case VideoLaringo => 4
    case VideoGenerico => 5
    case Cerumen => 6
    case CorpoEstranho => 7
    case Otoneurologia => 8
    case TesteAlergico => 9
    case ParesCranianos => 10
    case Consulta => 11
    case Outro => 12
  }

  /** The rule of category `c` fires on the non-empty text `t`. */
  predicate Fires(t: string, c: ProcedureCategory) {
    match c
    case SemRepasse => NoRepasseText(t)
    case Cirurgia => SurgeryText(t)
    case Fees => FeesText(t)
    case VideoNaso => VideoText(t) && NasoText(t)
    case VideoLaringo => VideoText(t) && LaringoText(t)
    case VideoGenerico => VideoText(t)
    case Cerumen => CerumenText(t)
    case CorpoEstranho => ForeignBodyText(t)
    case Otoneurologia => OtoneurologyText(t)
    case TesteAlergico => AllergyText(t)
    case ParesCranianos => CranialNervesText(t)
    case Consulta => ConsultationText(t)
    case Outro => true
  }

  /** The rule of `c` fires and no rule before it does. */
  predicate FirstFiring(t: string, c: ProcedureCategory) {
    Fires(t, c) && forall d :: Rank(d) < Rank(c) ==> !Fires(t, d)
  }

  /** Rules sit at different positions. */
  lemma RankInjective(c: ProcedureCategory, d: ProcedureCategory)
    requires Rank(c) == Rank(d)
    ensures c == d
  {
  }

  /** At most one category is first to fire. */
  lemma FirstFiringUnique(t: string, c: ProcedureCategory, d: ProcedureCategory)
    requires FirstFiring(t, c) && FirstFiring(t, d)
    ensures c == d
  {
    if Rank(c) == Rank(d) {
      RankInjective(c, d);
    }
  }

  /** The rule list picks the category of the first rule that fires; no other
      category is first to fire. */
  lemma ClassifyIsFirstFiring(t: string, c: ProcedureCategory)
    requires t != ""
    ensures ClassifyText(t) == c <==> FirstFiring(t, c)
  {
    var r := ClassifyText(t);
    assert FirstFiring(t, r);
    if FirstFiring(t, c) {
      FirstFiringUnique(t, c, r);
    }
  }

  /** Empty text, and text that normalises to nothing, is `outro`. */
  lemma BlankIsOutro(procedure: string)
    requires Blank(procedure)
    ensures ClassifyProcedure(procedure) == Outro
  {
  }

  /** Classifying normalised text gives the same category: the rules only
      ever see normalised text. */
  lemma ClassifyNormalizedText(procedure: string)
    ensures ClassifyProcedure(NormalizeText(procedure)) == ClassifyProcedure(procedure)
  {
    NormalizeTextIdempotent(procedure);
  }

  /** `RETORNO`, `PERDA` or a `CORTESIA` anywhere is `sem_repasse`, whatever
      else the text says. */
  lemma NoRepasseWins(t: string)
    requires NoRepasseText(t)
    ensures ClassifyText(t) == SemRepasse
  {
    if ContainsAny(t, CourtesyKeywords) {
      KeywordTextNonEmpty(t, CourtesyKeywords);
    }
  }

  /** A surgery keyword gives `cirurgia` unless the no-repasse rule fired. */
  lemma SurgeryBeatsLaterRules(t: string)
    requires !NoRepasseText(t)
    requires exists i :: 0 <= i < |SurgeryKeywords| && Contains(t, SurgeryKeywords[i])
    ensures ClassifyText(t) == Cirurgia
  {
    ContainsAnyIff(t, SurgeryKeywords);
  }

  /** The swallowing-evaluation keywords win over the video keywords. */
  lemma FeesBeatsVideo(t: string)
    requires !NoRepasseText(t) && !SurgeryText(t) && FeesText(t)
    ensures ClassifyText(t) == Fees
  {
    KeywordTextNonEmpty(t, FeesKeywords);
  }

  /** Text with `LARINGO` that reaches the video rule is `video_naso` or
      `video_laringo`, never `video_generico`. */
  lemma LaringoIsVideo(t: string)
    requires !NoRepasseText(t) && !SurgeryText(t) && !FeesText(t)
    requires Contains(t, "LARINGO")
    ensures ClassifyText(t) == VideoNaso || ClassifyText(t) == VideoLaringo
  {
    ContainsAnyIff(t, VideoKeywords);
    assert Contains(t, VideoKeywords[2]);
    ContainsAnyIff(t, LaringoKeywords);
    assert Contains(t, LaringoKeywords[1]);
    KeywordTextNonEmpty(t, VideoKeywords);
  }

  // ---------------------------------------------------------------------
  // extractProductionProcedures

  /** A trimmed segment of a `TIPO` field names a procedure. */
  predicate KeptSegment(segment: string) {
    segment != "" && segment != "-TIPO-"
  }

  /** The trimmed segments of `parts` that name a procedure, in order. */
  function KeptSegments(parts: seq<string>): (kept: seq<string>)
    ensures |kept| <= |parts|
    ensures forall i :: 0 <= i < |kept| ==> KeptSegment(kept[i]) && Trimmed(kept[i])
  {
    if parts == [] then []
    else
      var last := Trim(parts[|parts| - 1]);
      KeptSegments(parts[..|parts| - 1]) + (if KeptSegment(last) then [last] else [])
  }

  /** One more part adds its trimmed form when it names a procedure. */
  lemma KeptSegmentsStep(parts: seq<string>, i: nat)
    requires i < |parts|
    ensures var t := Trim(parts[i]);
      KeptSegments(parts[..i + 1]) == KeptSegments(parts[..i]) + (if KeptSegment(t) then [t] else [])
  {
    assert parts[..i + 1][..i] == parts[..i];
  }

  /** Every trimmed part that names a procedure is among the kept segments. */
  lemma {:induction false} KeptSegmentsComplete(parts: seq<string>, j: nat)
    requires j < |parts| && KeptSegment(Trim(parts[j]))
    ensures Trim(parts[j]) in KeptSegments(parts)
  {
    if j < |parts| - 1 {
      assert parts[..|parts| - 1][j] == parts[j];
      KeptSegmentsComplete(parts[..|parts| - 1], j);
    }
  }

  /** Every kept segment is the trimmed form of one of the parts. */
  lemma {:induction false} KeptSegmentsSound(parts: seq<string>, segment: string)
    requires segment in KeptSegments(parts)
    ensures exists j :: 0 <= j < |parts| && segment == Trim(parts[j])
  {
    var init := parts[..|parts| - 1];
    if segment in KeptSegments(init) {
      KeptSegmentsSound(init, segment);
      var j :| 0 <= j < |init| && segment == Trim(init[j]);
      assert init[j] == parts[j];
    } else {
      assert segment == Trim(parts[|parts| - 1]);
    }
  }

  /** The categories of a `TIPO` field: one per kept segment, in order; `outro`
      alone when no segment is kept; nothing for an empty field. */
  function ProcedureCategories(tipo: string): (categories: seq<ProcedureCategory>)
    ensures categories == [] <==> tipo == ""
    ensures tipo != "" ==> |categories| == Max(1, |KeptSegments(Split(tipo, '|'))|)
  {
    if tipo == "" then []
    else
      var kept := KeptSegments(Split(tipo, '|'));
      if kept == [] then [Outro] else MapSeq(ClassifyProcedure, kept)
  }

  /** `extractProductionProcedures`: classify every kept `|`-segment of the
      field, in order. */
  method ExtractProductionProcedures(tipo: string) returns (categories: seq<ProcedureCategory>)
    ensures categories == ProcedureCategories(tipo)
  {
    if tipo == "" {
      return [];
    }
    var parts := Split(tipo, '|');
    categories := ClassifyParts(parts);
    if |categories| == 0 {
      categories := [Outro];
    }
  }

  method ClassifyParts(parts: seq<string>) returns (categories: seq<ProcedureCategory>)
    ensures categories == MapSeq(ClassifyProcedure, KeptSegments(parts))
  {
    categories := [];
    for i := 0 to |parts|
      invariant categories == MapSeq(ClassifyProcedure, KeptSegments(parts[..i]))
    {
      ghost var before := KeptSegments(parts[..i]);
      KeptSegmentsStep(parts, i);
      var trimmed := Trim(parts[i]);
      if trimmed != "" && trimmed != "-TIPO-" {
        assert KeptSegments(parts[..i + 1]) == before + [trimmed];
        var category := ClassifyProcedure(trimmed);
        MapSeqSnoc(ClassifyProcedure, before, trimmed);
        categories := categories + [category];
      } else {
        assert KeptSegments(parts[..i + 1]) == before;
      }
    }
    assert parts[..|parts|] == parts;
  }

  /** An empty field gives no category, any other at least one: one per
      kept segment, classified in order, or `outro` alone. */
  lemma ProcedureCategoriesShape(tipo: string)
    ensures tipo == "" <==> ProcedureCategories(tipo) == []
    ensures var kept := KeptSegments(Split(tipo, '|'));
      var categories := ProcedureCategories(tipo);
      && (tipo != "" && kept == [] ==> categories == [Outro])
      && (tipo != "" && kept != [] ==>
            |categories| == |kept| && forall i :: 0 <= i < |kept| ==> categories[i] == ClassifyProcedure(kept[i]))
  {
  }

  // ---------------------------------------------------------------------
  // allProceduresNonBillable, isExcludedConvenio

  /** `allProceduresNonBillable`: at least one category, all `sem_repasse`. */
  function AllProceduresNonBillable(categories: seq<ProcedureCategory>): (b: bool)
    ensures categories == [] ==> !b
    ensures b ==> SemRepasse in categories && forall c | c in categories :: c == SemRepasse
    ensures (exists c | c in categories :: c != SemRepasse) ==> !b
    ensures b <==> |categories| > 0 && forall c | c in categories :: c == SemRepasse
  {
    assert categories != [] ==> categories[0] in categories;
    assert forall i :: 0 <= i < |categories| ==> categories[i] in categories;
    |categories| > 0 && forall i :: 0 <= i < |categories| ==> categories[i] == SemRepasse
  }

  /** A `TIPO` field is non-billable exactly when it is non-empty, some
      segment is kept, and every kept segment classifies as `sem_repasse`. */
  lemma NonBillableField(tipo: string)
    ensures AllProceduresNonBillable(ProcedureCategories(tipo)) <==>
      var kept := KeptSegments(Split(tipo, '|'));
      tipo != "" && kept != [] && forall i :: 0 <= i < |kept| ==> ClassifyProcedure(kept[i]) == SemRepasse
  {
    var kept := KeptSegments(Split(tipo, '|'));
    if tipo != "" && kept != [] {
      NonBillableMapped(ClassifyProcedure, kept);
    }
  }

  lemma NonBillableMapped<A>(f: A -> ProcedureCategory, xs: seq<A>)
    ensures AllProceduresNonBillable(MapSeq(f, xs)) <==> xs != [] && forall i :: 0 <= i < |xs| ==> f(xs[i]) == SemRepasse
  {
  }

  /** `isExcludedConvenio`: the normalised payer name is empty, is
      `CORTESIA`, or carries the `(INATIVO)` marker. */
  function IsExcludedConvenio(convenio: string): (b: bool)
    ensures Blank(convenio) ==> b
    ensures var t := NormalizeText(convenio); !b <==> t != "" && t != "CORTESIA" && !Contains(t, "(INATIVO)")
  {
    var t := NormalizeText(convenio);
    t == "CORTESIA" || t == "" || Contains(t, InactiveMarker)
  }

  /** The marker of a payer that is no longer active. */
  const InactiveMarker: string := "(INATIVO)"

  /** Blank payer names are excluded. */
  lemma BlankConvenioExcluded(convenio: string)
    requires Blank(convenio)
    ensures IsExcludedConvenio(convenio)
  {
  }

  /** Exclusion depends only on the normalised name. */
  lemma ExclusionOfNormalized(convenio: string)
    ensures IsExcludedConvenio(NormalizeText(convenio)) == IsExcludedConvenio(convenio)
  {
    NormalizeTextIdempotent(convenio);
  }
}
