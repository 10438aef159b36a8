/** The matching engine: production entries are linked to repasse (payment)
    entries by a greedy cascade of three strategies: exact key, then fuzzy
    patient name within the same date and payer, then the same patient and
    date under a differently spelled payer. A repasse entry consumed by one
    production entry is never offered to another. */
module Matcher {
  import opened Types
  import opened Text
  import opened Normalizers

  /** A production (billing) line, already normalised. */
  datatype ProductionEntry = ProductionEntry(
    id: string,
    patientNameNormalized: string,
    serviceDate: string,
    convenioNormalized: string,
    convenioOriginal: string,
    procedureOriginal: string,
    categories: seq<string>)

  /** A repasse (payment) line, already normalised; amounts are exact reals. */
  datatype RepasseEntry = RepasseEntry(
    id: string,
    patientNameNormalized: string,
    serviceDate: string,
    convenioNormalized: string,
    convenioOriginal: string,
    tussCode: string,
    procedureDescription: string,
    valorBruto: real,
    glosa: real,
    imposto: real,
    liquido: real,
    aRepassar: real,
    regraPct: real)

  datatype MatchResult = MatchResult(productionId: string, repasseId: string, matchType: MatchType, confidence: real)

  datatype MatchingOutput = MatchingOutput(
    matches: seq<MatchResult>,
    unmatchedProduction: seq<string>,
    unmatchedRepasse: seq<string>)

  // ---------------------------------------------------------------------
  // The three indices

  /** Which index a key belongs to. */
  datatype IndexKind = ByKey | ByDateConvenio | ByDatePatient

  /** The fields a key of `kind` is made of, in order. */
  function KeyFields(kind: IndexKind, patient: string, date: string, convenio: string): seq<string> {
    match kind
    case ByKey => [patient, date, convenio]
    case ByDateConvenio => [date, convenio]
    case ByDatePatient => [date, patient]
  }

  /** The key of `kind` over the three fields. */
  function KeyOf(kind: IndexKind, patient: string, date: string, convenio: string): (k: string)
    ensures '|' !in patient && '|' !in date && '|' !in convenio ==>
      Split(k, '|') == KeyFields(kind, patient, date, convenio)
  {
    KeySplits(kind, patient, date, convenio);
    match kind
    case ByKey => CreateMatchingKey(patient, date, convenio)
    case ByDateConvenio => date + "|" + convenio
    case ByDatePatient => date + "|" + patient
  }

  /** Each key splits back into the fields it is made of. */
  lemma KeySplits(kind: IndexKind, patient: string, date: string, convenio: string)
    ensures '|' !in patient && '|' !in date && '|' !in convenio ==>
      && Split(CreateMatchingKey(patient, date, convenio), '|') == [patient, date, convenio]
      && Split(date + "|" + convenio, '|') == [date, convenio]
      && Split(date + "|" + patient, '|') == [date, patient]
  {
    if '|' !in patient && '|' !in date && '|' !in convenio {
      MatchingKeySplits(patient, date, convenio);
      assert Join([date, convenio], '|') == date + "|" + convenio;
      assert Join([date, patient], '|') == date + "|" + patient;
      SplitJoin([date, convenio], '|');
      SplitJoin([date, patient], '|');
    }
  }

  /** The key a repasse entry is filed under: for pipe-free fields it splits
      back into the fields the index compares. The source builds each key
      twice, from a repasse entry when it fills the index and from a
      production entry when it looks one up; the two entry types are
      distinct, so each side has its own accessor over `KeyOf`. */
  function RepasseKey(kind: IndexKind, r: RepasseEntry): (k: string)
    ensures '|' !in r.patientNameNormalized && '|' !in r.serviceDate && '|' !in r.convenioNormalized ==>
      Split(k, '|') == KeyFields(kind, r.patientNameNormalized, r.serviceDate, r.convenioNormalized)
  {
    KeyOf(kind, r.patientNameNormalized, r.serviceDate, r.convenioNormalized)
  }

  /** The key a production entry looks up, built by `KeyOf` from the same
      three fields as `RepasseKey`, so an entry finds the bucket filed under
      equal fields. */
  function ProductionKey(kind: IndexKind, p: ProductionEntry): (k: string)
    ensures '|' !in p.patientNameNormalized && '|' !in p.serviceDate && '|' !in p.convenioNormalized ==>
      Split(k, '|') == KeyFields(kind, p.patientNameNormalized, p.serviceDate, p.convenioNormalized)
  {
    KeyOf(kind, p.patientNameNormalized, p.serviceDate, p.convenioNormalized)
  }

  /** The repasse entries filed under `key`, in input order. */
  function Bucket(kind: IndexKind, repasse: seq<RepasseEntry>, key: string): (b: seq<RepasseEntry>)
    ensures |b| <= |repasse|
    ensures forall r :: r in b <==> r in repasse && RepasseKey(kind, r) == key
  {
    if repasse == [] then []
    else
      var last := repasse[|repasse| - 1];
      Bucket(kind, repasse[..|repasse| - 1], key) + (if RepasseKey(kind, last) == key then [last] else [])
  }

  /** One more entry joins the bucket of its own key and no other. */
  lemma BucketSnoc(kind: IndexKind, repasse: seq<RepasseEntry>, i: nat, key: string)
    requires i < |repasse|
    ensures Bucket(kind, repasse[..i + 1], key)
            == Bucket(kind, repasse[..i], key) + (if RepasseKey(kind, repasse[i]) == key then [repasse[i]] else [])
  {
    assert repasse[..i + 1][..i] == repasse[..i];
  }

  /** `index.get(key) || []`. */
  function Lookup(index: map<string, seq<RepasseEntry>>, key: string): seq<RepasseEntry> {
    if key in index then index[key] else []
  }

  /** `index` files every entry of `repasse` under its `kind` key. */
  ghost predicate Indexed(index: map<string, seq<RepasseEntry>>, kind: IndexKind, repasse: seq<RepasseEntry>) {
    forall key :: Lookup(index, key) == Bucket(kind, repasse, key)
  }

  /** One of the indexing loops: every repasse entry is appended to the list
      under its key. */
  method BuildIndex(repasse: seq<RepasseEntry>, kind: IndexKind) returns (index: map<string, seq<RepasseEntry>>)
    ensures Indexed(index, kind, repasse)
  {
    index := map[];
    for i := 0 to |repasse|
      invariant Indexed(index, kind, repasse[..i])
    {
      var r := repasse[i];
      var key := RepasseKey(kind, r);
      var existing := Lookup(index, key);
      ghost var before := index;
      index := index[key := existing + [r]];
      IndexStep(before, index, kind, repasse, i, key);
    }
    assert repasse[..|repasse|] == repasse;
  }

  /** Filing `repasse[i]` under its key extends the index from the first `i`
      entries to the first `i + 1`. */
  lemma IndexStep(
    index: map<string, seq<RepasseEntry>>, after: map<string, seq<RepasseEntry>>,
    kind: IndexKind, repasse: seq<RepasseEntry>, i: nat, key: string)
    requires i < |repasse| && key == RepasseKey(kind, repasse[i])
    requires Indexed(index, kind, repasse[..i])
    requires after == index[key := Lookup(index, key) + [repasse[i]]]
    ensures Indexed(after, kind, repasse[..i + 1])
  {
    forall other ensures Lookup(after, other) == Bucket(kind, repasse[..i + 1], other) {
      IndexStepAt(index, after, kind, repasse, i, key, other);
    }
  }

  /** The same, for the bucket of one key. */
  lemma IndexStepAt(
    index: map<string, seq<RepasseEntry>>, after: map<string, seq<RepasseEntry>>,
    kind: IndexKind, repasse: seq<RepasseEntry>, i: nat, key: string, other: string)
    requires i < |repasse| && key == RepasseKey(kind, repasse[i])
    requires Lookup(index, other) == Bucket(kind, repasse[..i], other)
    requires after == index[key := Lookup(index, key) + [repasse[i]]]
    ensures Lookup(after, other) == Bucket(kind, repasse[..i + 1], other)
  {
    BucketSnoc(kind, repasse, i, other);
    if other != key {
      assert Lookup(after, other) == Lookup(index, other);
    }
  }

  // ---------------------------------------------------------------------
  // The cascade as functions

  /** The entries of `rs` whose id is not yet used, in order. */
  function Available(rs: seq<RepasseEntry>, used: set<string>): (a: seq<RepasseEntry>)
    ensures |a| <= |rs|
    ensures forall r :: r in a <==> r in rs && r.id !in used
  {
    if rs == [] then []
    else
      var last := rs[|rs| - 1];
      Available(rs[..|rs| - 1], used) + (if last.id !in used then [last] else [])
  }

  /** The ids of some repasse entries. */
  function Ids(rs: seq<RepasseEntry>): set<string> {
    set r | r in rs :: r.id
  }

  /** A repasse entry still free whose patient name passes the fuzzy test. */
  predicate FuzzyCandidate(name: string, r: RepasseEntry, used: set<string>) {
    r.id !in used && FuzzyMatchPatientName(name, r.patientNameNormalized)
  }

  /** Position of the first fuzzy candidate in `candidates`, from `from` on. */
  function FirstFuzzyName(name: string, candidates: seq<RepasseEntry>, used: set<string>, from: nat): (j: Option<nat>)
    requires from <= |candidates|
    ensures j.Some? ==> from <= j.value < |candidates| && FuzzyCandidate(name, candidates[j.value], used)
    ensures j.Some? ==> forall k :: from <= k < j.value ==> !FuzzyCandidate(name, candidates[k], used)
    ensures j.None? ==> forall k :: from <= k < |candidates| ==> !FuzzyCandidate(name, candidates[k], used)
    decreases |candidates| - from
  {
    if from == |candidates| then None
    else if FuzzyCandidate(name, candidates[from], used) then Some(from)
    else FirstFuzzyName(name, candidates, used, from + 1)
  }

  /** A match together with the two entries it links. */
  datatype Link = Link(production: ProductionEntry, repasse: RepasseEntry, result: MatchResult)

  /** The state the main loop carries: the links made so far, the used
      repasse ids and the matched production ids. */
  datatype MatchState = MatchState(links: seq<Link>, used: set<string>, matched: set<string>)

  /** Exact links from `p` to each of `rs`, in order. */
  function ExactLinks(p: ProductionEntry, rs: seq<RepasseEntry>): (ls: seq<Link>)
    ensures |ls| == |rs|
    ensures forall i :: 0 <= i < |rs| ==> ls[i] == Link(p, rs[i], MatchResult(p.id, rs[i].id, Exact, 1.0))
  {
    if rs == [] then []
    else
      var r := rs[|rs| - 1];
      ExactLinks(p, rs[..|rs| - 1]) + [Link(p, r, MatchResult(p.id, r.id, Exact, 1.0))]
  }

  /** The match records of links appended one after the other. */
  lemma {:induction false} ResultsAppend(a: seq<Link>, b: seq<Link>)
    ensures Results(a + b) == Results(a) + Results(b)
  {
    assert forall i :: 0 <= i < |a + b| ==> Results(a + b)[i] == (Results(a) + Results(b))[i];
  }

  /** The exact-strategy loop's step: one more available entry, one more
      exact match. */
  lemma ExactLinksSnoc(p: ProductionEntry, rs: seq<RepasseEntry>, k: nat)
    requires k < |rs|
    ensures var r := rs[k];
      && Results(ExactLinks(p, rs[..k + 1])) == Results(ExactLinks(p, rs[..k])) + [MatchResult(p.id, r.id, Exact, 1.0)]
      && Ids(rs[..k + 1]) == Ids(rs[..k]) + {r.id}
  {
    assert rs[..k + 1][..k] == rs[..k];
    assert rs[..k + 1] == rs[..k] + [rs[k]];
  }

  /** One turn of the exact strategy's loop extends both accumulators by
      the next available entry. */
  lemma ExactStep(
    p: ProductionEntry, available: seq<RepasseEntry>, k: nat,
    matches: seq<MatchResult>, used: set<string>, acc: seq<MatchResult>, ids: set<string>)
    requires k < |available|
    requires acc == matches + Results(ExactLinks(p, available[..k]))
    requires ids == used + Ids(available[..k])
    ensures acc + [MatchResult(p.id, available[k].id, Exact, 1.0)] == matches + Results(ExactLinks(p, available[..k + 1]))
    ensures ids + {available[k].id} == used + Ids(available[..k + 1])
  {
    ExactLinksSnoc(p, available, k);
    var done := Results(ExactLinks(p, available[..k]));
    assert acc + [MatchResult(p.id, available[k].id, Exact, 1.0)]
        == matches + (done + [MatchResult(p.id, available[k].id, Exact, 1.0)]);
  }

  /** One iteration of the main loop, for production entry `p`. */
  function Step(p: ProductionEntry, repasse: seq<RepasseEntry>, st: MatchState): (r: MatchState)
    ensures |st.links| <= |r.links| && r.links[..|st.links|] == st.links
    ensures st.used <= r.used && st.matched <= r.matched <= st.matched + {p.id}
    ensures |r.links| == |st.links| ==> r == st
    ensures |r.links| > |st.links| ==> p.id in r.matched
    ensures forall i :: |st.links| <= i < |r.links| ==>
      r.links[i].production == p && r.links[i].result.productionId == p.id
  {
    var exact := Available(Bucket(ByKey, repasse, ProductionKey(ByKey, p)), st.used);
    if exact != [] then
      MatchState(st.links + ExactLinks(p, exact), st.used + Ids(exact), st.matched + {p.id})
    else
      var byName := Bucket(ByDateConvenio, repasse, ProductionKey(ByDateConvenio, p));
      match FirstFuzzyName(p.patientNameNormalized, byName, st.used, 0)
      case Some(j) =>
        var r := byName[j];
        MatchState(st.links + [Link(p, r, MatchResult(p.id, r.id, FuzzyName, 0.8))], st.used + {r.id}, st.matched + {p.id})
      case None =>
        var byPatient := Available(Bucket(ByDatePatient, repasse, ProductionKey(ByDatePatient, p)), st.used);
        if byPatient != [] then
          var r := byPatient[0];
          MatchState(st.links + [Link(p, r, MatchResult(p.id, r.id, FuzzyConvenio, 0.6))], st.used + {r.id}, st.matched + {p.id})
        else st
  }

  /** The state after the main loop has handled every entry of `production`. */
  function Run(production: seq<ProductionEntry>, repasse: seq<RepasseEntry>): (st: MatchState)
    ensures production == [] ==> st == MatchState([], {}, {})
  {
    if production == [] then MatchState([], {}, {})
    else Step(production[|production| - 1], repasse, Run(production[..|production| - 1], repasse))
  }

  /** The match records of some links. */
  function Results(links: seq<Link>): (ms: seq<MatchResult>)
    ensures |ms| == |links| && forall i :: 0 <= i < |links| ==> ms[i] == links[i].result
  {
    if links == [] then [] else Results(links[..|links| - 1]) + [links[|links| - 1].result]
  }

  /** Ids of the production entries not matched, in input order. */
  function UnmatchedProduction(production: seq<ProductionEntry>, matched: set<string>): (ids: seq<string>)
    ensures forall id :: id in ids <==> id !in matched && exists p | p in production :: p.id == id
  {
    if production == [] then []
    else
      var last := production[|production| - 1];
      UnmatchedProduction(production[..|production| - 1], matched) + (if last.id !in matched then [last.id] else [])
  }

  /** Ids of the repasse entries not used, in input order. */
  function UnmatchedRepasse(repasse: seq<RepasseEntry>, used: set<string>): (ids: seq<string>)
    ensures |ids| <= |repasse|
    ensures forall id :: id in ids <==> id !in used && exists r | r in repasse :: r.id == id
  {
    if repasse == [] then []
    else
      var last := repasse[|repasse| - 1];
      UnmatchedRepasse(repasse[..|repasse| - 1], used) + (if last.id !in used then [last.id] else [])
  }

  /** What `runMatching` returns. */
  function Matching(production: seq<ProductionEntry>, repasse: seq<RepasseEntry>): (out: MatchingOutput)
    ensures |out.unmatchedRepasse| <= |repasse|
    ensures forall id | id in out.unmatchedProduction :: exists q | q in production :: q.id == id
    ensures forall id | id in out.unmatchedRepasse :: exists r | r in repasse :: r.id == id
  {
    var st := Run(production, repasse);
    MatchingOutput(Results(st.links), UnmatchedProduction(production, st.matched), UnmatchedRepasse(repasse, st.used))
  }

  // ---------------------------------------------------------------------
  // runMatching

  /** The exact strategy's loop: every available entry becomes an exact match
      and is marked used. */
  method AppendExact(p: ProductionEntry, available: seq<RepasseEntry>, matches: seq<MatchResult>, used: set<string>)
    returns (matches': seq<MatchResult>, used': set<string>)
    ensures matches' == matches + Results(ExactLinks(p, available))
    ensures used' == used + Ids(available)
  {
    matches', used' := matches, used;
    for k := 0 to |available|
      invariant matches' == matches + Results(ExactLinks(p, available[..k]))
      invariant used' == used + Ids(available[..k])
    {
      var r := available[k];
      ExactStep(p, available, k, matches, used, matches', used');
      matches' := matches' + [MatchResult(p.id, r.id, Exact, 1.0)];
      used' := used' + {r.id};
    }
    assert available[..|available|] == available;
  }

  /** The fuzzy-name strategy's loop: the first unused candidate whose name
      passes the fuzzy test. */
  method FindFuzzyName(name: string, candidates: seq<RepasseEntry>, used: set<string>) returns (found: Option<nat>)
    ensures found == FirstFuzzyName(name, candidates, used, 0)
  {
    for j := 0 to |candidates|
      invariant FirstFuzzyName(name, candidates, used, 0) == FirstFuzzyName(name, candidates, used, j)
    {
      var r := candidates[j];
      if r.id in used {
        continue;
      }
      if FuzzyMatchPatientName(name, r.patientNameNormalized) {
        return Some(j);
      }
    }
    return None;
  }

  /** The body of the main loop for one production entry: the first strategy
      that finds something records its matches and marks `p` matched. */
  method MatchEntry(
    p: ProductionEntry, repasse: seq<RepasseEntry>,
    repasseByKey: map<string, seq<RepasseEntry>>,
    repasseByDateConvenio: map<string, seq<RepasseEntry>>,
    repasseByDatePatient: map<string, seq<RepasseEntry>>,
    matches: seq<MatchResult>, used: set<string>, matched: set<string>, ghost st: MatchState)
    returns (matches': seq<MatchResult>, used': set<string>, matched': set<string>)
    requires Lookup(repasseByKey, ProductionKey(ByKey, p)) == Bucket(ByKey, repasse, ProductionKey(ByKey, p))
    requires var key := ProductionKey(ByDateConvenio, p);
      Lookup(repasseByDateConvenio, key) == Bucket(ByDateConvenio, repasse, key)
    requires var key := ProductionKey(ByDatePatient, p);
      Lookup(repasseByDatePatient, key) == Bucket(ByDatePatient, repasse, key)
    requires matches == Results(st.links) && used == st.used && matched == st.matched
    ensures var next := Step(p, repasse, st);
      matches' == Results(next.links) && used' == next.used && matched' == next.matched
  {
    // Strategy 1: exact key.
    var exactKey := CreateMatchingKey(p.patientNameNormalized, p.serviceDate, p.convenioNormalized);
    var exactBucket := if exactKey in repasseByKey then repasseByKey[exactKey] else [];
    assert exactBucket == Lookup(repasseByKey, ProductionKey(ByKey, p));
    var available := Available(exactBucket, used);
    if |available| > 0 {
      matches', used' := AppendExact(p, available, matches, used);
      matched' := matched + {p.id};
      ResultsAppend(st.links, ExactLinks(p, available));
      return;
    }

    // Strategy 2: fuzzy patient name under the same date and payer.
    var dateConvenioKey := p.serviceDate + "|" + p.convenioNormalized;
    var candidates := if dateConvenioKey in repasseByDateConvenio then repasseByDateConvenio[dateConvenioKey] else [];
    assert candidates == Lookup(repasseByDateConvenio, ProductionKey(ByDateConvenio, p));
    var found := FindFuzzyName(p.patientNameNormalized, candidates, used);
    if found.Some? {
      var r := candidates[found.value];
      ResultsAppend(st.links, [Link(p, r, MatchResult(p.id, r.id, FuzzyName, 0.8))]);
      matches' := matches + [MatchResult(p.id, r.id, FuzzyName, 0.8)];
      used' := used + {r.id};
      matched' := matched + {p.id};
      return;
    }

    // Strategy 3: same patient and date, payer spelled differently.
    var datePatientKey := p.serviceDate + "|" + p.patientNameNormalized;
    var samePatient := if datePatientKey in repasseByDatePatient then repasseByDatePatient[datePatientKey] else [];
    assert samePatient == Lookup(repasseByDatePatient, ProductionKey(ByDatePatient, p));
    var free := Available(samePatient, used);
    if |free| > 0 {
      var r := free[0];
      ResultsAppend(st.links, [Link(p, r, MatchResult(p.id, r.id, FuzzyConvenio, 0.6))]);
      matches' := matches + [MatchResult(p.id, r.id, FuzzyConvenio, 0.6)];
      used' := used + {r.id};
      matched' := matched + {p.id};
      return;
    }
    matches', used', matched' := matches, used, matched;
  }

  /** `runMatching`: build the three indices, then walk the production
      entries once, trying the three strategies in order. */
  method RunMatching(production: seq<ProductionEntry>, repasse: seq<RepasseEntry>) returns (output: MatchingOutput)
    ensures output == Matching(production, repasse)
  {
    var matches: seq<MatchResult> := [];
    var usedRepasseIds: set<string> := {};
    var matchedProductionIds: set<string> := {};

    var repasseByKey := BuildIndex(repasse, ByKey);
    var repasseByDateConvenio := BuildIndex(repasse, ByDateConvenio);
    var repasseByDatePatient := BuildIndex(repasse, ByDatePatient);

    for i := 0 to |production|
      invariant var st := Run(production[..i], repasse);
        matches == Results(st.links) && usedRepasseIds == st.used && matchedProductionIds == st.matched
    {
      assert production[..i + 1][..i] == production[..i];
      matches, usedRepasseIds, matchedProductionIds := MatchEntry(
        production[i], repasse, repasseByKey, repasseByDateConvenio, repasseByDatePatient,
        matches, usedRepasseIds, matchedProductionIds, Run(production[..i], repasse));
    }
    assert production[..|production|] == production;

    output := MatchingOutput(
      matches,
      UnmatchedProduction(production, matchedProductionIds),
      UnmatchedRepasse(repasse, usedRepasseIds));
  }
}
