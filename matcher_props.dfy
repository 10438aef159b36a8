/** What the matching cascade guarantees. The cascade is restated over the
    repasse list itself (no indices), shown equal to the indexed step, and
    then the run's invariant, the one-use rule for repasse entries, the
    partition of both inputs and the justification of every match are
    proved about it. */
module MatcherProperties {
  import opened Types
  import opened Text
  import opened Normalizers
  import opened Matcher

  // ---------------------------------------------------------------------
  // The cascade without indices

  /** The entries of `repasse`, in input order, filed under `p`'s `kind` key
      whose id is not used yet. */
  function Free(kind: IndexKind, p: ProductionEntry, repasse: seq<RepasseEntry>, used: set<string>): (rs: seq<RepasseEntry>)
    ensures forall r :: r in rs <==> r in repasse && RepasseKey(kind, r) == ProductionKey(kind, p) && r.id !in used
  {
    if repasse == [] then []
    else
      var last := repasse[|repasse| - 1];
      Free(kind, p, repasse[..|repasse| - 1], used)
        + (if RepasseKey(kind, last) == ProductionKey(kind, p) && last.id !in used then [last] else [])
  }

  /** An entry the fuzzy-name strategy may pick for `p`: same date and payer,
      unused, and a name that passes the fuzzy test. */
  predicate NameCandidate(p: ProductionEntry, r: RepasseEntry, used: set<string>) {
    RepasseKey(ByDateConvenio, r) == ProductionKey(ByDateConvenio, p) && FuzzyCandidate(p.patientNameNormalized, r, used)
  }

  /** The fuzzy-name candidates of `p` in `repasse`, in input order. */
  function NameCandidates(p: ProductionEntry, repasse: seq<RepasseEntry>, used: set<string>): (rs: seq<RepasseEntry>)
    ensures forall r :: r in rs <==> r in repasse && NameCandidate(p, r, used)
  {
    if repasse == [] then []
    else
      var last := repasse[|repasse| - 1];
      NameCandidates(p, repasse[..|repasse| - 1], used) + (if NameCandidate(p, last, used) then [last] else [])
  }

  /** The links the cascade makes for `p`: every free entry with `p`'s exact
      key; failing that, the first fuzzy-name candidate; failing that, the
      first free entry with `p`'s date and patient; failing that, none. */
  function Added(p: ProductionEntry, repasse: seq<RepasseEntry>, used: set<string>): seq<Link> {
    var exact := Free(ByKey, p, repasse, used);
    if exact != [] then ExactLinks(p, exact)
    else
      var named := NameCandidates(p, repasse, used);
      if named != [] then [Link(p, named[0], MatchResult(p.id, named[0].id, FuzzyName, 0.8))]
      else
        var samePatient := Free(ByDatePatient, p, repasse, used);
        if samePatient != [] then [Link(p, samePatient[0], MatchResult(p.id, samePatient[0].id, FuzzyConvenio, 0.6))]
        else []
  }

  /** The repasse ids some links consume. */
  function LinkedRepasse(links: seq<Link>): set<string> {
    set l | l in links :: l.repasse.id
  }

  /** The production ids some links match. */
  function LinkedProduction(links: seq<Link>): set<string> {
    set l | l in links :: l.production.id
  }

  /** The state after `p`: its links appended, their repasse entries used,
      and `p` matched exactly when it got a link. */
  function Cascade(p: ProductionEntry, repasse: seq<RepasseEntry>, st: MatchState): MatchState {
    var added := Added(p, repasse, st.used);
    MatchState(st.links + added, st.used + LinkedRepasse(added), st.matched + (if added == [] then {} else {p.id}))
  }

  // ---------------------------------------------------------------------
  // The indexed step is the cascade

  lemma AvailableSnoc(a: seq<RepasseEntry>, x: RepasseEntry, used: set<string>)
    ensures Available(a + [x], used) == Available(a, used) + (if x.id !in used then [x] else [])
  {
    assert (a + [x])[..|a|] == a;
  }

  /** Filtering the bucket by use is filtering the repasse list by key and use. */
  lemma {:induction false} AvailableBucket(kind: IndexKind, p: ProductionEntry, repasse: seq<RepasseEntry>, used: set<string>)
    ensures Available(Bucket(kind, repasse, ProductionKey(kind, p)), used) == Free(kind, p, repasse, used)
  {
    if repasse != [] {
      var init, last := repasse[..|repasse| - 1], repasse[|repasse| - 1];
      var key := ProductionKey(kind, p);
      var hit := RepasseKey(kind, last) == key;
      AvailableBucket(kind, p, init, used);
      assert Bucket(kind, repasse, key) == Bucket(kind, init, key) + (if hit then [last] else []);
      assert Free(kind, p, repasse, used) == Free(kind, p, init, used) + (if hit && last.id !in used then [last] else []);
      if hit {
        AvailableSnoc(Bucket(kind, init, key), last, used);
      } else {
        assert Bucket(kind, init, key) + [] == Bucket(kind, init, key);
      }
    }
  }

  /** The search returns the leftmost candidate position. */
  lemma FirstFuzzyNameLeftmost(name: string, candidates: seq<RepasseEntry>, used: set<string>, j: nat)
    requires j < |candidates| && FuzzyCandidate(name, candidates[j], used)
    requires forall k :: 0 <= k < j ==> !FuzzyCandidate(name, candidates[k], used)
    ensures FirstFuzzyName(name, candidates, used, 0) == Some(j)
  {
  }

  /** The search fails when no position holds a candidate. */
  lemma FirstFuzzyNameNone(name: string, candidates: seq<RepasseEntry>, used: set<string>)
    requires forall k :: 0 <= k < |candidates| ==> !FuzzyCandidate(name, candidates[k], used)
    ensures FirstFuzzyName(name, candidates, used, 0) == None
  {
  }

  /** Searching a list extended by at most one entry. */
  lemma FirstFuzzyNameSnoc(name: string, b0: seq<RepasseEntry>, t: seq<RepasseEntry>, used: set<string>)
    requires |t| <= 1
    ensures var j0 := FirstFuzzyName(name, b0, used, 0);
      var j := FirstFuzzyName(name, b0 + t, used, 0);
      && (j0.Some? ==> j == j0)
      && (j0.None? && t != [] && FuzzyCandidate(name, t[0], used) ==> j == Some(|b0|))
      && (j0.None? && (t == [] || !FuzzyCandidate(name, t[0], used)) ==> j == None)
  {
    var b := b0 + t;
    var j0 := FirstFuzzyName(name, b0, used, 0);
    assert forall k :: 0 <= k < |b0| ==> b[k] == b0[k];
    if j0.Some? {
      FirstFuzzyNameLeftmost(name, b, used, j0.value);
    } else if t != [] && FuzzyCandidate(name, t[0], used) {
      FirstFuzzyNameLeftmost(name, b, used, |b0|);
    } else {
      FirstFuzzyNameNone(name, b, used);
    }
  }

  /** The fuzzy-name search over the date|convenio bucket finds the first
      candidate in repasse order, and finds none exactly when there is none. */
  lemma {:induction false} FirstFuzzyNameIsFirstCandidate(p: ProductionEntry, repasse: seq<RepasseEntry>, used: set<string>)
    ensures var bucket := Bucket(ByDateConvenio, repasse, ProductionKey(ByDateConvenio, p));
      var j := FirstFuzzyName(p.patientNameNormalized, bucket, used, 0);
      && (j.None? <==> NameCandidates(p, repasse, used) == [])
      && (j.Some? ==> bucket[j.value] == NameCandidates(p, repasse, used)[0])
  {
    if repasse != [] {
      var init, last := repasse[..|repasse| - 1], repasse[|repasse| - 1];
      var key := ProductionKey(ByDateConvenio, p);
      var name := p.patientNameNormalized;
      var t := if RepasseKey(ByDateConvenio, last) == key then [last] else [];
      var b0 := Bucket(ByDateConvenio, init, key);
      assert Bucket(ByDateConvenio, repasse, key) == b0 + t;
      var c0 := NameCandidates(p, init, used);
      assert NameCandidates(p, repasse, used) == c0 + (if NameCandidate(p, last, used) then [last] else []);
      FirstFuzzyNameIsFirstCandidate(p, init, used);
      FirstFuzzyNameSnoc(name, b0, t, used);
      if FirstFuzzyName(name, b0, used, 0).Some? {
        assert (b0 + t)[FirstFuzzyName(name, b0, used, 0).value] == c0[0];
      }
    }
  }

  lemma ExactLinksRepasse(p: ProductionEntry, rs: seq<RepasseEntry>)
    ensures LinkedRepasse(ExactLinks(p, rs)) == Ids(rs)
  {
    var ls := ExactLinks(p, rs);
    forall x | x in Ids(rs) ensures x in LinkedRepasse(ls) {
      var r :| r in rs && r.id == x;
      var i :| 0 <= i < |rs| && rs[i] == r;
      assert ls[i] in ls;
    }
  }

  lemma SingleLinkRepasse(l: Link)
    ensures LinkedRepasse([l]) == {l.repasse.id}
  {
    assert l in [l];
  }

  /** The exact strategy's case of `StepIsCascade`. */
  lemma StepExactCase(p: ProductionEntry, repasse: seq<RepasseEntry>, st: MatchState)
    requires Available(Bucket(ByKey, repasse, ProductionKey(ByKey, p)), st.used) != []
    ensures Step(p, repasse, st) == Cascade(p, repasse, st)
  {
    var exact := Free(ByKey, p, repasse, st.used);
    AvailableBucket(ByKey, p, repasse, st.used);
    assert Added(p, repasse, st.used) == ExactLinks(p, exact);
    ExactLinksRepasse(p, exact);
  }

  /** The fuzzy-name strategy's case of `StepIsCascade`. */
  lemma StepNameCase(p: ProductionEntry, repasse: seq<RepasseEntry>, st: MatchState, j: nat)
    requires Available(Bucket(ByKey, repasse, ProductionKey(ByKey, p)), st.used) == []
    requires var byName := Bucket(ByDateConvenio, repasse, ProductionKey(ByDateConvenio, p));
      FirstFuzzyName(p.patientNameNormalized, byName, st.used, 0) == Some(j)
    ensures Step(p, repasse, st) == Cascade(p, repasse, st)
  {
    AvailableBucket(ByKey, p, repasse, st.used);
    FirstFuzzyNameIsFirstCandidate(p, repasse, st.used);
    var named := NameCandidates(p, repasse, st.used);
    var link := Link(p, named[0], MatchResult(p.id, named[0].id, FuzzyName, 0.8));
    assert Added(p, repasse, st.used) == [link];
    SingleLinkRepasse(link);
  }

  /** The fuzzy-convenio strategy's case of `StepIsCascade`, and the case
      where nothing is found. */
  lemma StepPatientCase(p: ProductionEntry, repasse: seq<RepasseEntry>, st: MatchState)
    requires Available(Bucket(ByKey, repasse, ProductionKey(ByKey, p)), st.used) == []
    requires var byName := Bucket(ByDateConvenio, repasse, ProductionKey(ByDateConvenio, p));
      FirstFuzzyName(p.patientNameNormalized, byName, st.used, 0) == None
    ensures Step(p, repasse, st) == Cascade(p, repasse, st)
  {
    if Free(ByDatePatient, p, repasse, st.used) != [] {
      StepPatientFound(p, repasse, st);
    } else {
      StepNothingFound(p, repasse, st);
    }
  }

  lemma StepPatientFound(p: ProductionEntry, repasse: seq<RepasseEntry>, st: MatchState)
    requires Available(Bucket(ByKey, repasse, ProductionKey(ByKey, p)), st.used) == []
    requires var byName := Bucket(ByDateConvenio, repasse, ProductionKey(ByDateConvenio, p));
      FirstFuzzyName(p.patientNameNormalized, byName, st.used, 0) == None
    requires Free(ByDatePatient, p, repasse, st.used) != []
    ensures Step(p, repasse, st) == Cascade(p, repasse, st)
  {
    StepNoneFound(p, repasse, st);
    PatientAdded(p, repasse, st.used);
    AvailableBucket(ByDatePatient, p, repasse, st.used);
    var r := Free(ByDatePatient, p, repasse, st.used)[0];
    var link := Link(p, r, MatchResult(p.id, r.id, FuzzyConvenio, 0.6));
    SingleLinkRepasse(link);
    SingleLinkStep(p, repasse, st, link);
  }

  lemma StepNothingFound(p: ProductionEntry, repasse: seq<RepasseEntry>, st: MatchState)
    requires Available(Bucket(ByKey, repasse, ProductionKey(ByKey, p)), st.used) == []
    requires var byName := Bucket(ByDateConvenio, repasse, ProductionKey(ByDateConvenio, p));
      FirstFuzzyName(p.patientNameNormalized, byName, st.used, 0) == None
    requires Free(ByDatePatient, p, repasse, st.used) == []
    ensures Step(p, repasse, st) == Cascade(p, repasse, st)
  {
    StepNoneFound(p, repasse, st);
    AvailableBucket(ByDatePatient, p, repasse, st.used);
    PatientAdded(p, repasse, st.used);
    NothingAdded(p, repasse, st);
  }

  /** A production entry that gets no link leaves the state as it was. */
  lemma NothingAdded(p: ProductionEntry, repasse: seq<RepasseEntry>, st: MatchState)
    requires Added(p, repasse, st.used) == []
    ensures Cascade(p, repasse, st) == st
  {
    assert LinkedRepasse([]) == {};
    assert st.links + [] == st.links;
  }

  /** The indexed step when neither of the first two strategies finds
      anything. */
  lemma StepNoneFound(p: ProductionEntry, repasse: seq<RepasseEntry>, st: MatchState)
    requires Available(Bucket(ByKey, repasse, ProductionKey(ByKey, p)), st.used) == []
    requires var byName := Bucket(ByDateConvenio, repasse, ProductionKey(ByDateConvenio, p));
      FirstFuzzyName(p.patientNameNormalized, byName, st.used, 0) == None
    ensures var byPatient := Available(Bucket(ByDatePatient, repasse, ProductionKey(ByDatePatient, p)), st.used);
      Step(p, repasse, st)
      == if byPatient != [] then
           var r := byPatient[0];
           MatchState(st.links + [Link(p, r, MatchResult(p.id, r.id, FuzzyConvenio, 0.6))], st.used + {r.id}, st.matched + {p.id})
         else st
  {
  }

  /** A strategy that makes the single link `link` for `p` moves the state
      the same way in the indexed step and in the cascade. */
  lemma SingleLinkStep(p: ProductionEntry, repasse: seq<RepasseEntry>, st: MatchState, link: Link)
    requires Added(p, repasse, st.used) == [link] && LinkedRepasse([link]) == {link.repasse.id}
    ensures Cascade(p, repasse, st) == MatchState(st.links + [link], st.used + {link.repasse.id}, st.matched + {p.id})
  {
  }

  /** When the first two strategies find nothing, the cascade links the
      first free entry with `p`'s date and patient, if any. */
  lemma PatientAdded(p: ProductionEntry, repasse: seq<RepasseEntry>, used: set<string>)
    requires Available(Bucket(ByKey, repasse, ProductionKey(ByKey, p)), used) == []
    requires var byName := Bucket(ByDateConvenio, repasse, ProductionKey(ByDateConvenio, p));
      FirstFuzzyName(p.patientNameNormalized, byName, used, 0) == None
    ensures var samePatient := Free(ByDatePatient, p, repasse, used);
      Added(p, repasse, used)
      == if samePatient != [] then [Link(p, samePatient[0], MatchResult(p.id, samePatient[0].id, FuzzyConvenio, 0.6))] else []
  {
    AvailableBucket(ByKey, p, repasse, used);
    FirstFuzzyNameIsFirstCandidate(p, repasse, used);
  }

  /** The indexed step of `runMatching` makes the cascade's links. */
  lemma StepIsCascade(p: ProductionEntry, repasse: seq<RepasseEntry>, st: MatchState)
    ensures Step(p, repasse, st) == Cascade(p, repasse, st)
  {
    if Available(Bucket(ByKey, repasse, ProductionKey(ByKey, p)), st.used) != [] {
      StepExactCase(p, repasse, st);
    } else {
      var byName := Bucket(ByDateConvenio, repasse, ProductionKey(ByDateConvenio, p));
      var found := FirstFuzzyName(p.patientNameNormalized, byName, st.used, 0);
      if found.Some? {
        StepNameCase(p, repasse, st, found.value);
      } else {
        StepPatientCase(p, repasse, st);
      }
    }
  }

  /** One more production entry: the run takes one cascade step. */
  lemma RunSnoc(production: seq<ProductionEntry>, repasse: seq<RepasseEntry>, k: nat)
    requires k < |production|
    ensures Run(production[..k + 1], repasse) == Cascade(production[k], repasse, Run(production[..k], repasse))
  {
    assert production[..k + 1][..k] == production[..k];
    StepIsCascade(production[k], repasse, Run(production[..k], repasse));
  }

  // ---------------------------------------------------------------------
  // The run's invariant

  /** The link's match record names its two entries, and the strategy it
      names is one whose condition the two entries meet, with that
      strategy's confidence. */
  predicate Justified(l: Link) {
    && l.result.productionId == l.production.id
    && l.result.repasseId == l.repasse.id
    && match l.result.matchType
       case Exact =>
         l.result.confidence == 1.0 && RepasseKey(ByKey, l.repasse) == ProductionKey(ByKey, l.production)
       case FuzzyName =>
         && l.result.confidence == 0.8
         && RepasseKey(ByDateConvenio, l.repasse) == ProductionKey(ByDateConvenio, l.production)
         && FuzzyMatchPatientName(l.production.patientNameNormalized, l.repasse.patientNameNormalized)
       case FuzzyConvenio =>
         l.result.confidence == 0.6 && RepasseKey(ByDatePatient, l.repasse) == ProductionKey(ByDatePatient, l.production)
       case _ => false
  }

  /** No two repasse entries share an id. */
  predicate DistinctIds(rs: seq<RepasseEntry>) {
    forall i, j :: 0 <= i < j < |rs| ==> rs[i].id != rs[j].id
  }

  /** The repasse ids of some links, in order. */
  function RepasseIdsOf(links: seq<Link>): (ids: seq<string>)
    ensures |ids| == |links| && forall i :: 0 <= i < |links| ==> ids[i] == links[i].repasse.id
  {
    seq(|links|, i requires 0 <= i < |links| => links[i].repasse.id)
  }

  /** What the main loop keeps true: every link joins entries of the inputs
      and is justified, the used set is the set of linked repasse ids and the
      matched set the set of linked production ids. */
  predicate Consistent(st: MatchState, production: seq<ProductionEntry>, repasse: seq<RepasseEntry>) {
    && (forall l | l in st.links :: l.production in production && l.repasse in repasse && Justified(l))
    && st.used == LinkedRepasse(st.links)
    && st.matched == LinkedProduction(st.links)
  }

  /** The free entries of a list with distinct ids have distinct ids. */
  lemma {:induction false} FreeDistinct(kind: IndexKind, p: ProductionEntry, repasse: seq<RepasseEntry>, used: set<string>)
    requires DistinctIds(repasse)
    ensures DistinctIds(Free(kind, p, repasse, used))
  {
    if repasse != [] {
      var init, last := repasse[..|repasse| - 1], repasse[|repasse| - 1];
      assert repasse == init + [last];
      var f0 := Free(kind, p, init, used);
      DistinctInit(init, last);
      FreeDistinct(kind, p, init, used);
      if RepasseKey(kind, last) == ProductionKey(kind, p) && last.id !in used {
        DistinctSnoc(init, last, f0);
        assert Free(kind, p, repasse, used) == f0 + [last];
      } else {
        assert Free(kind, p, repasse, used) == f0 + [];
        assert f0 + [] == f0;
      }
    }
  }

  lemma DistinctInit(init: seq<RepasseEntry>, last: RepasseEntry)
    requires DistinctIds(init + [last])
    ensures DistinctIds(init)
  {
    forall i, j | 0 <= i < j < |init| ensures init[i].id != init[j].id {
      assert (init + [last])[i] == init[i] && (init + [last])[j] == init[j];
    }
  }

  /** Appending the last entry of a list with distinct ids to entries taken
      from the ones before it keeps the ids distinct. */
  lemma DistinctSnoc(init: seq<RepasseEntry>, last: RepasseEntry, f0: seq<RepasseEntry>)
    requires DistinctIds(init + [last]) && DistinctIds(f0)
    requires forall r | r in f0 :: r in init
    ensures DistinctIds(f0 + [last])
  {
    var all := init + [last];
    forall i | 0 <= i < |f0| ensures f0[i].id != last.id {
      assert f0[i] in init;
      var m :| 0 <= m < |init| && init[m] == f0[i];
      assert all[m] == f0[i] && all[|init|] == last;
    }
    var g := f0 + [last];
    forall i, j | 0 <= i < j < |g| ensures g[i].id != g[j].id {
      assert g[i] == f0[i];
      if j < |f0| { assert g[j] == f0[j]; }
    }
  }

  /** The links made for one production entry: all of them for `p`, each
      to an unused entry of `repasse`, each justified; more than one only by
      the exact strategy; never the same repasse id twice when ids are
      distinct. */
  lemma AddedShape(p: ProductionEntry, repasse: seq<RepasseEntry>, used: set<string>)
    ensures var added := Added(p, repasse, used);
      && (forall l | l in added :: l.production == p && l.repasse in repasse && l.repasse.id !in used && Justified(l))
      && (|added| > 1 ==> forall l | l in added :: l.result.matchType == Exact)
      && (DistinctIds(repasse) ==> Distinct(RepasseIdsOf(added)))
  {
    var exact := Free(ByKey, p, repasse, used);
    if exact != [] {
      ExactShape(p, repasse, used);
    } else if NameCandidates(p, repasse, used) != [] {
      SingleShape(p, repasse, used, NameCandidates(p, repasse, used)[0], FuzzyName, 0.8);
    } else if Free(ByDatePatient, p, repasse, used) != [] {
      SingleShape(p, repasse, used, Free(ByDatePatient, p, repasse, used)[0], FuzzyConvenio, 0.6);
    }
  }

  /** `AddedShape` for a strategy that makes one link. */
  lemma SingleShape(p: ProductionEntry, repasse: seq<RepasseEntry>, used: set<string>, r: RepasseEntry, t: MatchType, c: real)
    requires r in repasse && r.id !in used && Justified(Link(p, r, MatchResult(p.id, r.id, t, c)))
    ensures var added := [Link(p, r, MatchResult(p.id, r.id, t, c))];
      && (forall l | l in added :: l.production == p && l.repasse in repasse && l.repasse.id !in used && Justified(l))
      && Distinct(RepasseIdsOf(added))
  {
  }

  /** `AddedShape` for the exact strategy. */
  lemma ExactShape(p: ProductionEntry, repasse: seq<RepasseEntry>, used: set<string>)
    ensures var added := ExactLinks(p, Free(ByKey, p, repasse, used));
      && (forall l | l in added :: l.production == p && l.repasse in repasse && l.repasse.id !in used && Justified(l))
      && (forall l | l in added :: l.result.matchType == Exact)
      && (DistinctIds(repasse) ==> Distinct(RepasseIdsOf(added)))
  {
    var exact := Free(ByKey, p, repasse, used);
    ExactLinksShape(p, exact, repasse, used);
    if DistinctIds(repasse) {
      FreeDistinct(ByKey, p, repasse, used);
      ExactLinksDistinct(p, exact);
    }
  }

  /** Exact links to entries that share the key of `p` are justified. */
  lemma ExactLinksShape(p: ProductionEntry, exact: seq<RepasseEntry>, repasse: seq<RepasseEntry>, used: set<string>)
    requires forall r | r in exact :: r in repasse && RepasseKey(ByKey, r) == ProductionKey(ByKey, p) && r.id !in used
    ensures var added := ExactLinks(p, exact);
      && (forall l | l in added :: l.production == p && l.repasse in repasse && l.repasse.id !in used && Justified(l))
      && (forall l | l in added :: l.result.matchType == Exact)
  {
    var added := ExactLinks(p, exact);
    forall l | l in added
      ensures l.production == p && l.repasse in repasse && l.repasse.id !in used && Justified(l) && l.result.matchType == Exact
    {
      var i :| 0 <= i < |added| && added[i] == l;
      assert exact[i] in exact;
    }
  }

  /** Exact links to entries with distinct ids have distinct repasse ids. */
  lemma ExactLinksDistinct(p: ProductionEntry, exact: seq<RepasseEntry>)
    requires DistinctIds(exact)
    ensures Distinct(RepasseIdsOf(ExactLinks(p, exact)))
  {
    var ids := RepasseIdsOf(ExactLinks(p, exact));
    forall i, j | 0 <= i < j < |ids| ensures ids[i] != ids[j] {
      assert ids[i] == exact[i].id && ids[j] == exact[j].id;
    }
  }

  lemma LinkedAppend(a: seq<Link>, b: seq<Link>)
    ensures LinkedRepasse(a + b) == LinkedRepasse(a) + LinkedRepasse(b)
    ensures LinkedProduction(a + b) == LinkedProduction(a) + LinkedProduction(b)
  {
  }

  lemma RepasseIdsAppend(a: seq<Link>, b: seq<Link>)
    ensures RepasseIdsOf(a + b) == RepasseIdsOf(a) + RepasseIdsOf(b)
  {
  }

  lemma DistinctAppend<T>(a: seq<T>, b: seq<T>)
    requires Distinct(a) && Distinct(b)
    requires forall i, k :: 0 <= i < |b| && 0 <= k < |a| ==> b[i] != a[k]
    ensures Distinct(a + b)
  {
    forall i, j | 0 <= i < j < |a + b| ensures (a + b)[i] != (a + b)[j] {
      if i < |a| <= j {
        assert (a + b)[j] == b[j - |a|];
      }
    }
  }

  /** One cascade step keeps every link sound. */
  lemma CascadeLinksSound(p: ProductionEntry, production: seq<ProductionEntry>, repasse: seq<RepasseEntry>, st: MatchState)
    requires forall l | l in st.links :: l.production in production && l.repasse in repasse && Justified(l)
    requires p in production
    ensures var next := Cascade(p, repasse, st);
      forall l | l in next.links :: l.production in production && l.repasse in repasse && Justified(l)
  {
    var added := Added(p, repasse, st.used);
    AddedShape(p, repasse, st.used);
    forall l | l in st.links + added ensures l.production in production && l.repasse in repasse && Justified(l) {
      if l !in st.links {
        assert l in added;
      }
    }
  }

  /** One cascade step keeps the used and matched sets equal to the linked ids. */
  lemma CascadeSets(p: ProductionEntry, repasse: seq<RepasseEntry>, st: MatchState)
    requires st.used == LinkedRepasse(st.links) && st.matched == LinkedProduction(st.links)
    ensures var next := Cascade(p, repasse, st);
      next.used == LinkedRepasse(next.links) && next.matched == LinkedProduction(next.links)
  {
    AddedShape(p, repasse, st.used);
    AppendSets(st.links, Added(p, repasse, st.used), p);
  }

  /** Appending links made for `p` alone adds their repasse ids to the linked
      repasse ids, and `p`'s id to the linked production ids if any. */
  lemma AppendSets(links: seq<Link>, added: seq<Link>, p: ProductionEntry)
    requires forall l | l in added :: l.production == p
    ensures LinkedRepasse(links + added) == LinkedRepasse(links) + LinkedRepasse(added)
    ensures LinkedProduction(links + added) == LinkedProduction(links) + (if added == [] then {} else {p.id})
  {
    LinkedAppend(links, added);
    if added != [] {
      assert added[0] in added;
    }
  }

  /** One cascade step keeps the invariant. */
  lemma CascadeConsistent(p: ProductionEntry, production: seq<ProductionEntry>, repasse: seq<RepasseEntry>, st: MatchState)
    requires Consistent(st, production, repasse) && p in production
    ensures Consistent(Cascade(p, repasse, st), production, repasse)
  {
    CascadeLinksSound(p, production, repasse, st);
    CascadeSets(p, repasse, st);
  }

  /** One cascade step keeps the linked repasse ids distinct. */
  lemma CascadeDistinct(p: ProductionEntry, production: seq<ProductionEntry>, repasse: seq<RepasseEntry>, st: MatchState)
    requires Consistent(st, production, repasse) && DistinctIds(repasse) && Distinct(RepasseIdsOf(st.links))
    ensures Distinct(RepasseIdsOf(Cascade(p, repasse, st).links))
  {
    var added := Added(p, repasse, st.used);
    AddedShape(p, repasse, st.used);
    RepasseIdsAppend(st.links, added);
    var old_ids, new_ids := RepasseIdsOf(st.links), RepasseIdsOf(added);
    forall i, k | 0 <= i < |added| && 0 <= k < |st.links| ensures new_ids[i] != old_ids[k] {
      assert added[i] in added;
      assert st.links[k] in st.links;
    }
    DistinctAppend(old_ids, new_ids);
  }

  /** The state after the main loop satisfies the invariant; with distinct
      repasse ids no repasse id is linked twice. */
  lemma {:induction false} RunConsistent(production: seq<ProductionEntry>, repasse: seq<RepasseEntry>)
    ensures Consistent(Run(production, repasse), production, repasse)
    ensures DistinctIds(repasse) ==> Distinct(RepasseIdsOf(Run(production, repasse).links))
  {
    if production != [] {
      var n := |production| - 1;
      var init := production[..n];
      RunConsistent(init, repasse);
      RunSnoc(production, repasse, n);
      assert production[..n + 1] == production;
      var st := Run(init, repasse);
      assert Consistent(st, production, repasse) by {
        forall l | l in st.links ensures l.production in production {
          assert l.production in init;
        }
      }
      CascadeConsistent(production[n], production, repasse, st);
      if DistinctIds(repasse) {
        CascadeDistinct(production[n], production, repasse, st);
      }
    }
  }

  // ---------------------------------------------------------------------
  // What `runMatching` promises

  /** The exact strategy, when it fires, links `p` to every free entry with
      its exact key. */
  lemma ExactTakesAll(p: ProductionEntry, repasse: seq<RepasseEntry>, used: set<string>, r: RepasseEntry)
    requires Free(ByKey, p, repasse, used) != []
    requires r in repasse && RepasseKey(ByKey, r) == ProductionKey(ByKey, p) && r.id !in used
    ensures Link(p, r, MatchResult(p.id, r.id, Exact, 1.0)) in Added(p, repasse, used)
  {
    var exact := Free(ByKey, p, repasse, used);
    var i :| 0 <= i < |exact| && exact[i] == r;
    assert ExactLinks(p, exact)[i] == Link(p, r, MatchResult(p.id, r.id, Exact, 1.0));
  }

  /** With distinct repasse ids, no repasse id is in two matches. */
  lemma NoRepasseReuse(production: seq<ProductionEntry>, repasse: seq<RepasseEntry>)
    requires DistinctIds(repasse)
    ensures var ms := Matching(production, repasse).matches;
      forall i, j :: 0 <= i < j < |ms| ==> ms[i].repasseId != ms[j].repasseId
  {
    RunConsistent(production, repasse);
    var links := Run(production, repasse).links;
    var ids := RepasseIdsOf(links);
    forall i, j | 0 <= i < j < |links| ensures links[i].result.repasseId != links[j].result.repasseId {
      assert links[i] in links && links[j] in links;
      assert ids[i] != ids[j];
    }
  }

  /** The last id of a list with distinct ids is new. */
  lemma IdsSnoc(repasse: seq<RepasseEntry>)
    requires repasse != [] && DistinctIds(repasse)
    ensures var init, last := repasse[..|repasse| - 1], repasse[|repasse| - 1];
      Ids(repasse) == Ids(init) + {last.id} && last.id !in Ids(init) && DistinctIds(init)
  {
    var init, last := repasse[..|repasse| - 1], repasse[|repasse| - 1];
    assert repasse == init + [last];
    forall r | r in init ensures r.id != last.id {
      var m :| 0 <= m < |init| && init[m] == r;
      assert repasse[m] == r;
    }
  }

  lemma IntersectionStep(used: set<string>, ids: set<string>, x: string)
    requires x !in ids
    ensures |used * (ids + {x})| == |used * ids| + (if x in used then 1 else 0)
  {
    if x in used {
      assert used * (ids + {x}) == used * ids + {x};
    } else {
      assert used * (ids + {x}) == used * ids;
    }
  }

  /** Counting the unused entries of a list with distinct ids. */
  lemma {:induction false} UnmatchedRepasseCount(repasse: seq<RepasseEntry>, used: set<string>)
    requires DistinctIds(repasse)
    ensures |UnmatchedRepasse(repasse, used)| + |used * Ids(repasse)| == |repasse|
  {
    if repasse != [] {
      var init, last := repasse[..|repasse| - 1], repasse[|repasse| - 1];
      IdsSnoc(repasse);
      UnmatchedRepasseCount(init, used);
      IntersectionStep(used, Ids(init), last.id);
      assert |UnmatchedRepasse(repasse, used)|
          == |UnmatchedRepasse(init, used)| + (if last.id !in used then 1 else 0);
    }
  }

  /** In a consistent state with distinct linked repasse ids, the links and
      the unused entries of `repasse` together count `repasse`. */
  lemma StateCount(st: MatchState, production: seq<ProductionEntry>, repasse: seq<RepasseEntry>)
    requires Consistent(st, production, repasse)
    requires DistinctIds(repasse) && Distinct(RepasseIdsOf(st.links))
    ensures |st.links| + |UnmatchedRepasse(repasse, st.used)| == |repasse|
  {
    var ids := RepasseIdsOf(st.links);
    DistinctCardinality(ids);
    LinkedIdsElements(st.links);
    LinkedInRepasse(st.links, repasse);
    UnmatchedRepasseCount(repasse, st.used);
  }

  /** The set of repasse ids of some links is the set of their id list. */
  lemma LinkedIdsElements(links: seq<Link>)
    ensures Elements(RepasseIdsOf(links)) == LinkedRepasse(links)
  {
    var ids := RepasseIdsOf(links);
    forall x | x in LinkedRepasse(links) ensures x in Elements(ids) {
      var l :| l in links && l.repasse.id == x;
      var i :| 0 <= i < |links| && links[i] == l;
      assert ids[i] == x;
    }
  }

  /** Links to entries of `repasse` use only ids of `repasse`. */
  lemma LinkedInRepasse(links: seq<Link>, repasse: seq<RepasseEntry>)
    requires forall l | l in links :: l.repasse in repasse
    ensures LinkedRepasse(links) * Ids(repasse) == LinkedRepasse(links)
  {
    forall x | x in LinkedRepasse(links) ensures x in Ids(repasse) {
      var l :| l in links && l.repasse.id == x;
      assert l.repasse in repasse;
    }
  }

  /** With distinct repasse ids, every repasse entry is either in exactly
      one match or listed as unmatched. */
  lemma MatchCount(production: seq<ProductionEntry>, repasse: seq<RepasseEntry>)
    requires DistinctIds(repasse)
    ensures var out := Matching(production, repasse);
      |out.matches| + |out.unmatchedRepasse| == |repasse|
  {
    RunConsistent(production, repasse);
    StateCount(Run(production, repasse), production, repasse);
  }

  /** Some match names `id` as its production entry. */
  predicate ProductionMatched(ms: seq<MatchResult>, id: string) {
    exists i :: 0 <= i < |ms| && ms[i].productionId == id
  }

  /** Some match names `id` as its repasse entry. */
  predicate RepasseMatched(ms: seq<MatchResult>, id: string) {
    exists i :: 0 <= i < |ms| && ms[i].repasseId == id
  }

  /** In a consistent state, the matched set holds exactly the production
      ids some match names. */
  lemma MatchedIsNamed(st: MatchState)
    requires st.matched == LinkedProduction(st.links)
    requires forall l | l in st.links :: Justified(l)
    ensures forall id :: id in st.matched <==> ProductionMatched(Results(st.links), id)
  {
    var ms := Results(st.links);
    forall id ensures id in st.matched <==> ProductionMatched(ms, id) {
      if id in st.matched {
        var l :| l in st.links && l.production.id == id;
        var i :| 0 <= i < |st.links| && st.links[i] == l;
        assert ms[i].productionId == id;
      }
      if ProductionMatched(ms, id) {
        var i :| 0 <= i < |ms| && ms[i].productionId == id;
        assert st.links[i] in st.links;
      }
    }
  }

  /** In a consistent state, the used set holds exactly the repasse ids some
      match names. */
  lemma UsedIsNamed(st: MatchState)
    requires st.used == LinkedRepasse(st.links)
    requires forall l | l in st.links :: Justified(l)
    ensures forall id :: id in st.used <==> RepasseMatched(Results(st.links), id)
  {
    var ms := Results(st.links);
    forall id ensures id in st.used <==> RepasseMatched(ms, id) {
      if id in st.used {
        var l :| l in st.links && l.repasse.id == id;
        var i :| 0 <= i < |st.links| && st.links[i] == l;
        assert ms[i].repasseId == id;
      }
      if RepasseMatched(ms, id) {
        var i :| 0 <= i < |ms| && ms[i].repasseId == id;
        assert st.links[i] in st.links;
      }
    }
  }

  /** A production entry is listed as unmatched exactly when no match names it. */
  lemma ProductionPartition(production: seq<ProductionEntry>, repasse: seq<RepasseEntry>)
    ensures var out := Matching(production, repasse);
      forall p | p in production :: p.id in out.unmatchedProduction <==> !ProductionMatched(out.matches, p.id)
  {
    RunConsistent(production, repasse);
    MatchedIsNamed(Run(production, repasse));
  }

  /** A repasse entry is listed as unmatched exactly when no match names it. */
  lemma RepassePartition(production: seq<ProductionEntry>, repasse: seq<RepasseEntry>)
    ensures var out := Matching(production, repasse);
      forall r | r in repasse :: r.id in out.unmatchedRepasse <==> !RepasseMatched(out.matches, r.id)
  {
    RunConsistent(production, repasse);
    UsedIsNamed(Run(production, repasse));
  }

  /** `m` joins an entry of `production` to an entry of `repasse` that meet
      the condition of the strategy `m` names. */
  predicate Supported(m: MatchResult, production: seq<ProductionEntry>, repasse: seq<RepasseEntry>) {
    exists p, r | p in production && r in repasse :: Justified(Link(p, r, m))
  }

  /** Every match is supported by its strategy's condition. */
  lemma MatchesJustified(production: seq<ProductionEntry>, repasse: seq<RepasseEntry>)
    ensures var ms := Matching(production, repasse).matches;
      forall i :: 0 <= i < |ms| ==> Supported(ms[i], production, repasse)
  {
    RunConsistent(production, repasse);
    var links := Run(production, repasse).links;
    forall i | 0 <= i < |links| ensures Supported(links[i].result, production, repasse) {
      var l := links[i];
      assert l in links;
      assert Justified(Link(l.production, l.repasse, l.result));
    }
  }

  /** The fields a key is built from contain no `|`. */
  predicate PipeFree(patient: string, date: string, convenio: string) {
    '|' !in patient && '|' !in date && '|' !in convenio
  }

  /** Two-part keys of pipe-free parts are equal only for equal parts. */
  lemma PairKeyInjective(a1: string, b1: string, a2: string, b2: string)
    requires '|' !in a1 && '|' !in b1 && '|' !in a2 && '|' !in b2
    requires a1 + "|" + b1 == a2 + "|" + b2
    ensures a1 == a2 && b1 == b2
  {
    assert Join([a1, b1], '|') == a1 + "|" + b1;
    assert Join([a2, b2], '|') == a2 + "|" + b2;
    SplitJoin([a1, b1], '|');
    SplitJoin([a2, b2], '|');
  }

  /** For pipe-free fields, a justified link joins entries that agree on
      the fields its strategy compares. */
  lemma JustifiedFields(l: Link)
    requires Justified(l)
    requires PipeFree(l.production.patientNameNormalized, l.production.serviceDate, l.production.convenioNormalized)
    requires PipeFree(l.repasse.patientNameNormalized, l.repasse.serviceDate, l.repasse.convenioNormalized)
    ensures var p, r := l.production, l.repasse;
      && (l.result.matchType == Exact ==>
            p.patientNameNormalized == r.patientNameNormalized && p.serviceDate == r.serviceDate
            && p.convenioNormalized == r.convenioNormalized)
      && (l.result.matchType == FuzzyName ==>
            p.serviceDate == r.serviceDate && p.convenioNormalized == r.convenioNormalized)
      && (l.result.matchType == FuzzyConvenio ==>
            p.serviceDate == r.serviceDate && p.patientNameNormalized == r.patientNameNormalized)
  {
    var p, r := l.production, l.repasse;
    match l.result.matchType
    case Exact =>
      MatchingKeyInjective(p.patientNameNormalized, p.serviceDate, p.convenioNormalized,
                           r.patientNameNormalized, r.serviceDate, r.convenioNormalized);
    case FuzzyName =>
      PairKeyInjective(p.serviceDate, p.convenioNormalized, r.serviceDate, r.convenioNormalized);
    case FuzzyConvenio =>
      PairKeyInjective(p.serviceDate, p.patientNameNormalized, r.serviceDate, r.patientNameNormalized);
    case _ =>
  }

  /** One cascade step appends links for `p` only, all to repasse entries
      not used before it, and more than one only by the exact strategy. */
  lemma CascadeGroups(p: ProductionEntry, repasse: seq<RepasseEntry>, st: MatchState)
    ensures var next := Cascade(p, repasse, st);
      && |st.links| <= |next.links| && next.links[..|st.links|] == st.links
      && st.used <= next.used && st.matched <= next.matched
      && (forall i :: |st.links| <= i < |next.links| ==>
            next.links[i].production == p && next.links[i].repasse.id !in st.used)
      && (|next.links| > |st.links| + 1 ==>
            forall i :: |st.links| <= i < |next.links| ==> next.links[i].result.matchType == Exact)
  {
    var added := Added(p, repasse, st.used);
    AddedShape(p, repasse, st.used);
    var links := st.links + added;
    assert links[..|st.links|] == st.links;
    forall i | |st.links| <= i < |links| ensures links[i] in added {
      assert links[i] == added[i - |st.links|];
    }
  }

  /** Handling entry `k` appends links for that entry only, all to repasse
      entries not used before it, and more than one only by the exact
      strategy. */
  lemma RunGroups(production: seq<ProductionEntry>, repasse: seq<RepasseEntry>, k: nat)
    requires k < |production|
    ensures var before, after := Run(production[..k], repasse), Run(production[..k + 1], repasse);
      && |before.links| <= |after.links| && after.links[..|before.links|] == before.links
      && before.used <= after.used && before.matched <= after.matched
      && (forall i :: |before.links| <= i < |after.links| ==>
            after.links[i].production == production[k] && after.links[i].repasse.id !in before.used)
      && (|after.links| > |before.links| + 1 ==>
            forall i :: |before.links| <= i < |after.links| ==> after.links[i].result.matchType == Exact)
  {
    RunSnoc(production, repasse, k);
    CascadeGroups(production[k], repasse, Run(production[..k], repasse));
  }

  /** The state after a prefix of the production entries is never undone:
      its links start the final list and its sets only grow. */
  lemma {:induction false} RunPrefix(production: seq<ProductionEntry>, repasse: seq<RepasseEntry>, k: nat)
    requires k <= |production|
    ensures var before, after := Run(production[..k], repasse), Run(production, repasse);
      && |before.links| <= |after.links| && after.links[..|before.links|] == before.links
      && before.used <= after.used && before.matched <= after.matched
    decreases |production|
  {
    if k < |production| {
      var n := |production| - 1;
      var init := production[..n];
      assert init[..k] == production[..k];
      assert production[..n + 1] == production;
      RunPrefix(init, repasse, k);
      RunGroups(production, repasse, n);
      var before, mid, after := Run(production[..k], repasse), Run(init, repasse), Run(production, repasse);
      assert after.links[..|mid.links|] == mid.links;
      assert mid.links[..|before.links|] == before.links;
      assert after.links[..|before.links|] == after.links[..|mid.links|][..|before.links|];
    } else {
      assert production[..k] == production;
    }
  }
}
