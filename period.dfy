/** The reporting period both parsers track while they read rows: the
    smallest and the largest non-empty date string, in the order of `<` on
    strings. */
module Periods {
  import opened Types
  import opened Text

  /** Earliest and latest date seen so far; `None` (the source's `null`)
      before any. */
  datatype Period = Period(start: Option<string>, end: Option<string>)

  const NoPeriod := Period(None, None)

  /** One row's update: an empty date changes nothing; any other becomes
      the start when there is none yet or it sorts before it, and the end
      when there is none yet or it sorts after it. */
  function Track(p: Period, d: string): Period {
    if d == "" then p
    else Period(
      if p.start.None? || LexLess(d, p.start.value) then Some(d) else p.start,
      if p.end.None? || LexLess(p.end.value, d) then Some(d) else p.end)
  }

  /** The two updates a parser makes to its running start and end for one
      row's date string. */
  method Observe(start: Option<string>, end: Option<string>, d: string)
    returns (start': Option<string>, end': Option<string>)
    ensures Period(start', end') == Track(Period(start, end), d)
  {
    start', end' := start, end;
    if d != "" {
      if start'.None? || LexLess(d, start'.value) {
        start' := Some(d);
      }
      if end'.None? || LexLess(end'.value, d) {
        end' := Some(d);
      }
    }
  }

  /** The period after the dates of `dates`, in order. */
  function PeriodOf(dates: seq<string>): Period {
    if dates == [] then NoPeriod else Track(PeriodOf(dates[..|dates| - 1]), dates[|dates| - 1])
  }

  lemma PeriodOfSnoc(dates: seq<string>, i: nat)
    requires i < |dates|
    ensures PeriodOf(dates[..i + 1]) == Track(PeriodOf(dates[..i]), dates[i])
  {
    assert dates[..i + 1][..i] == dates[..i];
  }

  lemma PeriodOfAppend(dates: seq<string>, d: string)
    ensures PeriodOf(dates + [d]) == Track(PeriodOf(dates), d)
  {
    assert (dates + [d])[..|dates|] == dates;
  }

  /** The start is absent exactly when every date is empty; otherwise it is
      one of the non-empty dates and no non-empty date sorts before it. */
  lemma {:induction false} PeriodStart(dates: seq<string>)
    ensures var s := PeriodOf(dates).start;
      && (s.None? <==> forall d | d in dates :: d == "")
      && (s.Some? ==> s.value in dates && s.value != "" && forall d | d in dates && d != "" :: !LexLess(d, s.value))
  {
    if dates != [] {
      var init, last := dates[..|dates| - 1], dates[|dates| - 1];
      assert dates == init + [last];
      assert forall d | d in dates :: d in init || d == last;
      PeriodStart(init);
      var s := PeriodOf(init).start;
      if last != "" && (s.None? || LexLess(last, s.value)) {
        LexLessIrreflexive(last);
        assert last in dates;
        forall d | d in init && d != "" ensures !LexLess(d, last) {
          if LexLess(d, last) {
            LexLessTransitive(d, last, s.value);
          }
        }
      } else if s.Some? {
        assert s.value in dates;
      }
    }
  }

  /** The end is absent exactly when every date is empty; otherwise it is
      one of the non-empty dates and no date sorts after it. */
  lemma {:induction false} PeriodEnd(dates: seq<string>)
    ensures var e := PeriodOf(dates).end;
      && (e.None? <==> forall d | d in dates :: d == "")
      && (e.Some? ==> e.value in dates && e.value != "" && forall d | d in dates :: !LexLess(e.value, d))
  {
    if dates != [] {
      var init, last := dates[..|dates| - 1], dates[|dates| - 1];
      assert dates == init + [last];
      assert forall d | d in dates :: d in init || d == last;
      PeriodEnd(init);
      var e := PeriodOf(init).end;
      if last != "" && (e.None? || LexLess(e.value, last)) {
        LexLessIrreflexive(last);
        assert last in dates;
        forall d | d in init ensures !LexLess(last, d) {
          if LexLess(last, d) && e.Some? {
            LexLessTransitive(e.value, last, d);
          }
        }
      } else if e.Some? {
        assert e.value in dates;
      }
    }
  }

  /** Start and end are set together, and the start never sorts after the
      end. */
  lemma PeriodOrdered(dates: seq<string>)
    ensures var p := PeriodOf(dates);
      && (p.start.None? <==> p.end.None?)
      && (p.start.Some? ==> !LexLess(p.end.value, p.start.value))
  {
    PeriodStart(dates);
    PeriodEnd(dates);
  }

  /** `p` runs from the earliest to the latest non-empty date of `dates`,
      and is absent exactly when there is none. */
  predicate Spans(p: Period, dates: seq<string>) {
    && (p.start.None? <==> forall d | d in dates :: d == "")
    && (p.end.None? <==> p.start.None?)
    && (p.start.Some? ==>
          p.start.value in dates && p.start.value != ""
          && forall d | d in dates && d != "" :: !LexLess(d, p.start.value))
    && (p.end.Some? ==>
          p.end.value in dates && p.end.value != ""
          && forall d | d in dates :: !LexLess(p.end.value, d))
    && (p.start.Some? ==> !LexLess(p.end.value, p.start.value))
  }

  lemma PeriodSpans(dates: seq<string>)
    ensures Spans(PeriodOf(dates), dates)
  {
    PeriodStart(dates);
    PeriodEnd(dates);
    PeriodOrdered(dates);
  }
}
