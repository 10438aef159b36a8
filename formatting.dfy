/** The display helpers of the reconciliation screens: the placeholders for
    missing values, the `YYYY-MM-DD` to `DD/MM/YYYY` date rewrite, and the
    sign-dependent text and colour class of a difference. The locale-aware
    number rendering (`Intl.NumberFormat` with the pt-BR locale) is a
    parameter. A missing value (`null` or `undefined`) is `None`. */
module Formatting {
  import opened Types
  import opened Text
  import opened Normalizers

  // ---------------------------------------------------------------------
  // Placeholders for missing numbers

  const MissingCurrency := "R$ —"
  const MissingPercent := "—%"
  const MissingValue := "—"

  /** `formatBRL`: the pt-BR currency rendering of a present value, the
      currency placeholder for a missing one. */
  function FormatBRL(value: Option<real>, currency: real -> string): (r: string)
    ensures value.None? ==> r == MissingCurrency
    ensures value.Some? ==> r == currency(value.value)
  {
    match value
    case None => MissingCurrency
    case Some(v) => currency(v)
  }

  /** `formatPercent`: a value in percent points is rendered as the
      fraction `value / 100` with one decimal place. */
  function FormatPercent(value: Option<real>, percent: real -> string): (r: string)
    ensures value.None? ==> r == MissingPercent
    ensures value.Some? ==> r == percent(value.value / 100.0)
  {
    match value
    case None => MissingPercent
    case Some(v) => percent(v / 100.0)
  }

  /** `formatNumber`: a present value with `decimals` fraction digits. */
  function FormatNumber(value: Option<real>, decimals: nat, number: (real, nat) -> string): (r: string)
    ensures value.None? ==> r == MissingValue
    ensures value.Some? ==> r == number(value.value, decimals)
  {
    match value
    case None => MissingValue
    case Some(v) => number(v, decimals)
  }

  // ---------------------------------------------------------------------
  // formatDateBR

  /** The `i`-th piece of a split, `undefined` (here the empty string)
      past the end. */
  function PartAt(parts: seq<string>, i: nat): string {
    if i < |parts| then parts[i] else ""
  }

  /** `formatDateBR`: `—` for a missing or empty date; otherwise the first
      three `-`-separated pieces `Y`, `M`, `D` become `D/M/Y`, and the
      input is returned unchanged when one of them is missing or empty. */
  function FormatDateBR(date: Option<string>): (r: string)
    ensures date.None? || date.value == "" ==> r == MissingValue
  {
    match date
    case None => MissingValue
    case Some(s) =>
      if s == "" then MissingValue
      else
        var parts := Split(s, '-');
        var year, month, day := PartAt(parts, 0), PartAt(parts, 1), PartAt(parts, 2);
        if year == "" || month == "" || day == "" then s
        else day + "/" + month + "/" + year
  }

  /** Text without a `-` is shown as it is. */
  lemma FormatDateBRNoDash(s: string)
    requires s != "" && '-' !in s
    ensures FormatDateBR(Some(s)) == s
  {
    assert Split(s, '-') == [s];
  }

  /** A piece without a `-`, then a dash: the split starts with the piece. */
  lemma SplitDash(p: string, rest: string)
    requires '-' !in p
    ensures Split(p + "-" + rest, '-') == [p] + Split(rest, '-')
  {
    SplitCons(p, '-', rest);
  }

  /** Three pieces without a `-`, joined by dashes, split back into the
      three. */
  lemma SplitThree(y: string, m: string, d: string)
    requires '-' !in y && '-' !in m && '-' !in d
    ensures Split(y + "-" + (m + "-" + d), '-') == [y, m, d]
  {
    assert Split(d, '-') == [d];
    SplitDash(m, d);
    SplitDash(y, m + "-" + d);
  }

  /** Three pieces without a `-`, then a dash and anything: the split is
      the three pieces and then the split of the rest. */
  lemma SplitThreeMore(y: string, m: string, d: string, rest: string)
    requires '-' !in y && '-' !in m && '-' !in d
    ensures Split(y + "-" + (m + "-" + (d + "-" + rest)), '-') == [y] + ([m] + ([d] + Split(rest, '-')))
  {
    SplitDash(d, rest);
    SplitDash(m, d + "-" + rest);
    SplitDash(y, m + "-" + (d + "-" + rest));
  }

  /** A text of three `-`-separated non-empty pieces is shown as `D/M/Y`
      of them. */
  lemma FormatDateBRPieces(y: string, m: string, d: string)
    requires y != "" && m != "" && d != ""
    requires '-' !in y && '-' !in m && '-' !in d
    ensures FormatDateBR(Some(y + "-" + (m + "-" + d))) == d + "/" + m + "/" + y
  {
    SplitThree(y, m, d);
  }

  /** Whatever follows a third piece is dropped. */
  lemma FormatDateBRExtraPieces(y: string, m: string, d: string, rest: string)
    requires y != "" && m != "" && d != ""
    requires '-' !in y && '-' !in m && '-' !in d
    ensures FormatDateBR(Some(y + "-" + (m + "-" + (d + "-" + rest)))) == d + "/" + m + "/" + y
  {
    var parts := Split(y + "-" + (m + "-" + (d + "-" + rest)), '-');
    SplitThreeMore(y, m, d, rest);
    assert parts[0] == y && parts[1] == m && parts[2] == d;
  }

  /** A text with one dash only is shown as it is. */
  lemma FormatDateBRTwoPieces(y: string, m: string)
    requires '-' !in y && '-' !in m
    ensures FormatDateBR(Some(y + "-" + m)) == y + "-" + m
  {
    SplitCons(y, '-', m);
    assert Split(m, '-') == [m];
  }

  /** Three `-`-separated pieces one of which is empty: shown as they are. */
  lemma FormatDateBREmptyPiece(y: string, m: string, d: string)
    requires '-' !in y && '-' !in m && '-' !in d
    requires y == "" || m == "" || d == ""
    ensures FormatDateBR(Some(y + "-" + (m + "-" + d))) == y + "-" + (m + "-" + d)
  {
    SplitThree(y, m, d);
  }

  /** The same with more pieces after the third: still shown as it is. */
  lemma FormatDateBREmptyPieceMore(y: string, m: string, d: string, rest: string)
    requires '-' !in y && '-' !in m && '-' !in d
    requires y == "" || m == "" || d == ""
    ensures var s := y + "-" + (m + "-" + (d + "-" + rest)); FormatDateBR(Some(s)) == s
  {
    var parts := Split(y + "-" + (m + "-" + (d + "-" + rest)), '-');
    SplitThreeMore(y, m, d, rest);
    assert parts[0] == y && parts[1] == m && parts[2] == d;
  }

  /** An ISO date `YYYY-MM-DD` is shown as `DD/MM/YYYY`. */
  lemma FormatIsoDate(s: string)
    requires IsoDate(s)
    ensures FormatDateBR(Some(s)) == s[8..10] + "/" + s[5..7] + "/" + s[..4]
  {
    IsoPieces(s);
    FormatDateBRPieces(s[..4], s[5..7], s[8..10]);
  }

  /** The pieces of an ISO date: four, two and two digits between dashes. */
  lemma IsoPieces(s: string)
    requires IsoDate(s)
    ensures s == s[..4] + "-" + (s[5..7] + "-" + s[8..10])
    ensures s[..4] != "" && s[5..7] != "" && s[8..10] != ""
    ensures '-' !in s[..4] && '-' !in s[5..7] && '-' !in s[8..10]
  {
    DigitsNoDash(s[..4]);
    DigitsNoDash(s[5..7]);
    DigitsNoDash(s[8..10]);
  }

  lemma DigitsNoDash(s: string)
    requires Digits(s)
    ensures '-' !in s
  {
    forall i | 0 <= i < |s| ensures s[i] != '-' {
      assert IsDigit(s[i]);
    }
  }

  /** A `DD/MM/YYYY` date of digits. */
  predicate BrDate(s: string) {
    |s| == 10 && BrPrefix(s)
  }

  /** `normalizeDate` rewrites a `DD/MM/YYYY` date into `YYYY-MM-DD`. */
  lemma NormalizeBrDate(s: string)
    requires BrDate(s)
    ensures NormalizeDate(s) == s[6..10] + "-" + s[3..5] + "-" + s[..2]
  {
    assert IsDigit(s[..2][0]) && IsDigit(s[6..10][3]);
    assert Trimmed(s);
    BrIsNotIso(s);
  }

  /** The ISO date of a `DD/MM/YYYY` date, written back in `DD/MM/YYYY`
      order, is that date. */
  lemma IsoOfBrDate(s: string)
    requires BrDate(s)
    ensures var iso := s[6..10] + "-" + s[3..5] + "-" + s[..2];
      IsoDate(iso) && iso[8..10] + "/" + iso[5..7] + "/" + iso[..4] == s
  {
    BrRewrite(s);
    var iso := s[6..10] + "-" + s[3..5] + "-" + s[..2];
    assert iso[8..10] == s[..2] && iso[5..7] == s[3..5] && iso[..4] == s[6..10];
    assert s == s[..2] + "/" + s[3..5] + "/" + s[6..10];
  }

  /** The `DD/MM/YYYY` form of an ISO date, rewritten back in ISO order,
      is that date. */
  lemma BrOfIsoDate(s: string)
    requires IsoDate(s)
    ensures var br := s[8..10] + "/" + s[5..7] + "/" + s[..4];
      BrDate(br) && br[6..10] + "-" + br[3..5] + "-" + br[..2] == s
  {
    var br := s[8..10] + "/" + s[5..7] + "/" + s[..4];
    assert br[..2] == s[8..10] && br[3..5] == s[5..7] && br[6..10] == s[..4];
    assert s == s[..4] + "-" + s[5..7] + "-" + s[8..10];
  }

  /** Normalising a `DD/MM/YYYY` date and formatting it again gives the
      date back. */
  lemma FormatNormalizedBrDate(s: string)
    requires BrDate(s)
    ensures FormatDateBR(Some(NormalizeDate(s))) == s
  {
    NormalizeBrDate(s);
    IsoOfBrDate(s);
    FormatIsoDate(s[6..10] + "-" + s[3..5] + "-" + s[..2]);
  }

  /** Formatting an ISO date and normalising the result gives the ISO date
      back. */
  lemma NormalizeFormattedIsoDate(s: string)
    requires IsoDate(s)
    ensures NormalizeDate(FormatDateBR(Some(s))) == s
  {
    FormatIsoDate(s);
    BrOfIsoDate(s);
    NormalizeBrDate(s[8..10] + "/" + s[5..7] + "/" + s[..4]);
  }

  // ---------------------------------------------------------------------
  // formatDifference

  const Muted := "text-muted-foreground"
  const Green := "text-green-600"
  const Red := "text-red-600"

  /** A difference as displayed: its text and its colour class. */
  datatype Difference = Difference(text: string, className: string)

  /** `formatDifference`: a positive difference is green and signed `+`, a
      negative one red, zero and a missing value muted. */
  function FormatDifference(value: Option<real>, currency: real -> string): (r: Difference)
    ensures r.className == Green <==> value.Some? && value.value > 0.0
    ensures r.className == Red <==> value.Some? && value.value < 0.0
    ensures r.className == Muted <==> value.None? || value.value == 0.0
    ensures value.None? ==> r.text == MissingValue
    ensures value.Some? && value.value > 0.0 ==> r.text == "+" + FormatBRL(value, currency)
    ensures value.Some? && value.value <= 0.0 ==> r.text == FormatBRL(value, currency)
  {
    match value
    case None => Difference(MissingValue, Muted)
    case Some(v) =>
      var text := FormatBRL(value, currency);
      if v > 0.0 then Difference("+" + text, Green)
      else if v < 0.0 then Difference(text, Red)
      else Difference(text, Muted)
  }

  /** The colour class depends on the sign of the difference only. */
  lemma DifferenceClassBySign(a: real, b: real, currency: real -> string)
    requires (a > 0.0 <==> b > 0.0) && (a < 0.0 <==> b < 0.0)
    ensures FormatDifference(Some(a), currency).className == FormatDifference(Some(b), currency).className
  {
  }
}
