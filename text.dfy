/** String operations the engine borrows from JavaScript: white space as
    `\s` and `trim` see it, `split` on one character, `includes`, the
    upper/lower case maps (over ASCII and Latin-1 letters) and the code-unit
    comparison behind `<` on strings. */
module Text {
  import opened Types

  /** The characters JavaScript's `\s` and `String.prototype.trim` treat as
      white space: WhiteSpace and LineTerminator of ECMA-262 (tab, line feed,
      vertical tab, form feed, carriage return, space, no-break space, the
      Unicode space separators, the line and paragraph separators and the
      byte order mark). */
  predicate IsWs(c: char) {
    || c == ' ' || '\t' <= c <= '\r' || c == '\U{00A0}' || c == '\U{1680}'
    || '\U{2000}' <= c <= '\U{200A}' || c == '\U{2028}' || c == '\U{2029}'
    || c == '\U{202F}' || c == '\U{205F}' || c == '\U{3000}' || c == '\U{FEFF}'
  }

  /** The characters `.` refuses to match in a regular expression. */
  predicate IsLineTerminator(c: char) {
    c == '\n' || c == '\r' || c == '\U{2028}' || c == '\U{2029}'
  }

  const Nbsp: char := '\U{00A0}'

  /** Neither the first nor the last character is white space. */
  predicate Trimmed(s: string) {
    s == [] || (!IsWs(s[0]) && !IsWs(s[|s| - 1]))
  }

  /** `trimStart`: the leading run of white space is dropped. */
  function TrimStart(s: string): (r: string)
    ensures |r| <= |s| && r == s[|s| - |r|..]
    ensures forall i :: 0 <= i < |s| - |r| ==> IsWs(s[i])
    ensures r == [] || !IsWs(r[0])
    ensures s == [] || !IsWs(s[0]) ==> r == s
  {
    if s != [] && IsWs(s[0]) then
      var r := TrimStart(s[1..]);
      assert s[1..][|s| - 1 - |r|..] == s[|s| - |r|..];
      assert forall i :: 1 <= i < |s| - |r| ==> s[i] == s[1..][i - 1];
      r
    else s
  }

  /** `trimEnd`: the trailing run of white space is dropped. */
  function TrimEnd(s: string): (r: string)
    ensures |r| <= |s| && r == s[..|r|]
    ensures forall i :: |r| <= i < |s| ==> IsWs(s[i])
    ensures r == [] || !IsWs(r[|r| - 1])
    ensures s == [] || !IsWs(s[|s| - 1]) ==> r == s
  {
    if s != [] && IsWs(s[|s| - 1]) then TrimEnd(s[..|s| - 1]) else s
  }

  /** `r` is the slice of `s` starting at `k`, with only white space
      before it and after it. */
  predicate InfixOf(s: string, r: string, k: nat) {
    && k + |r| <= |s| && r == s[k..k + |r|]
    && (forall i :: 0 <= i < k ==> IsWs(s[i]))
    && (forall i :: k + |r| <= i < |s| ==> IsWs(s[i]))
  }

  /** `trim`: the infix of `s` left once both white-space runs are gone. */
  function Trim(s: string): (r: string)
    ensures Trimmed(r)
    ensures Trimmed(s) ==> r == s
    ensures |r| <= |s| && forall c | c in r :: c in s
  {
    var t := TrimStart(s);
    var r := TrimEnd(t);
    TrimBounds(s, t, r);
    r
  }

  /** `trim` removes exactly the two outer white-space runs: its result is
      the slice of `s` that starts after the leading run. */
  lemma TrimIsInfix(s: string)
    ensures exists k :: InfixOf(s, Trim(s), k)
  {
    var t := TrimStart(s);
    TrimBounds(s, t, TrimEnd(t));
    assert InfixOf(s, Trim(s), |s| - |t|);
  }

  /** What `trim` keeps: a white-space run is cut from the front of `s`
      (giving `t`), then one from the back of `t` (giving `r`). */
  lemma TrimBounds(s: string, t: string, r: string)
    requires |t| <= |s| && t == s[|s| - |t|..] && (t == [] || !IsWs(t[0]))
    requires |r| <= |t| && r == t[..|r|] && (r == [] || !IsWs(r[|r| - 1]))
    requires forall i :: |r| <= i < |t| ==> IsWs(t[i])
    ensures Trimmed(r)
    ensures var k := |s| - |t|; k + |r| <= |s| && r == s[k..k + |r|]
    ensures forall i :: |s| - |t| + |r| <= i < |s| ==> IsWs(s[i])
    ensures forall c | c in r :: c in s
  {
    var k := |s| - |t|;
    forall i | k + |r| <= i < |s| ensures IsWs(s[i]) {
      assert s[i] == t[i - k];
    }
    assert forall j :: 0 <= j < |r| ==> r[j] == s[k + j];
  }

  /** Every character of `s` satisfies the white-space test: `trim` empties it. */
  predicate Blank(s: string) {
    forall i :: 0 <= i < |s| ==> IsWs(s[i])
  }

  lemma {:induction false} TrimEmptyIffBlank(s: string)
    ensures Trim(s) == [] <==> Blank(s)
  {
    if s != [] && IsWs(s[0]) {
      TrimEmptyIffBlank(s[1..]);
      assert TrimStart(s) == TrimStart(s[1..]);
    }
  }

  /** `startsWith`. */
  predicate StartsWith(s: string, p: string) {
    |p| <= |s| && s[..|p|] == p
  }

  /** `includes`: `p` occurs somewhere in `s`. */
  predicate Contains(s: string, p: string)
    decreases |s|
  {
    StartsWith(s, p) || (s != [] && Contains(s[1..], p))
  }

  /** `Contains` agrees with the positional definition of an occurrence. */
  lemma {:induction false} ContainsAt(s: string, p: string, i: nat)
    requires i + |p| <= |s| && s[i..i + |p|] == p
    ensures Contains(s, p)
  {
    if i > 0 {
      assert s[1..][i - 1..i - 1 + |p|] == p;
      ContainsAt(s[1..], p, i - 1);
    }
  }

  /** Whatever a suffix of `s` contains, `s` contains. */
  lemma {:induction false} ContainsInSuffix(s: string, u: string, p: string)
    requires |u| <= |s| && u == s[|s| - |u|..] && Contains(u, p)
    ensures Contains(s, p)
    decreases |s|
  {
    if |u| < |s| {
      assert u == s[1..][|s| - 1 - |u|..];
      ContainsInSuffix(s[1..], u, p);
    }
  }

  /** Every character of `p` is inside any string that contains `p`. */
  lemma {:induction false} ContainsChars(s: string, p: string, c: char)
    requires Contains(s, p) && c in p
    ensures c in s
  {
    if StartsWith(s, p) {
      assert c in s[..|p|];
    } else {
      ContainsChars(s[1..], p, c);
    }
  }

  /** The leftmost position, from `from` on, where the pattern `p` matches:
      how a regular-expression search without the `g` flag picks its match. */
  function FirstMatch(s: string, p: (string, nat) -> bool, from: nat): (r: Option<nat>)
    requires from <= |s|
    ensures r.Some? ==> from <= r.value <= |s| && p(s, r.value)
    ensures r.Some? ==> forall k :: from <= k < r.value ==> !p(s, k)
    ensures r.None? ==> forall k :: from <= k <= |s| ==> !p(s, k)
    decreases |s| - from
  {
    if p(s, from) then Some(from)
    else if from == |s| then None
    else FirstMatch(s, p, from + 1)
  }

  /** Position of the first `d` in `s`. */
  function IndexOf(s: string, d: char): (i: nat)
    requires d in s
    ensures i < |s| && s[i] == d && d !in s[..i]
  {
    if s[0] == d then 0 else 1 + IndexOf(s[1..], d)
  }

  /** The pieces of `s` between occurrences of `d`; `String.prototype.split`
      with a one-character separator (so `""` splits into `[""]`). */
  function Split(s: string, d: char): (parts: seq<string>)
    ensures |parts| >= 1
    ensures forall i :: 0 <= i < |parts| ==> d !in parts[i]
    decreases |s|
  {
    if d !in s then [s]
    else
      var i := IndexOf(s, d);
      [s[..i]] + Split(s[i + 1..], d)
  }

  /** Joining the pieces back with the separator gives the text again:
      splitting loses nothing. */
  lemma {:induction false} JoinSplit(s: string, d: char)
    ensures Join(Split(s, d), d) == s
    decreases |s|
  {
    if d in s {
      var i := IndexOf(s, d);
      var rest := Split(s[i + 1..], d);
      JoinSplit(s[i + 1..], d);
      assert ([s[..i]] + rest)[1..] == rest;
      assert s == s[..i] + [d] + s[i + 1..];
    }
  }

  /** The pieces joined back with `d` between them: `Array.prototype.join`. */
  function Join(parts: seq<string>, d: char): string
    requires |parts| >= 1
  {
    if |parts| == 1 then parts[0] else parts[0] + [d] + Join(parts[1..], d)
  }

  /** A separator-free piece followed by the separator splits off first. */
  lemma SplitCons(a: string, d: char, t: string)
    requires d !in a
    ensures Split(a + [d] + t, d) == [a] + Split(t, d)
  {
    var s := a + [d] + t;
    assert s[|a|] == d;
    assert IndexOf(s, d) == |a| by {
      var j := IndexOf(s, d);
      assert forall k :: 0 <= k < |a| ==> s[k] == a[k];
      assert forall k :: 0 <= k < j ==> s[..j][k] == s[k];
    }
    assert s[..|a|] == a;
    assert s[|a| + 1..] == t;
  }

  /** Splitting a join of separator-free pieces gives the pieces back. */
  lemma {:induction false} SplitJoin(parts: seq<string>, d: char)
    requires |parts| >= 1
    requires forall i :: 0 <= i < |parts| ==> d !in parts[i]
    ensures Split(Join(parts, d), d) == parts
  {
    if |parts| > 1 {
      SplitCons(parts[0], d, Join(parts[1..], d));
      SplitJoin(parts[1..], d);
      assert parts == [parts[0]] + parts[1..];
    }
  }

  /** The length of a joined string. */
  lemma {:induction false} JoinLength(parts: seq<string>, d: char)
    requires |parts| >= 1
    ensures |Join(parts, d)| >= |parts[0]| + |parts| - 1
    ensures |parts| >= 3 ==> |Join(parts, d)| >= |parts[0]| + |parts[1]| + |parts[2]| + 2
  {
    if |parts| > 1 {
      JoinLength(parts[1..], d);
    }
  }

  /** `toUpperCase` on one character, for ASCII and Latin-1 letters; the
      micro sign becomes the Greek capital mu. */
  function UpperChar(c: char): char {
    if 'a' <= c <= 'z' then (c as int - 32) as char
    else if c == '\U{00B5}' then '\U{039C}'
    else if '\U{00E0}' <= c <= '\U{00FE}' && c != '\U{00F7}' then (c as int - 32) as char
    else if c == '\U{00FF}' then '\U{0178}'
    else c
  }

  /** `toLowerCase` on one character, for ASCII and Latin-1 letters. */
  function LowerChar(c: char): char {
    if 'A' <= c <= 'Z' then (c as int + 32) as char
    else if '\U{00C0}' <= c <= '\U{00DE}' && c != '\U{00D7}' then (c as int + 32) as char
    else if c == '\U{0178}' then '\U{00FF}'
    else c
  }

  /** `String.prototype.toUpperCase`. */
  function Upper(s: string): (r: string)
    ensures |r| == |s| && forall i :: 0 <= i < |s| ==> r[i] == UpperChar(s[i])
  {
    seq(|s|, i requires 0 <= i < |s| => UpperChar(s[i]))
  }

  /** `String.prototype.toLowerCase`. */
  function Lower(s: string): (r: string)
    ensures |r| == |s| && forall i :: 0 <= i < |s| ==> r[i] == LowerChar(s[i])
  {
    seq(|s|, i requires 0 <= i < |s| => LowerChar(s[i]))
  }

  /** `a < b` on strings: code-unit-wise, a proper prefix before its extensions. */
  predicate LexLess(a: string, b: string)
    decreases |a|
  {
    if a == [] then b != []
    else if b == [] then false
    else if a[0] != b[0] then a[0] < b[0]
    else LexLess(a[1..], b[1..])
  }

  lemma {:induction false} LexLessIrreflexive(a: string)
    ensures !LexLess(a, a)
  {
    if a != [] { LexLessIrreflexive(a[1..]); }
  }

  lemma {:induction false} LexLessTransitive(a: string, b: string, c: string)
    requires LexLess(a, b) && LexLess(b, c)
    ensures LexLess(a, c)
    decreases |a|
  {
    if a != [] && b != [] && c != [] && a[0] == b[0] && b[0] == c[0] {
      LexLessTransitive(a[1..], b[1..], c[1..]);
    }
  }

  /** `<` on strings is total: of two different strings one is the smaller. */
  lemma {:induction false} LexLessTotal(a: string, b: string)
    requires a != b
    ensures LexLess(a, b) || LexLess(b, a)
    decreases |a|
  {
    if a != [] && b != [] && a[0] == b[0] {
      assert a == [a[0]] + a[1..] && b == [b[0]] + b[1..];
      LexLessTotal(a[1..], b[1..]);
    }
  }

  lemma {:induction false} LexLessAsymmetric(a: string, b: string)
    requires LexLess(a, b)
    ensures !LexLess(b, a)
  {
    if LexLess(b, a) {
      LexLessTransitive(a, b, a);
      LexLessIrreflexive(a);
    }
  }

  /** `f` applied to each element of `s`, in order: `Array.prototype.map`. */
  function MapSeq<A, B>(f: A -> B, s: seq<A>): (r: seq<B>)
    ensures |r| == |s| && forall i :: 0 <= i < |s| ==> r[i] == f(s[i])
  {
    if s == [] then [] else MapSeq(f, s[..|s| - 1]) + [f(s[|s| - 1])]
  }

  lemma MapSeqSnoc<A, B>(f: A -> B, s: seq<A>, x: A)
    ensures MapSeq(f, s + [x]) == MapSeq(f, s) + [f(x)]
  {
    assert (s + [x])[..|s|] == s;
  }

  /** One more element of a prefix, mapped. */
  lemma MapSeqPrefix<A, B>(f: A -> B, s: seq<A>, i: nat)
    requires i < |s|
    ensures MapSeq(f, s[..i + 1]) == MapSeq(f, s[..i]) + [f(s[i])]
  {
    assert s[..i + 1][..i] == s[..i];
  }

  /** Every element of `s` is different from the others. */
  predicate Distinct<T(==)>(s: seq<T>) {
    forall i, j :: 0 <= i < j < |s| ==> s[i] != s[j]
  }

  /** The elements of `s` as a set. */
  function Elements<T>(s: seq<T>): set<T> {
    set x | x in s
  }

  /** A sequence without repetitions has as many elements as its set. */
  lemma {:induction false} DistinctCardinality<T>(s: seq<T>)
    requires Distinct(s)
    ensures |Elements(s)| == |s|
  {
    if s != [] {
      DistinctCardinality(s[1..]);
      assert Elements(s) == {s[0]} + Elements(s[1..]);
      assert forall j :: 0 <= j < |s[1..]| ==> s[1..][j] == s[j + 1] != s[0];
      assert s[0] !in Elements(s[1..]);
    }
  }

  // ---------------------------------------------------------------------
  // Cells of a parsed row, shared by both parsers

  /** `row[i] ?? ''`: a missing cell reads as empty. */
  function CellAt(row: seq<string>, i: nat): string {
    if i < |row| then row[i] else ""
  }

  /** The cell, trimmed: `row[i]?.trim() ?? ''`. */
  function Field(row: seq<string>, i: nat): string {
    Trim(CellAt(row, i))
  }
}
