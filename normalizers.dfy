/** Canonical forms used to compare production and repasse records: text,
    patient names, payer (convênio) names and dates; the pipe-joined matching
    key; and the word-overlap test on patient names. */
module Normalizers {
  import opened Types
  import opened Text

  // ---------------------------------------------------------------------
  // normalizeText

  /** A combining diacritical mark (U+0300 to U+036F). */
  predicate IsMark(c: char) {
    '\U{0300}' <= c <= '\U{036F}'
  }

  /** A Latin-1 letter that canonical decomposition (NFD) splits into a base
      letter and a combining mark. */
  predicate Accented(c: char) {
    || ('\U{00C0}' <= c <= '\U{00C5}') || c == '\U{00C7}' || ('\U{00C8}' <= c <= '\U{00CF}')
    || ('\U{00D1}' <= c <= '\U{00D6}') || ('\U{00D9}' <= c <= '\U{00DD}')
    || ('\U{00E0}' <= c <= '\U{00E5}') || c == '\U{00E7}' || ('\U{00E8}' <= c <= '\U{00EF}')
    || ('\U{00F1}' <= c <= '\U{00F6}') || ('\U{00F9}' <= c <= '\U{00FD}')
    || c == '\U{00FF}' || c == '\U{0178}'
  }

  /** The base letter decomposition leaves of an accented letter once its
      mark is deleted; any other character is its own base. */
  function Base(c: char): char {
    if !Accented(c) then c
    else if c <= '\U{00C5}' then 'A'
    else if c == '\U{00C7}' then 'C'
    else if c <= '\U{00CB}' then 'E'
    else if c <= '\U{00CF}' then 'I'
    else if c == '\U{00D1}' then 'N'
    else if c <= '\U{00D6}' then 'O'
    else if c <= '\U{00DC}' then 'U'
    else if c == '\U{00DD}' || c == '\U{0178}' then 'Y'
    else if c <= '\U{00E5}' then 'a'
    else if c == '\U{00E7}' then 'c'
    else if c <= '\U{00EB}' then 'e'
    else if c <= '\U{00EF}' then 'i'
    else if c == '\U{00F1}' then 'n'
    else if c <= '\U{00F6}' then 'o'
    else if c <= '\U{00FC}' then 'u'
    else 'y'
  }

  /** A character that decomposition and mark removal leave alone. */
  predicate Decomposed(c: char) {
    !IsMark(c) && !Accented(c)
  }

  /** A letter that `toUpperCase` changes. */
  predicate Lowercase(c: char) {
    ('a' <= c <= 'z') || c == '\U{00B5}' || ('\U{00E0}' <= c <= '\U{00FF}' && c != '\U{00F7}')
  }

  /** A character that decomposition, mark removal and upper-casing all
      leave alone: the alphabet of normalised text. */
  predicate Folded(c: char) {
    Decomposed(c) && !Lowercase(c)
  }

  lemma BaseIsDecomposed(c: char)
    requires !IsMark(c)
    ensures Decomposed(Base(c))
  {
  }

  lemma UpperOfDecomposedIsFolded(c: char)
    requires Decomposed(c)
    ensures Folded(UpperChar(c))
  {
  }

  lemma FoldedIsFixed(c: char)
    requires Folded(c)
    ensures Base(c) == c && UpperChar(c) == c
  {
  }

  lemma WsIsFolded(c: char)
    requires IsWs(c)
    ensures Folded(c)
  {
  }

  /** `normalize('NFD')` followed by deleting every combining mark. */
  function StripAccents(s: string): (r: string)
    ensures |r| <= |s|
    ensures forall c | c in r :: Decomposed(c)
    ensures (forall c | c in s :: Decomposed(c)) ==> r == s
  {
    if s == [] then []
    else
      assert s[0] in s && forall c | c in s[1..] :: c in s;
      if IsMark(s[0]) then StripAccents(s[1..])
      else
        BaseIsDecomposed(s[0]);
        [Base(s[0])] + StripAccents(s[1..])
  }

  /** Positions `i` and `i + 1` of `s` both hold a plain space. */
  predicate DoubleSpaceAt(s: string, i: nat) {
    i + 1 < |s| && s[i] == ' ' && s[i + 1] == ' '
  }

  /** Every white-space character is a plain space and no two spaces touch. */
  predicate SingleSpaced(s: string) {
    && (forall i :: 0 <= i < |s| ==> IsWs(s[i]) ==> s[i] == ' ')
    && (forall i :: 0 <= i < |s| ==> !DoubleSpaceAt(s, i))
  }

  /** `replace(/\s+/g, ' ')`: every maximal run of white space becomes one space. */
  function CollapseWs(s: string): (r: string)
    ensures s == [] <==> r == []
    ensures s != [] ==> r[0] == if IsWs(s[0]) then ' ' else s[0]
    decreases |s|
  {
    if s == [] then []
    else if IsWs(s[0]) then [' '] + CollapseWs(TrimStart(s))
    else [s[0]] + CollapseWs(s[1..])
  }

  /** No two spaces touch after collapsing, and every white-space character
      left is a plain space. */
  lemma {:induction false} CollapseSingleSpaced(s: string)
    ensures SingleSpaced(CollapseWs(s))
    decreases |s|
  {
    if s != [] {
      var r := CollapseWs(s);
      var tail := if IsWs(s[0]) then TrimStart(s) else s[1..];
      var rest := CollapseWs(tail);
      CollapseSingleSpaced(tail);
      assert r == [r[0]] + rest;
      assert IsWs(' ');
      assert IsWs(s[0]) && rest != [] ==> rest[0] != ' ';
      forall i | 0 <= i < |r| ensures (IsWs(r[i]) ==> r[i] == ' ') && !DoubleSpaceAt(r, i) {
        if i > 0 {
          assert r[i] == rest[i - 1];
          assert !DoubleSpaceAt(rest, i - 1);
        } else if |r| > 1 {
          assert r[1] == rest[0];
        }
      }
    }
  }

  /** A collapsed string holds spaces and the non-white-space characters of
      the original. */
  lemma {:induction false} CollapseChars(s: string, c: char)
    requires c in CollapseWs(s)
    ensures c == ' ' || (c in s && !IsWs(c))
    decreases |s|
  {
    var k := if IsWs(s[0]) then |s| - |TrimStart(s)| else 1;
    var tail := s[k..];
    assert tail == if IsWs(s[0]) then TrimStart(s) else s[1..];
    assert CollapseWs(s) == [CollapseWs(s)[0]] + CollapseWs(tail);
    if c != CollapseWs(s)[0] {
      CollapseChars(tail, c);
      if c != ' ' {
        InSuffix(s, k, c);
      }
    }
  }

  lemma InSuffix(s: string, k: nat, c: char)
    requires k <= |s| && c in s[k..]
    ensures c in s
  {
    var i :| 0 <= i < |s[k..]| && s[k..][i] == c;
    assert s[k + i] == c;
  }

  /** A last character that is not white space survives collapsing. */
  lemma {:induction false} CollapseLast(s: string)
    requires s != [] && !IsWs(s[|s| - 1])
    ensures var r := CollapseWs(s); r != [] && r[|r| - 1] == s[|s| - 1]
    decreases |s|
  {
    var tail := if IsWs(s[0]) then TrimStart(s) else s[1..];
    assert tail == s[|s| - |tail|..];
    if tail != [] {
      assert tail[|tail| - 1] == s[|s| - 1];
      CollapseLast(tail);
    }
  }

  /** Text already single-spaced is left alone. */
  lemma {:induction false} CollapseFixed(s: string)
    requires SingleSpaced(s)
    ensures CollapseWs(s) == s
    decreases |s|
  {
    if s != [] {
      assert SingleSpaced(s[1..]) by {
        forall i | 0 <= i < |s| - 1 ensures !DoubleSpaceAt(s[1..], i) {
          assert !DoubleSpaceAt(s, i + 1);
        }
      }
      if IsWs(s[0]) && |s| > 1 {
        assert !DoubleSpaceAt(s, 0);
        assert s[0] == ' ' && s[1] != ' ';
        assert TrimStart(s) == TrimStart(s[1..]);
      }
      CollapseFixed(s[1..]);
      assert s == [s[0]] + s[1..];
    }
  }

  /** `replace(/\u00A0/g, ' ')`: no-break spaces become plain spaces. */
  function ReplaceNbsp(s: string): (r: string)
    ensures |r| == |s| && forall i :: 0 <= i < |s| ==> r[i] == (if s[i] == Nbsp then ' ' else s[i])
  {
    seq(|s|, i requires 0 <= i < |s| => if s[i] == Nbsp then ' ' else s[i])
  }

  /** What `normalizeText` returns: no surrounding white space, single plain
      spaces between words, and only characters that normalising keeps. */
  predicate Normalized(s: string) {
    Trimmed(s) && SingleSpaced(s) && forall c | c in s :: Folded(c)
  }

  /** Upper-casing text free of accents and marks gives normalised characters. */
  lemma UpperFolds(s: string)
    requires forall c | c in s :: Decomposed(c)
    ensures forall c | c in Upper(s) :: Folded(c)
  {
    forall c | c in Upper(s) ensures Folded(c) {
      var i :| 0 <= i < |s| && Upper(s)[i] == c;
      UpperOfDecomposedIsFolded(s[i]);
    }
  }

  /** The first four steps of `normalizeText`: trim, strip accents,
      upper-case, trim again. */
  function FoldText(s: string): (r: string)
    ensures Trimmed(r) && forall c | c in r :: Folded(c)
    ensures Blank(s) ==> r == []
  {
    var stripped := StripAccents(Trim(s));
    UpperFolds(stripped);
    TrimEmptyIffBlank(s);
    Trim(Upper(stripped))
  }

  /** Collapsing the white space of folded, trimmed text normalises it. */
  lemma CollapseNormalizes(f: string)
    requires Trimmed(f) && forall c | c in f :: Folded(c)
    ensures Normalized(CollapseWs(f))
  {
    var r := CollapseWs(f);
    CollapseSingleSpaced(f);
    if f != [] {
      CollapseLast(f);
    }
    WsIsFolded(' ');
    forall c | c in r ensures Folded(c) {
      CollapseChars(f, c);
    }
  }

  /** Text whose only white space is plain spaces has no no-break space. */
  lemma NoNbspIn(s: string)
    requires SingleSpaced(s)
    ensures ReplaceNbsp(s) == s
  {
    assert IsWs(Nbsp) && Nbsp != ' ';
  }

  /** Trim, strip accents, upper-case, trim, collapse white space, turn
      no-break spaces into spaces, trim. */
  function NormalizeText(s: string): (r: string)
    ensures Normalized(r)
    ensures Blank(s) ==> r == []
  {
    if s == [] then []
    else
      var folded := FoldText(s);
      var collapsed := CollapseWs(folded);
      CollapseNormalizes(folded);
      NoNbspIn(collapsed);
      Trim(ReplaceNbsp(collapsed))
  }

  /** Normalised text is a fixed point of `NormalizeText`. */
  lemma NormalizedIsFixed(s: string)
    requires Normalized(s)
    ensures NormalizeText(s) == s
  {
    if s != [] {
      assert Trim(s) == s;
      assert StripAccents(s) == s;
      forall i | 0 <= i < |s| ensures Upper(s)[i] == s[i] {
        FoldedIsFixed(s[i]);
      }
      assert Upper(s) == s;
      assert FoldText(s) == s;
      CollapseFixed(s);
      NoNbspIn(s);
    }
  }

  /** `normalizeText` is idempotent. */
  lemma NormalizeTextIdempotent(s: string)
    ensures NormalizeText(NormalizeText(s)) == NormalizeText(s)
  {
    NormalizedIsFixed(NormalizeText(s));
  }

  // ---------------------------------------------------------------------
  // What `normalizeText` keeps of its input

  /** The characters of `s` that are not combining marks, in order. */
  function Unmarked(s: string): (u: string)
    ensures |u| <= |s|
    ensures forall c | c in u :: c in s && !IsMark(c)
  {
    if s == [] then []
    else (if IsMark(s[0]) then [] else [s[0]]) + Unmarked(s[1..])
  }

  /** Accent stripping maps every non-mark character to its base letter, in
      order, and drops the marks. */
  lemma {:induction false} StripAccentsContent(s: string)
    ensures StripAccents(s) == MapSeq(Base, Unmarked(s))
  {
    if s != [] {
      StripAccentsContent(s[1..]);
      var head := if IsMark(s[0]) then [] else [s[0]];
      var m := MapSeq(Base, Unmarked(s[1..]));
      assert MapSeq(Base, head + Unmarked(s[1..])) == MapSeq(Base, head) + m;
    }
  }

  /** The words of `s` read from its start, `cur` being the part of a word
      already read: the maximal runs of non-white-space characters, in
      order. */
  function WordsFrom(cur: string, s: string): seq<string>
    decreases |s|
  {
    if s == [] then (if cur == [] then [] else [cur])
    else if IsWs(s[0]) then (if cur == [] then [] else [cur]) + WordsFrom([], s[1..])
    else WordsFrom(cur + [s[0]], s[1..])
  }

  /** The white-space separated words of `s`. */
  function WsWords(s: string): seq<string> {
    WordsFrom([], s)
  }

  /** Words joined by single spaces. */
  function Unwords(words: seq<string>): string {
    if words == [] then [] else Join(words, ' ')
  }

  /** White space before the text does not change its words. */
  lemma {:induction false} WordsBlankPrefix(pre: string, t: string)
    requires Blank(pre)
    ensures WordsFrom([], pre + t) == WordsFrom([], t)
  {
    if pre != [] {
      assert (pre + t)[0] == pre[0] && IsWs(pre[0]);
      assert (pre + t)[1..] == pre[1..] + t;
      assert WsWords(pre + t) == WsWords(pre[1..] + t);
      assert Blank(pre[1..]) by {
        forall i | 0 <= i < |pre| - 1 ensures IsWs(pre[1..][i]) {
          assert pre[1..][i] == pre[i + 1];
        }
      }
      WordsBlankPrefix(pre[1..], t);
    } else {
      assert pre + t == t;
    }
  }

  /** White space after the text does not change its words. */
  lemma {:induction false} WordsBlankSuffix(cur: string, t: string, post: string)
    requires Blank(post)
    ensures WordsFrom(cur, t + post) == WordsFrom(cur, t)
    decreases |t|
  {
    if t == [] {
      assert t + post == post;
      if post != [] {
        WordsBlankPrefix(post[1..], []);
        assert post[1..] + [] == post[1..];
      }
    } else {
      assert (t + post)[1..] == t[1..] + post;
      if IsWs(t[0]) {
        WordsBlankSuffix([], t[1..], post);
      } else {
        WordsBlankSuffix(cur + [t[0]], t[1..], post);
      }
    }
  }

  /** `pre + t + post` with blank `pre` and `post` has the words of `t`. */
  lemma WordsPadded(pre: string, t: string, post: string)
    requires Blank(pre) && Blank(post)
    ensures WsWords(pre + t + post) == WsWords(t)
  {
    WordsBlankPrefix(pre, t + post);
    assert pre + t + post == pre + (t + post);
    WordsBlankSuffix([], t, post);
  }

  /** `s` is its trimmed form with a blank run before and after it; `k` is
      where the trimmed form starts. */
  lemma TrimPadding(s: string) returns (k: nat)
    ensures k + |Trim(s)| <= |s|
    ensures Blank(s[..k]) && Blank(s[k + |Trim(s)|..])
    ensures s == s[..k] + Trim(s) + s[k + |Trim(s)|..]
  {
    var r := Trim(s);
    TrimIsInfix(s);
    k :| InfixOf(s, r, k);
    var e := k + |r|;
    assert Blank(s[..k]) by {
      forall i | 0 <= i < k ensures IsWs(s[..k][i]) {
        assert s[..k][i] == s[i];
      }
    }
    assert Blank(s[e..]) by {
      forall i | 0 <= i < |s| - e ensures IsWs(s[e..][i]) {
        assert s[e..][i] == s[e + i];
      }
    }
    assert s[..k] + s[k..e] == s[..e];
    assert s[..e] + s[e..] == s;
  }

  /** Trimming keeps the words. */
  lemma WordsTrim(s: string)
    ensures WsWords(Trim(s)) == WsWords(s)
  {
    var k := TrimPadding(s);
    WordsPadded(s[..k], Trim(s), s[k + |Trim(s)|..]);
  }

  /** A leading white-space run is skipped between words. */
  lemma {:induction false} WordsTrimStart(s: string)
    ensures WordsFrom([], TrimStart(s)) == WordsFrom([], s)
  {
    if s != [] && IsWs(s[0]) {
      WordsTrimStart(s[1..]);
    }
  }

  /** Collapsing white space keeps the words, and so every non-white-space
      character, in order. */
  lemma {:induction false} CollapseWords(cur: string, s: string)
    ensures WordsFrom(cur, CollapseWs(s)) == WordsFrom(cur, s)
    decreases |s|
  {
    if s != [] {
      var c := CollapseWs(s);
      if IsWs(s[0]) {
        var t := TrimStart(s);
        assert c[1..] == CollapseWs(t) && IsWs(c[0]);
        CollapseWords([], t);
        assert t == TrimStart(s[1..]);
        WordsTrimStart(s[1..]);
      } else {
        assert c[1..] == CollapseWs(s[1..]) && c[0] == s[0];
        CollapseWords(cur + [s[0]], s[1..]);
      }
    }
  }

  /** Accent stripping and upper-casing map white space to itself. */
  lemma FoldWs(s: string)
    requires Blank(s)
    ensures Upper(StripAccents(s)) == s
  {
    forall c | c in s ensures Decomposed(c) {
      WsIsFolded(c);
    }
    forall i | 0 <= i < |s| ensures UpperChar(s[i]) == s[i] {
      WsIsFolded(s[i]);
      FoldedIsFixed(s[i]);
    }
  }

  lemma StripAccentsCons(c: char, t: string)
    ensures StripAccents([c] + t) == (if IsMark(c) then [] else [Base(c)]) + StripAccents(t)
  {
    assert ([c] + t)[0] == c && ([c] + t)[1..] == t;
  }

  lemma {:induction false} StripAccentsConcat(a: string, b: string)
    ensures StripAccents(a + b) == StripAccents(a) + StripAccents(b)
  {
    if a == [] {
      assert a + b == b;
    } else {
      var c, x := a[0], a[1..];
      var head := if IsMark(c) then [] else [Base(c)];
      calc {
        StripAccents(a + b);
        { assert a + b == [c] + (x + b); }
        StripAccents([c] + (x + b));
        { StripAccentsCons(c, x + b); }
        head + StripAccents(x + b);
        { StripAccentsConcat(x, b); }
        head + (StripAccents(x) + StripAccents(b));
        (head + StripAccents(x)) + StripAccents(b);
        { assert a == [c] + x; StripAccentsCons(c, x); }
        StripAccents(a) + StripAccents(b);
      }
    }
  }

  lemma UpperConcat(a: string, b: string)
    ensures Upper(a + b) == Upper(a) + Upper(b)
  {
  }

  /** The folded form of `s`: accents stripped, then upper-cased. */
  function Fold(s: string): string {
    Upper(StripAccents(s))
  }

  lemma FoldPadded(pre: string, t: string, post: string)
    requires Blank(pre) && Blank(post)
    ensures Fold(pre + t + post) == pre + Fold(t) + post
  {
    StripAccentsConcat(pre + t, post);
    StripAccentsConcat(pre, t);
    UpperConcat(StripAccents(pre) + StripAccents(t), StripAccents(post));
    UpperConcat(StripAccents(pre), StripAccents(t));
    FoldWs(pre);
    FoldWs(post);
  }

  /** The trims around the folding steps keep the words of the folded
      input. */
  lemma FoldTextWords(s: string)
    ensures WsWords(FoldText(s)) == WsWords(Fold(s))
  {
    var k := TrimPadding(s);
    var t := Trim(s);
    var pre, post := s[..k], s[k + |t|..];
    assert FoldText(s) == Trim(Fold(t));
    FoldPadded(pre, t, post);
    WordsTrim(Fold(t));
    WordsPadded(pre, Fold(t), post);
  }

  /** Normalised text is its words joined by single spaces. */
  lemma {:induction false} UnwordsFrom(cur: string, x: string)
    requires forall c | c in cur :: !IsWs(c)
    requires SingleSpaced(x) && (x == [] || !IsWs(x[|x| - 1]))
    requires cur == [] && x != [] ==> !IsWs(x[0])
    ensures Unwords(WordsFrom(cur, x)) == cur + x
    decreases |x|
  {
    if x == [] {
      assert cur + x == cur;
    } else {
      assert SingleSpaced(x[1..]) by {
        forall i | 0 <= i < |x| - 1 ensures !DoubleSpaceAt(x[1..], i) {
          assert !DoubleSpaceAt(x, i + 1);
        }
      }
      if IsWs(x[0]) {
        assert x[0] == ' ' && |x| > 1;
        assert !DoubleSpaceAt(x, 0);
        UnwordsFrom([], x[1..]);
        var w := WordsFrom([], x[1..]);
        assert w != [];
        assert WordsFrom(cur, x) == [cur] + w;
        assert ([cur] + w)[1..] == w;
        assert x == [' '] + x[1..];
      } else {
        UnwordsFrom(cur + [x[0]], x[1..]);
        assert cur + [x[0]] + x[1..] == cur + x;
      }
    }
  }

  /** `normalizeText` gives the words of the accent-stripped, upper-cased
      input, joined by single spaces: the white-space runs between words
      become one space, and the runs at either end disappear. */
  lemma NormalizeTextWords(s: string)
    ensures NormalizeText(s) == Unwords(WsWords(Fold(s)))
  {
    var r := NormalizeText(s);
    if s == [] {
      assert Fold(s) == [];
    } else {
      var folded := FoldText(s);
      var collapsed := CollapseWs(folded);
      CollapseNormalizes(folded);
      NoNbspIn(collapsed);
      assert r == collapsed;
      CollapseWords([], folded);
      FoldTextWords(s);
      UnwordsFrom([], r);
    }
  }

  /** A single word normalises to its folded form. */
  lemma NormalizeWord(s: string)
    requires forall c | c in s :: !IsWs(c)
    ensures NormalizeText(s) == Fold(s)
  {
    NormalizeTextWords(s);
    FoldKeepsNonWs(s);
    WordsOfWord([], Fold(s));
    assert [] + Fold(s) == Fold(s);
  }

  /** Folding a character that is neither white space nor a mark gives no
      white space. */
  lemma FoldCharNotWs(c: char)
    requires !IsWs(c) && !IsMark(c)
    ensures !IsWs(UpperChar(Base(c)))
  {
  }

  /** Folding text without white space gives none. */
  lemma FoldKeepsNonWs(s: string)
    requires forall c | c in s :: !IsWs(c)
    ensures forall c | c in Fold(s) :: !IsWs(c)
  {
    StripAccentsContent(s);
    var u := Unmarked(s);
    var m := StripAccents(s);
    forall i | 0 <= i < |m| ensures !IsWs(Fold(s)[i]) {
      assert m[i] == Base(u[i]) && u[i] in u;
      FoldCharNotWs(u[i]);
    }
  }

  /** A string without white space is one word (or none when empty). */
  lemma {:induction false} WordsOfWord(cur: string, w: string)
    requires forall c | c in w :: !IsWs(c)
    ensures WordsFrom(cur, w) == if cur + w == [] then [] else [cur + w]
    decreases |w|
  {
    if w != [] {
      assert w[0] in w;
      WordsOfWord(cur + [w[0]], w[1..]);
      assert cur + [w[0]] + w[1..] == cur + w;
    } else {
      assert cur + w == cur;
    }
  }

  /** A word of ASCII letters normalises to its upper-case form: for
      example `consulta` becomes `CONSULTA`. */
  lemma NormalizeAsciiWord(s: string)
    requires forall i :: 0 <= i < |s| ==> 'a' <= s[i] <= 'z' || 'A' <= s[i] <= 'Z'
    ensures NormalizeText(s) == Upper(s)
  {
    assert forall c | c in s :: !IsWs(c) && Decomposed(c);
    NormalizeWord(s);
  }

  // ---------------------------------------------------------------------
  // normalizePatientName

  /** The titles removed from the front of a patient name. */
  const Titles: seq<string> := ["DR.", "DRA.", "SR.", "SRA."]

  /** `t` begins with one of the titles. */
  predicate HasTitle(t: string) {
    exists title | title in Titles :: StartsWith(t, title)
  }

  /** `r` is what is left of `t` after a leading title and the white space
      after it. */
  predicate TitleRemoved(t: string, r: string) {
    exists title | title in Titles ::
      StartsWith(t, title) && |title| <= |t| - |r| && Blank(t[|title|..|t| - |r|])
  }

  /** Dropping `n` characters and then the white space after them. */
  lemma TrimStartAfter(t: string, n: nat, r: string)
    requires n <= |t| && r == TrimStart(t[n..])
    ensures |r| <= |t| - n && r == t[|t| - |r|..] && (r == [] || !IsWs(r[0]))
    ensures Blank(t[n..|t| - |r|])
  {
    BlankBetween(t, n, t[n..], r);
  }

  /** A white-space run skipped in `t[n..]` is a blank slice of `t`. */
  lemma BlankBetween(t: string, n: nat, u: string, r: string)
    requires n <= |t| && u == t[n..] && |r| <= |u| && r == u[|u| - |r|..]
    requires forall i :: 0 <= i < |u| - |r| ==> IsWs(u[i])
    ensures r == t[|t| - |r|..] && Blank(t[n..|t| - |r|])
  {
    var w := t[n..|t| - |r|];
    forall j | 0 <= j < |w| ensures IsWs(w[j]) {
      assert w[j] == u[j];
    }
  }

  // replace(/^(DR\.|DRA\.|SR\.|SRA\.)\s*/g, ''): the anchored pattern can
  // match only at the start, so at most one title goes, with the white
  // space after it.
  function StripTitle(t: string): (r: string)
    ensures |r| <= |t| && r == t[|t| - |r|..]
    ensures r == t || r == [] || !IsWs(r[0])
    ensures r != t ==> TitleRemoved(t, r)
    ensures HasTitle(t) ==> r != t && TitleRemoved(t, r)
    ensures !HasTitle(t) ==> r == t
  {
    NoTitle(t);
    HasTitleStrips(t);
    StripTitleRemoves(t, 0);
    StripTitleFrom(t, 0)
  }

  /** The alternation tried from `Titles[i]` on, leftmost alternative first. */
  function StripTitleFrom(t: string, i: nat): (r: string)
    requires i <= |Titles|
    ensures |r| <= |t| && r == t[|t| - |r|..]
    ensures r == t || r == [] || !IsWs(r[0])
    decreases |Titles| - i
  {
    if i == |Titles| then t
    else if StartsWith(t, Titles[i]) then Untitled(t, Titles[i])
    else StripTitleFrom(t, i + 1)
  }

  /** Whatever the alternation changes is a title and the white space after
      it, and it changes nothing when no alternative is left to match. */
  lemma {:induction false} StripTitleRemoves(t: string, i: nat)
    requires i <= |Titles|
    ensures StripTitleFrom(t, i) != t ==> TitleRemoved(t, StripTitleFrom(t, i))
    ensures (forall j :: i <= j < |Titles| ==> !StartsWith(t, Titles[j])) ==> StripTitleFrom(t, i) == t
    decreases |Titles| - i
  {
    if i < |Titles| {
      if StartsWith(t, Titles[i]) {
        UntitledRemoves(t, i);
      } else {
        StripTitleRemoves(t, i + 1);
      }
    }
  }

  /** When some alternative from `Titles[i]` on matches, the alternation
      removes at least that alternative's characters. */
  lemma {:induction false} TitleFound(t: string, i: nat)
    requires i <= |Titles|
    ensures (exists j :: i <= j < |Titles| && StartsWith(t, Titles[j])) ==> StripTitleFrom(t, i) != t
    decreases |Titles| - i
  {
    if i < |Titles| && !StartsWith(t, Titles[i]) {
      TitleFound(t, i + 1);
    }
  }

  /** A name with a title is changed by the alternation. */
  lemma HasTitleStrips(t: string)
    ensures HasTitle(t) ==> StripTitleFrom(t, 0) != t
  {
    if HasTitle(t) {
      var title :| title in Titles && StartsWith(t, title);
      var j :| 0 <= j < |Titles| && Titles[j] == title;
      TitleFound(t, 0);
    }
  }

  /** A name with no title starts with none of the four alternatives. */
  lemma NoTitle(t: string)
    ensures !HasTitle(t) ==> forall i :: 0 <= i < |Titles| ==> !StartsWith(t, Titles[i])
  {
    forall i | 0 <= i < |Titles| ensures !HasTitle(t) ==> !StartsWith(t, Titles[i]) {
      assert Titles[i] in Titles;
    }
  }

  /** `t` without its leading `title` and the white space after it. */
  function Untitled(t: string, title: string): (r: string)
    requires StartsWith(t, title)
    ensures |r| <= |t| && r == t[|t| - |r|..] && (r == [] || !IsWs(r[0]))
    ensures |title| <= |t| - |r| && Blank(t[|title|..|t| - |r|])
  {
    var r := TrimStart(t[|title|..]);
    TrimStartAfter(t, |title|, r);
    r
  }

  /** Removing one of the titles is a title removal. */
  lemma UntitledRemoves(t: string, i: nat)
    requires i < |Titles| && StartsWith(t, Titles[i])
    ensures TitleRemoved(t, Untitled(t, Titles[i]))
  {
    assert Titles[i] in Titles;
  }

  /** A suffix of normalised text that starts at a word is normalised. */
  lemma SuffixNormalized(t: string, r: string)
    requires Normalized(t) && |r| <= |t| && r == t[|t| - |r|..]
    requires r == [] || !IsWs(r[0])
    ensures Normalized(r)
  {
    var k := |t| - |r|;
    assert forall i :: 0 <= i < |r| ==> r[i] == t[k + i];
    assert forall c | c in r :: c in t;
    forall i | 0 <= i < |r| ensures !DoubleSpaceAt(r, i) {
      assert !DoubleSpaceAt(t, k + i);
    }
  }

  lemma StripTitleNormalized(t: string)
    requires Normalized(t)
    ensures Normalized(StripTitle(t))
  {
    var r := StripTitle(t);
    if r != t {
      SuffixNormalized(t, r);
    }
  }

  /** `normalizePatientName`: normalised text without a leading title. */
  function NormalizePatientName(s: string): (r: string)
    ensures Normalized(r)
    ensures Blank(s) ==> r == []
    ensures var t := NormalizeText(s); |r| <= |t| && r == t[|t| - |r|..]
    ensures var t := NormalizeText(s); HasTitle(t) ==> r != t && TitleRemoved(t, r)
    ensures var t := NormalizeText(s); !HasTitle(t) ==> r == t
  {
    var t := NormalizeText(s);
    StripTitleNormalized(t);
    var r := StripTitle(t);
    assert Blank(s) ==> t == [];
    r
  }

  // ---------------------------------------------------------------------
  // normalizeConvenio

  // replace(/^\|\s*/, '')
  function DropLeadingPipe(s: string): (r: string)
    ensures |r| <= |s| && r == s[|s| - |r|..]
    ensures s != [] && s[0] == '|' ==> r == TrimStart(s[1..]) && |r| < |s|
    ensures s == [] || s[0] != '|' ==> r == s
  {
    if s != [] && s[0] == '|' then TrimStart(s[1..]) else s
  }

  /** `\s*-\s*HOSPITAL\s+.*$` matches at position `i` of `s`. */
  predicate HospitalSuffixAt(s: string, i: nat) {
    && i <= |s|
    && var a := TrimStart(s[i..]);
    && a != [] && a[0] == '-'
    && var b := TrimStart(a[1..]);
    && |b| > 8 && b[..8] == "HOSPITAL" && IsWs(b[8])
    && forall c | c in TrimStart(b[8..]) :: !IsLineTerminator(c)
  }

  /** `replace(/\s*-\s*HOSPITAL\s+.*$/, '')`: everything from the leftmost
      match to the end is cut. */
  function CutHospital(s: string): (r: string)
    ensures |r| <= |s| && r == s[..|r|]
    ensures r != s ==> HospitalSuffixAt(s, |r|) && forall k :: 0 <= k < |r| ==> !HospitalSuffixAt(s, k)
    ensures r == s ==> forall k :: 0 <= k < |s| ==> !HospitalSuffixAt(s, k)
  {
    match FirstMatch(s, HospitalSuffixAt, 0)
    case Some(i) => assert |s[..i]| == i; s[..i]
    case None => s
  }

  /** `\s*\(INATIVO\)\s*` matches at position `i` of `s`. */
  predicate InativoAt(s: string, i: nat) {
    i <= |s| && StartsWith(TrimStart(s[i..]), "(INATIVO)")
  }

  /** `i` is the leftmost position where the marker pattern matches. */
  predicate LeftmostInativo(s: string, i: nat) {
    InativoAt(s, i) && forall k :: 0 <= k < i ==> !InativoAt(s, k)
  }

  /** `s` with the marker matched at `i` and the white space around it cut out. */
  function Excise(s: string, i: nat): (r: string)
    requires InativoAt(s, i)
    ensures |r| <= |s| - 9
  {
    s[..i] + TrimStart(TrimStart(s[i..])[9..])
  }

  // replace(/\s*\(INATIVO\)\s*/, ''): the leftmost marker goes, with the
  // white space on both sides of it.
  function RemoveInativo(s: string): (r: string)
    ensures (forall k :: 0 <= k <= |s| ==> !InativoAt(s, k)) ==> r == s
    ensures forall i :: 0 <= i <= |s| && LeftmostInativo(s, i) ==> r == Excise(s, i)
    ensures |r| <= |s|
  {
    match FirstMatch(s, InativoAt, 0)
    case Some(i) =>
      assert forall j :: 0 <= j <= |s| && LeftmostInativo(s, j) ==> j == i;
      Excise(s, i)
    case None => s
  }

  /** A normalised payer name: no leading pipe, no hospital suffix, no
      first `(INATIVO)` marker, trimmed. */
  function NormalizeConvenio(s: string): (r: string)
    ensures Trimmed(r)
    ensures |r| <= |NormalizeText(s)|
  {
    Trim(RemoveInativo(CutHospital(DropLeadingPipe(NormalizeText(s)))))
  }

  /** A hospital suffix contains the word `HOSPITAL`. */
  lemma HospitalSuffixContains(t: string, k: nat)
    requires HospitalSuffixAt(t, k)
    ensures Contains(t, "HOSPITAL")
  {
    var a := TrimStart(t[k..]);
    DashWordContains(a, "HOSPITAL");
    ContainsInSuffix(t[k..], a, "HOSPITAL");
    ContainsInSuffix(t, t[k..], "HOSPITAL");
  }

  /** A string whose tail, once trimmed at the front, starts with `w`
      contains `w`. */
  lemma DashWordContains(a: string, w: string)
    requires a != [] && var b := TrimStart(a[1..]); |w| <= |b| && b[..|w|] == w
    ensures Contains(a, w)
  {
    var b := TrimStart(a[1..]);
    ContainsAt(b, w, 0);
    ContainsInSuffix(a[1..], b, w);
    ContainsInSuffix(a, a[1..], w);
  }

  /** Text without `HOSPITAL` has no hospital suffix to cut. */
  lemma NoHospitalNoCut(t: string)
    requires !Contains(t, "HOSPITAL")
    ensures CutHospital(t) == t
  {
    forall k | 0 <= k < |t| ensures !HospitalSuffixAt(t, k) {
      if HospitalSuffixAt(t, k) {
        HospitalSuffixContains(t, k);
      }
    }
  }

  /** A marker match contains the marker. */
  lemma InativoContains(t: string, k: nat)
    requires InativoAt(t, k)
    ensures Contains(t, "(INATIVO)")
  {
    var a := TrimStart(t[k..]);
    var j := |t| - |a|;
    assert a == t[j..];
    assert t[j..j + 9] == a[..9];
    ContainsAt(t, "(INATIVO)", j);
  }

  /** Text without `(INATIVO)` has no marker to remove. */
  lemma NoMarkerNoRemoval(t: string)
    requires !Contains(t, "(INATIVO)")
    ensures RemoveInativo(t) == t
  {
    forall k | 0 <= k <= |t| ensures !InativoAt(t, k) {
      if InativoAt(t, k) {
        InativoContains(t, k);
      }
    }
  }

  /** A payer name led by a pipe, with no `HOSPITAL` and no `(INATIVO)`,
      loses the pipe and the white space after it and nothing else. */
  lemma PipedConvenio(s: string)
    requires var t := NormalizeText(s);
      && t != [] && t[0] == '|' && !Contains(t, "HOSPITAL") && !Contains(t, "(INATIVO)")
    ensures var t := NormalizeText(s); NormalizeConvenio(s) == TrimStart(t[1..])
  {
    var t := NormalizeText(s);
    var u := DropLeadingPipe(t);
    if Contains(u, "HOSPITAL") {
      ContainsInSuffix(t, u, "HOSPITAL");
    }
    if Contains(u, "(INATIVO)") {
      ContainsInSuffix(t, u, "(INATIVO)");
    }
    NoHospitalNoCut(u);
    NoMarkerNoRemoval(u);
    assert Trimmed(u);
  }

  /** A payer name with no leading pipe, no `HOSPITAL` and no `(INATIVO)` is
      left as `normalizeText` made it. */
  lemma PlainConvenioUnchanged(s: string)
    requires var t := NormalizeText(s);
      && (t == [] || t[0] != '|') && !Contains(t, "HOSPITAL") && !Contains(t, "(INATIVO)")
    ensures NormalizeConvenio(s) == NormalizeText(s)
  {
    var t := NormalizeText(s);
    assert DropLeadingPipe(t) == t;
    NoHospitalNoCut(t);
    NoMarkerNoRemoval(t);
  }

  // ---------------------------------------------------------------------
  // normalizeDate (string values)

  predicate IsDigit(c: char) {
    '0' <= c <= '9'
  }

  predicate Digits(s: string) {
    forall i :: 0 <= i < |s| ==> IsDigit(s[i])
  }

  /** `^(\d{4})-(\d{2})-(\d{2})`. */
  predicate IsoPrefix(s: string) {
    |s| >= 10 && Digits(s[..4]) && s[4] == '-' && Digits(s[5..7]) && s[7] == '-' && Digits(s[8..10])
  }

  /** `^(\d{2})\/(\d{2})\/(\d{4})`. */
  predicate BrPrefix(s: string) {
    |s| >= 10 && Digits(s[..2]) && s[2] == '/' && Digits(s[3..5]) && s[5] == '/' && Digits(s[6..10])
  }

  /** A bare `YYYY-MM-DD` date. */
  predicate IsoDate(s: string) {
    |s| == 10 && IsoPrefix(s)
  }

  lemma IsoPrefixHead(s: string)
    requires IsoPrefix(s)
    ensures IsoDate(s[..10])
  {
    var h := s[..10];
    assert h[..4] == s[..4] && h[5..7] == s[5..7] && h[8..10] == s[8..10];
  }

  lemma BrRewrite(s: string)
    requires BrPrefix(s)
    ensures IsoDate(s[6..10] + "-" + s[3..5] + "-" + s[..2])
  {
    var r := s[6..10] + "-" + s[3..5] + "-" + s[..2];
    assert r[..4] == s[6..10] && r[5..7] == s[3..5] && r[8..10] == s[..2];
  }

  /** `normalizeDate` on a string: an ISO prefix is kept, a `DD/MM/YYYY`
      prefix is rewritten, anything else is only trimmed. The empty string
      also stands for `null` and `undefined`. */
  function NormalizeDate(v: string): (r: string)
    ensures v == [] ==> r == []
    ensures IsoPrefix(Trim(v)) || BrPrefix(Trim(v)) ==> IsoDate(r)
    ensures v != [] && IsoPrefix(Trim(v)) ==> r == Trim(v)[..10]
    ensures v != [] && !IsoPrefix(Trim(v)) && BrPrefix(Trim(v)) ==>
      var str := Trim(v); r[..4] == str[6..10] && r[5..7] == str[3..5] && r[8..] == str[..2]
    ensures !IsoPrefix(Trim(v)) && !BrPrefix(Trim(v)) ==> r == Trim(v)
  {
    if v == [] then []
    else
      var str := Trim(v);
      if IsoPrefix(str) then
        IsoPrefixHead(str);
        str[..10]
      else if BrPrefix(str) then
        BrRewrite(str);
        str[6..10] + "-" + str[3..5] + "-" + str[..2]
      else str
  }

  /** A `DD/MM/YYYY` prefix is never read as an ISO date. */
  lemma BrIsNotIso(s: string)
    requires BrPrefix(s)
    ensures !IsoPrefix(s)
  {
    assert s[..4][2] == s[2] == '/';
  }

  /** Normalising a date twice changes nothing more. */
  lemma NormalizeDateIdempotent(v: string)
    ensures NormalizeDate(NormalizeDate(v)) == NormalizeDate(v)
  {
    var r := NormalizeDate(v);
    if IsoPrefix(Trim(v)) || BrPrefix(Trim(v)) {
      IsoDateFixed(r);
    } else {
      assert Trim(r) == r;
    }
  }

  /** A bare ISO date is already normalised. */
  lemma IsoDateFixed(r: string)
    requires IsoDate(r)
    ensures NormalizeDate(r) == r
  {
    assert IsDigit(r[..4][0]) && IsDigit(r[8..10][1]);
    assert Trimmed(r);
    assert r[..10] == r;
  }

  // ---------------------------------------------------------------------
  // createMatchingKey

  /** The composite key `patient|date|convenio`. */
  function CreateMatchingKey(patient: string, date: string, convenio: string): (k: string)
    ensures |k| == |patient| + |date| + |convenio| + 2
  {
    patient + "|" + date + "|" + convenio
  }

  /** Splitting a key built from pipe-free parts on `|` gives the parts back. */
  lemma MatchingKeySplits(patient: string, date: string, convenio: string)
    requires '|' !in patient && '|' !in date && '|' !in convenio
    ensures Split(CreateMatchingKey(patient, date, convenio), '|') == [patient, date, convenio]
  {
    var k := CreateMatchingKey(patient, date, convenio);
    assert Join([patient, date, convenio], '|') == k by {
      assert Join([date, convenio], '|') == date + "|" + convenio;
    }
    SplitJoin([patient, date, convenio], '|');
  }

  /** Keys built from pipe-free parts are equal only for equal parts. */
  lemma MatchingKeyInjective(p1: string, d1: string, c1: string, p2: string, d2: string, c2: string)
    requires '|' !in p1 && '|' !in d1 && '|' !in c1
    requires '|' !in p2 && '|' !in d2 && '|' !in c2
    requires CreateMatchingKey(p1, d1, c1) == CreateMatchingKey(p2, d2, c2)
    ensures p1 == p2 && d1 == d2 && c1 == c2
  {
    MatchingKeySplits(p1, d1, c1);
    MatchingKeySplits(p2, d2, c2);
  }

  // ---------------------------------------------------------------------
  // fuzzyMatchPatientName

  /** `new Set(name.split(' ').filter(Boolean))`. */
  function Words(name: string): set<string> {
    WordSet(Split(name, ' '))
  }

  /** The distinct non-empty pieces of a split. */
  function WordSet(parts: seq<string>): set<string> {
    if parts == [] then {} else WordSet(parts[1..]) + (if parts[0] != "" then {parts[0]} else {})
  }

  /** The words of a name are exactly the non-empty pieces of its split on
      spaces. */
  lemma WordsMembers(name: string)
    ensures forall w :: w in Words(name) <==> w in Split(name, ' ') && w != ""
  {
    WordSetMembers(Split(name, ' '));
  }

  lemma {:induction false} WordSetMembers(parts: seq<string>)
    ensures forall w :: w in WordSet(parts) <==> w in parts && w != ""
  {
    if parts != [] {
      WordSetMembers(parts[1..]);
      assert parts == [parts[0]] + parts[1..];
    }
  }

  function Max(a: int, b: int): int {
    if a >= b then a else b
  }

  /** Equal names match; otherwise at least two distinct words in common,
      covering at least 60% of the larger word set. The ratio test
      `common / total >= 0.6` is taken in exact arithmetic as
      `5 * common >= 3 * total`. */
  function FuzzyMatchPatientName(name1: string, name2: string): (b: bool)
    ensures name1 == name2 ==> b
    ensures b && name1 != name2 ==> |Words(name1) * Words(name2)| >= 2
  {
    if name1 == name2 then true
    else
      var words1 := Words(name1);
      var words2 := Words(name2);
      var common := |words1 * words2|;
      common >= 2 && 5 * common >= 3 * Max(|words1|, |words2|)
  }

  /** The integer test is the source's ratio test. */
  lemma FuzzyMatchIsRatioTest(name1: string, name2: string)
    requires name1 != name2
    ensures var common := |Words(name1) * Words(name2)|;
      var total := Max(|Words(name1)|, |Words(name2)|);
      FuzzyMatchPatientName(name1, name2) <==> common >= 2 && total > 0 && (common as real) / (total as real) >= 0.6
  {
    var w1, w2 := Words(name1), Words(name2);
    IntersectionSmaller(w1, w2);
    if |w1 * w2| >= 2 {
      RatioTest(|w1 * w2|, Max(|w1|, |w2|));
    }
  }

  lemma ScaleBy(x: real, y: real, t: real)
    requires t > 0.0
    ensures x >= y ==> x * t >= y * t
    ensures x < y ==> x * t < y * t
  {
  }

  /** `c / t >= 0.6` in exact arithmetic is `5 * c >= 3 * t`. */
  lemma RatioTest(c: nat, t: nat)
    requires t > 0
    ensures (c as real) / (t as real) >= 0.6 <==> 5 * c >= 3 * t
  {
    var cr, tr := c as real, t as real;
    var q := cr / tr;
    assert q * tr == cr;
    ScaleBy(q, 0.6, tr);
    assert q >= 0.6 <==> cr >= 0.6 * tr;
    assert (5 * c) as real == 5.0 * cr && (3 * t) as real == 3.0 * tr;
  }

  lemma IntersectionSmaller<T>(a: set<T>, b: set<T>)
    ensures |a * b| <= |a|
  {
    assert a == (a * b) + (a - b);
  }

  lemma FuzzyMatchSymmetric(name1: string, name2: string)
    ensures FuzzyMatchPatientName(name1, name2) == FuzzyMatchPatientName(name2, name1)
  {
    assert Words(name1) * Words(name2) == Words(name2) * Words(name1);
  }

  /** An empty name matches only the empty name. */
  lemma FuzzyMatchEmptyName(name: string)
    requires name != ""
    ensures !FuzzyMatchPatientName("", name)
  {
    assert Split("", ' ') == [""];
    assert Words("") == {};
  }

  /** Two different names that share fewer than two words never match. */
  lemma FuzzyMatchNeedsTwoCommonWords(name1: string, name2: string)
    requires name1 != name2 && |Words(name1) * Words(name2)| < 2
    ensures !FuzzyMatchPatientName(name1, name2)
  {
  }

  /** Names made of the same words (two or more), in any order, match. */
  lemma FuzzyMatchSameWords(name1: string, name2: string)
    requires Words(name1) == Words(name2) && |Words(name1)| >= 2
    ensures FuzzyMatchPatientName(name1, name2)
  {
    assert Words(name1) * Words(name2) == Words(name1);
  }
}
