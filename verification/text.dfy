/**
 * ASCII text primitives shared by the address standardiser (Functions.py) and the
 * column transforms of the two dashboards (matching_app.py): case folding, Python's
 * `str.strip()`, substring tests, and one left-to-right scanner that models both
 * `re.sub` with a whole-word, case-insensitive literal pattern and `str.replace`.
 */
module Text {

  /** A regex word character (`\w`), restricted to ASCII: letters, digits and underscore. */
  predicate IsWordChar(c: char) {
    ('a' <= c <= 'z') || ('A' <= c <= 'Z') || ('0' <= c <= '9') || c == '_'
  }

  /** The ASCII characters Python's `str.isspace` accepts, hence what `str.strip()` removes. */
  predicate IsSpace(c: char) {
    c == ' ' || ('\U{9}' <= c <= '\U{D}') || ('\U{1C}' <= c <= '\U{1F}')
  }

  /** `str.lower()` on one character, ASCII only. */
  function LowerChar(c: char): (d: char)
    ensures 'A' <= c <= 'Z' ==> 'a' <= d <= 'z'
    ensures !('A' <= c <= 'Z') ==> d == c
  {
    if 'A' <= c <= 'Z' then (c as int + 32) as char else c
  }

  function Lower(s: string): (r: string)
    ensures |r| == |s|
    ensures forall i :: 0 <= i < |s| ==> r[i] == LowerChar(s[i])
  {
    seq(|s|, i requires 0 <= i < |s| => LowerChar(s[i]))
  }

  predicate IsLower(s: string) {
    forall i :: 0 <= i < |s| ==> !('A' <= s[i] <= 'Z')
  }

  /** Case folding keeps a character's class: word characters stay word characters, spaces stay spaces. */
  lemma LowerCharKeepsClass(c: char)
    ensures IsWordChar(LowerChar(c)) == IsWordChar(c)
    ensures IsSpace(LowerChar(c)) == IsSpace(c)
    ensures LowerChar(c) == ',' <==> c == ','
  {
  }

  lemma LowerAppend(a: string, b: string)
    ensures Lower(a + b) == Lower(a) + Lower(b)
  {
  }

  lemma LowerIsLower(s: string)
    ensures IsLower(Lower(s))
  {
  }

  lemma LowerIdempotent(s: string)
    ensures Lower(Lower(s)) == Lower(s)
  {
  }

  lemma LowerSlice(s: string, i: nat, j: nat)
    requires i <= j <= |s|
    ensures Lower(s[i..j]) == Lower(s)[i..j]
  {
  }

  // ---------------------------------------------------------------- strip

  predicate AllSpace(s: string) {
    forall i :: 0 <= i < |s| ==> IsSpace(s[i])
  }

  lemma AllSpaceConcat(a: string, b: string)
    requires AllSpace(a) && AllSpace(b)
    ensures AllSpace(a + b)
  {
    forall i | 0 <= i < |a + b|
      ensures IsSpace((a + b)[i])
    {
      if i >= |a| {
        assert (a + b)[i] == b[i - |a|];
      }
    }
  }

  /** Trimming the rest of `s` after a leading whitespace character trims `s`. */
  lemma TrimStartStep(s: string, r: string)
    requires |s| > 0 && IsSpace(s[0])
    requires |r| <= |s| - 1 && r == s[1..][|s| - 1 - |r|..] && AllSpace(s[1..][..|s| - 1 - |r|])
    ensures r == s[|s| - |r|..] && AllSpace(s[..|s| - |r|])
  {
    AllSpaceConcat([s[0]], s[1..][..|s| - 1 - |r|]);
    assert s[..|s| - |r|] == [s[0]] + s[1..][..|s| - 1 - |r|];
  }

  /** Trimming `s` without a trailing whitespace character trims `s`. */
  lemma TrimEndStep(s: string, r: string)
    requires |s| > 0 && IsSpace(s[|s| - 1])
    requires |r| <= |s| - 1 && r == s[..|s| - 1][..|r|] && AllSpace(s[..|s| - 1][|r|..])
    ensures r == s[..|r|] && AllSpace(s[|r|..])
  {
    AllSpaceConcat(s[..|s| - 1][|r|..], [s[|s| - 1]]);
    assert s[|r|..] == s[..|s| - 1][|r|..] + [s[|s| - 1]];
  }

  function TrimStart(s: string): (r: string)
    ensures |r| <= |s| && r == s[|s| - |r|..]
    ensures AllSpace(s[..|s| - |r|])
    ensures r == [] || !IsSpace(r[0])
  {
    if |s| > 0 && IsSpace(s[0]) then
      var r := TrimStart(s[1..]);
      TrimStartStep(s, r);
      r
    else
      s
  }

  function TrimEnd(s: string): (r: string)
    ensures |r| <= |s| && r == s[..|r|]
    ensures AllSpace(s[|r|..])
    ensures r == [] || !IsSpace(r[|r| - 1])
  {
    if |s| > 0 && IsSpace(s[|s| - 1]) then
      var r := TrimEnd(s[..|s| - 1]);
      TrimEndStep(s, r);
      r
    else
      s
  }

  /**
   * Python's `str.strip()`: the longest infix of `s` that neither starts nor ends with
   * whitespace, obtained by removing only whitespace from both ends.
   */
  function Strip(s: string): (r: string)
    ensures r == [] || (!IsSpace(r[0]) && !IsSpace(r[|r| - 1]))
    ensures exists i: nat :: IsTrimOf(r, s, i)
  {
    StripFacts(s);
    TrimEnd(TrimStart(s))
  }

  lemma StripFacts(s: string)
    ensures var r := TrimEnd(TrimStart(s));
      && (r == [] || (!IsSpace(r[0]) && !IsSpace(r[|r| - 1])))
      && exists i: nat :: IsTrimOf(r, s, i)
  {
    var t := TrimStart(s);
    var r := TrimEnd(t);
    var i := |s| - |t|;
    assert t == s[i..];
    if r != [] {
      assert r[0] == t[0];
    }
    StripWitness(s, t, r, i);
  }

  /** `r` is `s` with the all-whitespace prefix `s[..i]` and an all-whitespace suffix removed. */
  predicate IsTrimOf(r: string, s: string, i: nat) {
    i + |r| <= |s| && r == s[i..i + |r|] && AllSpace(s[..i]) && AllSpace(s[i + |r|..])
  }

  lemma StripWitness(s: string, t: string, r: string, i: nat)
    requires i <= |s| && t == s[i..] && |r| <= |t| && r == t[..|r|]
    requires AllSpace(s[..i]) && AllSpace(t[|r|..])
    ensures IsTrimOf(r, s, i)
  {
    assert s[i + |r|..] == t[|r|..];
  }

  /** A string that already has no surrounding whitespace is left as it is. */
  lemma {:induction false} StripOfStripped(s: string)
    requires s == [] || (!IsSpace(s[0]) && !IsSpace(s[|s| - 1]))
    ensures Strip(s) == s
  {
    assert TrimStart(s) == s;
    assert TrimEnd(s) == s;
  }

  /** Stripping only removes characters: a character absent from `s` is absent from `Strip(s)`. */
  lemma StripAvoids(s: string, c: char)
    requires c !in s
    ensures c !in Strip(s)
  {
    var i :| IsTrimOf(Strip(s), s, i);
  }

  /** Stripping a lower-case string leaves it lower case. */
  lemma StripKeepsLower(s: string)
    requires IsLower(s)
    ensures IsLower(Strip(s))
  {
    var i :| IsTrimOf(Strip(s), s, i);
    TrimKeepsLower(Strip(s), s, i);
  }

  lemma TrimKeepsLower(r: string, s: string, i: nat)
    requires IsTrimOf(r, s, i) && IsLower(s)
    ensures IsLower(r)
  {
    forall k | 0 <= k < |r|
      ensures !('A' <= r[k] <= 'Z')
    {
      assert r[k] == s[i..i + |r|][k] == s[i + k];
    }
  }

  /** What a trim removes is whitespace, position by position. */
  lemma TrimmedAreSpace(r: string, s: string, i: nat)
    requires IsTrimOf(r, s, i)
    ensures forall p :: 0 <= p < i ==> IsSpace(s[p])
    ensures forall p :: i + |r| <= p < |s| ==> IsSpace(s[p])
  {
    forall p | 0 <= p < i
      ensures IsSpace(s[p])
    {
      assert s[..i][p] == s[p];
    }
    forall p | i + |r| <= p < |s|
      ensures IsSpace(s[p])
    {
      assert s[i + |r|..][p - i - |r|] == s[p];
    }
  }

  /** Two trims of `s` that do not start with whitespace start at the same position. */
  lemma TrimStartsAgree(s: string, r: string, i: nat, t: string, k: nat)
    requires IsTrimOf(r, s, i) && IsTrimOf(t, s, k)
    requires r != [] && !IsSpace(r[0]) && t != [] && !IsSpace(t[0])
    ensures i == k
  {
    TrimmedAreSpace(r, s, i);
    TrimmedAreSpace(t, s, k);
    assert r[0] == s[i] && t[0] == s[k];
  }

  /** Two trims of `s` that do not end with whitespace end at the same position. */
  lemma TrimEndsAgree(s: string, r: string, i: nat, t: string, k: nat)
    requires IsTrimOf(r, s, i) && IsTrimOf(t, s, k)
    requires r != [] && !IsSpace(r[|r| - 1]) && t != [] && !IsSpace(t[|t| - 1])
    ensures i + |r| == k + |t|
  {
    TrimmedAreSpace(r, s, i);
    TrimmedAreSpace(t, s, k);
    assert r[|r| - 1] == s[i + |r| - 1] && t[|t| - 1] == s[k + |t| - 1];
  }

  /** An empty trim leaves no room for a trim that does not start with whitespace. */
  lemma EmptyTrimOnly(s: string, i: nat, t: string, k: nat)
    requires IsTrimOf([], s, i) && IsTrimOf(t, s, k)
    requires t == [] || !IsSpace(t[0])
    ensures t == []
  {
    TrimmedAreSpace([], s, i);
  }

  /** `Strip(s)` is the only trim of `s` that neither starts nor ends with whitespace. */
  lemma StripUnique(s: string, r: string, i: nat)
    requires IsTrimOf(r, s, i) && (r == [] || (!IsSpace(r[0]) && !IsSpace(r[|r| - 1])))
    ensures Strip(s) == r
  {
    var t := Strip(s);
    var k: nat :| IsTrimOf(t, s, k);
    if r == [] {
      EmptyTrimOnly(s, i, t, k);
    } else if t == [] {
      EmptyTrimOnly(s, k, r, i);
    } else {
      TrimStartsAgree(s, r, i, t, k);
      TrimEndsAgree(s, r, i, t, k);
    }
  }

  // ---------------------------------------------------------------- matching

  /** Whether `pattern` occurs in `s` exactly at position `p`. */
  predicate OccursAt(s: string, pattern: string, p: nat) {
    p + |pattern| <= |s| && s[p..p + |pattern|] == pattern
  }

  /** Python's `pattern in s`. */
  predicate Contains(s: string, pattern: string) {
    exists p: nat | p <= |s| :: OccursAt(s, pattern, p)
  }

  /** `\b` at position `p` of `s`: exactly one of the neighbouring characters is a word character. */
  predicate IsBoundary(s: string, p: nat)
    requires p <= |s|
  {
    (0 < p && IsWordChar(s[p - 1])) != (p < |s| && IsWordChar(s[p]))
  }

  /**
   * How a literal pattern is matched: `Exact` is `str.replace`; `WholeWordIgnoreCase`
   * is `re.sub(r'\b' + pattern + r'\b', ..., flags=re.IGNORECASE)`.
   */
  datatype Mode = Exact | WholeWordIgnoreCase

  /**
   * A match of a non-empty pattern starts at `p`. Empty patterns are never matched here; every
   * pattern the program uses is non-empty.
   */
  predicate MatchesAt(mode: Mode, s: string, pattern: string, p: nat) {
    0 < |pattern| && p + |pattern| <= |s| &&
    match mode
    case Exact => s[p..p + |pattern|] == pattern
    case WholeWordIgnoreCase =>
      Lower(s[p..p + |pattern|]) == Lower(pattern) && IsBoundary(s, p) && IsBoundary(s, p + |pattern|)
  }

  /** No match of `pattern` starts at or after position `p`. */
  predicate NoMatchFrom(mode: Mode, s: string, pattern: string, p: nat) {
    forall q: nat | p <= q <= |s| :: !MatchesAt(mode, s, pattern, q)
  }

  /**
   * The scan both `re.sub` and `str.replace` perform from position `p`: every match is
   * replaced, left to right, and the scan resumes after the match, so matches never overlap.
   * Matching always looks at the original string `s`, never at replacement text.
   */
  function ReplaceFrom(mode: Mode, s: string, pattern: string, replacement: string, p: nat): string
    requires p <= |s|
    decreases |s| - p
  {
    if p == |s| then []
    else if MatchesAt(mode, s, pattern, p) then
      replacement + ReplaceFrom(mode, s, pattern, replacement, p + |pattern|)
    else
      [s[p]] + ReplaceFrom(mode, s, pattern, replacement, p + 1)
  }

  /** Replace every match of `pattern` in `s` by `replacement`. */
  function Replace(mode: Mode, s: string, pattern: string, replacement: string): string {
    ReplaceFrom(mode, s, pattern, replacement, 0)
  }

  /** Where the pattern does not match, the scan copies the input unchanged. */
  lemma {:induction false} ReplaceFromUnchanged(mode: Mode, s: string, pattern: string, replacement: string, p: nat)
    requires p <= |s| && NoMatchFrom(mode, s, pattern, p)
    decreases |s| - p
    ensures ReplaceFrom(mode, s, pattern, replacement, p) == s[p..]
  {
    if p < |s| {
      ReplaceFromUnchanged(mode, s, pattern, replacement, p + 1);
      assert s[p..] == [s[p]] + s[p + 1..];
    }
  }

  /** No match of `pattern` starts in `[q, p)`. */
  predicate NoMatchBetween(mode: Mode, s: string, pattern: string, q: nat, p: nat) {
    forall k: nat | q <= k < p :: !MatchesAt(mode, s, pattern, k)
  }

  /** One step of the scan at a position where no match starts. */
  lemma ReplaceFromCopies(mode: Mode, s: string, pattern: string, replacement: string, q: nat)
    requires q < |s| && !MatchesAt(mode, s, pattern, q)
    ensures ReplaceFrom(mode, s, pattern, replacement, q) == [s[q]] + ReplaceFrom(mode, s, pattern, replacement, q + 1)
  {
  }

  /** Stepping past a position `q` before the next match at `p`. */
  lemma NoMatchBetweenStep(mode: Mode, s: string, pattern: string, q: nat, p: nat)
    requires q < p && MatchesAt(mode, s, pattern, p) && NoMatchBetween(mode, s, pattern, q, p)
    ensures q < |s| && !MatchesAt(mode, s, pattern, q) && NoMatchBetween(mode, s, pattern, q + 1, p)
  {
  }

  /** Prepending the character at `q` to what follows it in `s[q + 1..p]`. */
  lemma PrependSlice(s: string, q: nat, p: nat, a: string, b: string)
    requires q < p <= |s|
    ensures [s[q]] + (s[q + 1..p] + a + b) == s[q..p] + a + b
  {
    assert s[q..p] == [s[q]] + s[q + 1..p];
  }

  /**
   * The scan from `q` copies the text up to the next match at `p`, writes the replacement in
   * place of the match, and resumes right after it.
   */
  lemma {:induction false} ReplaceFromSplit(mode: Mode, s: string, pattern: string, replacement: string, q: nat, p: nat)
    requires q <= p && MatchesAt(mode, s, pattern, p) && NoMatchBetween(mode, s, pattern, q, p)
    decreases p - q
    ensures ReplaceFrom(mode, s, pattern, replacement, q)
         == s[q..p] + replacement + ReplaceFrom(mode, s, pattern, replacement, p + |pattern|)
  {
    if q == p {
      ReplaceFromAtMatch(mode, s, pattern, replacement, p);
      assert s[q..p] == [];
    } else {
      NoMatchBetweenStep(mode, s, pattern, q, p);
      ReplaceFromCopies(mode, s, pattern, replacement, q);
      ReplaceFromSplit(mode, s, pattern, replacement, q + 1, p);
      PrependSlice(s, q, p, replacement, ReplaceFrom(mode, s, pattern, replacement, p + |pattern|));
    }
  }

  /** At a match the scan writes the replacement and resumes after the match. */
  lemma ReplaceFromAtMatch(mode: Mode, s: string, pattern: string, replacement: string, p: nat)
    requires MatchesAt(mode, s, pattern, p)
    ensures ReplaceFrom(mode, s, pattern, replacement, p)
         == replacement + ReplaceFrom(mode, s, pattern, replacement, p + |pattern|)
  {
  }

  /** The scan introduces no character that is in neither the input nor the replacement. */
  lemma {:induction false} ReplaceFromAvoids(mode: Mode, s: string, pattern: string, replacement: string, p: nat, c: char)
    requires p <= |s| && c !in s[p..] && c !in replacement
    decreases |s| - p
    ensures c !in ReplaceFrom(mode, s, pattern, replacement, p)
  {
    if p < |s| {
      assert s[p..] == [s[p]] + s[p + 1..];
      if MatchesAt(mode, s, pattern, p) {
        assert s[p + |pattern|..] == s[p..][|pattern|..];
        ReplaceFromAvoids(mode, s, pattern, replacement, p + |pattern|, c);
      } else {
        ReplaceFromAvoids(mode, s, pattern, replacement, p + 1, c);
      }
    }
  }

  /**
   * Case-insensitive whole-word matching ignores the case of the input: two inputs equal up to
   * case are rewritten at the same places, so their results are equal up to case as well.
   */
  lemma {:induction false} ReplaceFromIgnoresCase(s1: string, s2: string, pattern: string, replacement: string, p: nat)
    requires p <= |s1| && Lower(s1) == Lower(s2)
    decreases |s1| - p
    ensures Lower(ReplaceFrom(WholeWordIgnoreCase, s1, pattern, replacement, p))
         == Lower(ReplaceFrom(WholeWordIgnoreCase, s2, pattern, replacement, p))
  {
    if p < |s1| {
      var m := WholeWordIgnoreCase;
      MatchesAtIgnoresCase(s1, s2, pattern, p);
      if MatchesAt(m, s1, pattern, p) {
        ReplaceFromIgnoresCase(s1, s2, pattern, replacement, p + |pattern|);
        LowerAppend(replacement, ReplaceFrom(m, s1, pattern, replacement, p + |pattern|));
        LowerAppend(replacement, ReplaceFrom(m, s2, pattern, replacement, p + |pattern|));
      } else {
        ReplaceFromIgnoresCase(s1, s2, pattern, replacement, p + 1);
        assert LowerChar(s1[p]) == Lower(s1)[p] == Lower(s2)[p] == LowerChar(s2[p]);
        LowerAppend([s1[p]], ReplaceFrom(m, s1, pattern, replacement, p + 1));
        LowerAppend([s2[p]], ReplaceFrom(m, s2, pattern, replacement, p + 1));
      }
    }
  }

  lemma MatchesAtIgnoresCase(s1: string, s2: string, pattern: string, p: nat)
    requires p <= |s1| && Lower(s1) == Lower(s2)
    ensures MatchesAt(WholeWordIgnoreCase, s1, pattern, p) == MatchesAt(WholeWordIgnoreCase, s2, pattern, p)
  {
    assert |s1| == |s2|;
    BoundaryIgnoresCase(s1, s2, p);
    if p + |pattern| <= |s1| {
      LowerSlice(s1, p, p + |pattern|);
      LowerSlice(s2, p, p + |pattern|);
      BoundaryIgnoresCase(s1, s2, p + |pattern|);
    }
  }

  lemma BoundaryIgnoresCase(s1: string, s2: string, p: nat)
    requires p <= |s1| && Lower(s1) == Lower(s2)
    ensures IsBoundary(s1, p) == IsBoundary(s2, p)
  {
    assert |s1| == |s2|;
    if 0 < p {
      LowerCharKeepsClass(s1[p - 1]);
      LowerCharKeepsClass(s2[p - 1]);
      assert Lower(s1)[p - 1] == Lower(s2)[p - 1];
    }
    if p < |s1| {
      LowerCharKeepsClass(s1[p]);
      LowerCharKeepsClass(s2[p]);
      assert Lower(s1)[p] == Lower(s2)[p];
    }
  }

  /**
   * A string that is, up to case, exactly a pattern starting and ending with word characters
   * is one whole-word match and is replaced entirely: `ST`, `St` and `st` all give the
   * replacement, whatever its own case.
   */
  lemma WholeWordReplaced(w: string, pattern: string, replacement: string)
    requires |pattern| > 0 && IsWordChar(pattern[0]) && IsWordChar(pattern[|pattern| - 1])
    requires Lower(w) == Lower(pattern)
    ensures Replace(WholeWordIgnoreCase, w, pattern, replacement) == replacement
  {
    assert |w| == |pattern|;
    assert LowerChar(w[0]) == LowerChar(pattern[0]);
    LowerCharKeepsClass(w[0]);
    LowerCharKeepsClass(pattern[0]);
    assert LowerChar(w[|w| - 1]) == LowerChar(pattern[|w| - 1]);
    LowerCharKeepsClass(w[|w| - 1]);
    LowerCharKeepsClass(pattern[|w| - 1]);
    assert w[0..|pattern|] == w;
    assert MatchesAt(WholeWordIgnoreCase, w, pattern, 0);
    assert ReplaceFrom(WholeWordIgnoreCase, w, pattern, replacement, |w|) == [];
  }

  /** Removing a single character with `str.replace(c, '')` leaves no occurrence of it. */
  lemma {:induction false} RemoveCharLeavesNone(s: string, c: char, p: nat)
    requires p <= |s|
    decreases |s| - p
    ensures c !in ReplaceFrom(Exact, s, [c], "", p)
  {
    if p < |s| {
      RemoveCharLeavesNone(s, c, p + 1);
      if !MatchesAt(Exact, s, [c], p) {
        assert s[p..p + 1] == [s[p]];
      }
    }
  }

  /** Removing a single character distributes over concatenation. */
  lemma {:induction false} RemoveCharAppend(a: string, b: string, c: char, p: nat)
    requires p <= |a|
    decreases |a| - p
    ensures ReplaceFrom(Exact, a + b, [c], "", p) == ReplaceFrom(Exact, a, [c], "", p) + Replace(Exact, b, [c], "")
  {
    var s := a + b;
    if p == |a| {
      RemoveCharShift(a, b, c, 0);
    } else {
      assert s[p..p + 1] == a[p..p + 1];
      assert MatchesAt(Exact, s, [c], p) == MatchesAt(Exact, a, [c], p);
      RemoveCharAppend(a, b, c, p + 1);
    }
  }

  /** Scanning `a + b` from inside `b` is scanning `b` on its own. */
  lemma {:induction false} RemoveCharShift(a: string, b: string, c: char, q: nat)
    requires q <= |b|
    decreases |b| - q
    ensures ReplaceFrom(Exact, a + b, [c], "", |a| + q) == ReplaceFrom(Exact, b, [c], "", q)
  {
    var s := a + b;
    if q < |b| {
      assert s[|a| + q..|a| + q + 1] == b[q..q + 1];
      assert s[|a| + q] == b[q];
      RemoveCharShift(a, b, c, q + 1);
    }
  }
}
