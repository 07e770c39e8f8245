/** Greedy fuzzy matching with skips, adjacent transpositions and a typo allowance. */
module Fuzzy {
  import opened Bytes

  /** The Unicode White_Space property. */
  predicate IsWhitespace(c: char) {
    var u := c as int;
    9 <= u <= 13 || u == 0x20 || u == 0x85 || u == 0xA0 || u == 0x1680 || 0x2000 <= u <= 0x200A
    || u == 0x2028 || u == 0x2029 || u == 0x202F || u == 0x205F || u == 0x3000
  }

  const WHITESPACE: set<int> := {
    0x9, 0xA, 0xB, 0xC, 0xD, 0x20, 0x85, 0xA0, 0x1680,
    0x2000, 0x2001, 0x2002, 0x2003, 0x2004, 0x2005, 0x2006, 0x2007, 0x2008, 0x2009, 0x200A,
    0x2028, 0x2029, 0x202F, 0x205F, 0x3000}

  /** A word starts behind one of these. */
  lemma Boundaries(c: char)
    ensures IsBoundary(c) <==> c as int in WHITESPACE + {0x5F, 0x2D, 0x2E}
  {
  }

  predicate IsBoundary(c: char) { IsWhitespace(c) || c == '_' || c == '-' || c == '.' }

  /** The scan's choice at pattern index i, text index j. */
  predicate Transposed(p: seq<char>, t: seq<char>, i: nat, j: nat)
    requires i < |p| && j < |t|
  {
    i + 1 < |p| && j + 1 < |t| && p[i + 1] == t[j] && p[i] == t[j + 1]
  }

  /** How much of the pattern the greedy scan gets through. */
  function Scanned(p: seq<char>, t: seq<char>, i: nat, j: nat): (n: nat)
    requires i <= |p| && j <= |t|
    ensures i <= n <= |p|
    decreases |t| - j
  {
    if i == |p| || j == |t| then i
    else if p[i] == t[j] then Scanned(p, t, i + 1, j + 1)
    else if Transposed(p, t, i, j) then Scanned(p, t, i + 2, j + 2)
    else Scanned(p, t, i, j + 1)
  }

  /** The running score at the end of the scan: skips and transpositions cost, runs of
      direct matches and matches at word starts pay back, never below zero. */
  function Scored(p: seq<char>, t: seq<char>, i: nat, j: nat, run: nat, score: nat): (n: nat)
    requires i <= |p| && j <= |t|
    decreases |t| - j
  {
    if i == |p| || j == |t| then score
    else if p[i] == t[j] then
      var paid := if run > 0 then Saturating(score, 2 * (run + 1)) else score;
      var atStart := j == 0 || IsBoundary(t[j - 1]);
      Scored(p, t, i + 1, j + 1, run + 1, if atStart then Saturating(paid, 10) else paid)
    else if Transposed(p, t, i, j) then Scored(p, t, i + 2, j + 2, 0, score + 5)
    else Scored(p, t, i, j + 1, 0, score + 3)
  }

  /** The typo allowance: a third of the pattern, but at least one. */
  function MaxTypos(n: nat): (m: nat) { if n / 3 == 0 then 1 else n / 3 }

  /** Sixty percent of the pattern, rounded up. */
  function MinMatched(n: nat): (m: int) { -((-(n as real * 0.6)).Floor) }

  function LengthRatio(p: seq<char>, t: seq<char>): (n: nat) { |t| / (if |p| == 0 then 1 else |p|) }

  function Accepted(enough: bool, score: nat): (r: Option<nat>) { if enough then Some(score) else None }

  /** The whole times the pattern fits into the text's length; an empty one counts as 1. */
  lemma RatioMeans(p: seq<char>, t: seq<char>)
    ensures var n, q := LengthRatio(p, t), LengthRatio([], t);
            (p != [] ==> |p| * n <= |t| < |p| * (n + 1)) && q == |t|
  {
    if p != [] {
      var n := |t| / |p|;
      assert |t| == |p| * n + |t| % |p|;
    }
  }

  /** Matches exactly when the scan leaves at most one character or a third of the pattern;
      the sixty percent test never decides; the score stays under its worst case. */
  method FuzzyMatchChars(p: seq<char>, t: seq<char>) returns (r: Option<nat>)
    ensures var left := |p| - Scanned(p, t, 0, 0); r.Some? <==> left <= 1 || 3 * left <= |p|
    ensures r.Some? ==>
              r.value == Scored(p, t, 0, 0, 0, 0) + 15 * (|p| - Scanned(p, t, 0, 0)) + LengthRatio(p, t)
    ensures r.Some? ==> r.value <= 3 * |t| + 15 * (|p| - Scanned(p, t, 0, 0)) + LengthRatio(p, t)
  {
    var score, textIdx, patIdx, consecutive, matched := 0, 0, 0, 0, 0;
    while patIdx < |p| && textIdx < |t|
      invariant 0 <= patIdx <= |p| && 0 <= textIdx <= |t|
      invariant matched == patIdx && 0 <= consecutive
      invariant 0 <= score <= 3 * textIdx
      invariant Scanned(p, t, patIdx, textIdx) == Scanned(p, t, 0, 0)
      invariant Scored(p, t, patIdx, textIdx, consecutive, score) == Scored(p, t, 0, 0, 0, 0)
      decreases |t| - textIdx
    {
      if p[patIdx] == t[textIdx] {
        matched := matched + 1;
        consecutive := consecutive + 1;
        if consecutive > 1 {
          score := Saturating(score, consecutive * 2);
        }
        if textIdx == 0 || IsBoundary(t[textIdx - 1]) {
          score := Saturating(score, 10);
        }
        patIdx, textIdx := patIdx + 1, textIdx + 1;
      } else if Transposed(p, t, patIdx, textIdx) {
        matched := matched + 2;
        score := score + 5;
        patIdx, textIdx := patIdx + 2, textIdx + 2;
        consecutive := 0;
      } else {
        score := score + 3;
        textIdx := textIdx + 1;
        consecutive := 0;
      }
    }
    var remaining := |p| - patIdx;
    if remaining > 0 {
      if remaining > MaxTypos(|p|) {
        return None;
      }
      score := score + remaining * 15;
      matched := matched + remaining;
    }
    r := Accepted(matched >= MinMatched(|p|), score + LengthRatio(p, t));
  }

  // -- What the score rewards ----------------------------------------------------------------

  /** Pattern from i and text from j agree on n characters, with no word starting within. */
  predicate RunOf(p: seq<char>, t: seq<char>, i: nat, j: nat, n: nat) {
    && i + n <= |p| && j + n <= |t|
    && p[i..i + n] == t[j..j + n]
    && (forall k :: j <= k < j + n - 1 ==> !IsBoundary(t[k]))
  }

  function WordBonus(t: seq<char>, j: nat): (n: nat)
    requires j <= |t|
  {
    if j == 0 || IsBoundary(t[j - 1]) then 10 else 0
  }

  lemma NextTriangle(n: nat)
    requires n > 1
    ensures n * (n + 1) == (n - 1) * n + 2 * n && (n - 1) * n >= 2
  {
    MulMonotone(n, 1, n - 1);
  }

  lemma PaidTwice(score: nat, a: nat, b: nat)
    ensures Saturating(Saturating(score, a), b) == Saturating(score, a + b)
  {
  }

  lemma NextMatch(p: seq<char>, t: seq<char>, i: nat, j: nat, run: nat, score: nat)
    requires i < |p| && 0 < j < |t| && p[i] == t[j] && run > 0 && !IsBoundary(t[j - 1])
    ensures Scored(p, t, i, j, run, score) == Scored(p, t, i + 1, j + 1, run + 1, Saturating(score, 2 * (run + 1)))
  {
  }

  lemma FirstMatch(p: seq<char>, t: seq<char>, i: nat, j: nat, score: nat)
    requires i < |p| && j < |t| && p[i] == t[j]
    ensures Scored(p, t, i, j, 0, score) == Scored(p, t, i + 1, j + 1, 1, Saturating(score, WordBonus(t, j)))
  {
  }

  /** A run of n direct matches pays back n (n + 1) - 2, and 10 more at the start of a word. */
  lemma {:induction false} RunPaysBack(p: seq<char>, t: seq<char>, i: nat, j: nat, n: nat, score: nat)
    requires n >= 1 && RunOf(p, t, i, j, n)
    ensures n * (n + 1) >= 2
    ensures Scored(p, t, i, j, 0, score) ==
            Scored(p, t, i + n, j + n, n, Saturating(score, n * (n + 1) - 2 + WordBonus(t, j)))
  {
    hide Scored, IsBoundary;
    assert p[i..i + n][n - 1] == t[j..j + n][n - 1];
    if n == 1 {
      FirstMatch(p, t, i, j, score);
    } else {
      assert p[i..i + n][..n - 1] == p[i..i + (n - 1)] && t[j..j + n][..n - 1] == t[j..j + (n - 1)];
      RunPaysBack(p, t, i, j, n - 1, score);
      var before := (n - 1) * n - 2 + WordBonus(t, j);
      NextTriangle(n);
      PaidTwice(score, before, 2 * n);
      NextMatch(p, t, i + (n - 1), j + (n - 1), n - 1, Saturating(score, before));
    }
  }

  /** Skipping n characters that neither match nor start a transposition costs 3 each. */
  lemma {:induction false} SkipsCost(p: seq<char>, t: seq<char>, i: nat, j: nat, n: nat, score: nat)
    requires i < |p| && j + n <= |t|
    requires forall k :: j <= k < j + n ==> p[i] != t[k] && !Transposed(p, t, i, k)
    ensures Scored(p, t, i, j, 0, score) == Scored(p, t, i, j + n, 0, score + 3 * n)
    decreases n
  {
    if n > 0 { SkipsCost(p, t, i, j + 1, n - 1, score + 3); }
  }

  /** Two adjacent characters in the wrong order cost 5. */
  lemma TranspositionCosts(p: seq<char>, t: seq<char>, i: nat, j: nat, run: nat, score: nat)
    requires i + 1 < |p| && j + 1 < |t| && p[i] != t[j] && p[i] == t[j + 1] && p[i + 1] == t[j]
    ensures Scored(p, t, i, j, run, score) == Scored(p, t, i + 2, j + 2, 0, score + 5)
  {
  }

  /** So a one-word pattern found after k characters that do not match scores 3 k, less what
      its run and a word start pay back; in particular nothing at the very front. */
  lemma WordScores(p: seq<char>, t: seq<char>, k: nat)
    requires p != [] && RunOf(p, t, 0, k, |p|)
    requires forall j :: 0 <= j < k ==> p[0] != t[j] && !Transposed(p, t, 0, j)
    ensures |p| * (|p| + 1) >= 2
    ensures Scored(p, t, 0, 0, 0, 0) == Saturating(3 * k, |p| * (|p| + 1) - 2 + WordBonus(t, k))
  {
    SkipsCost(p, t, 0, 0, k, 0);
    RunPaysBack(p, t, 0, k, |p|, 3 * k);
  }

  // -- Subsequences -----------------------------------------------------------------------

  /** `f` places pattern positions i, i + 1, ... at increasing text positions from j on. */
  ghost predicate Places(p: seq<char>, t: seq<char>, i: nat, j: nat, f: seq<nat>)
    requires i <= |p|
  {
    && |f| == |p| - i
    && (forall k :: 0 <= k < |f| ==> j <= f[k] < |t| && t[f[k]] == p[i + k])
    && (forall k, l :: 0 <= k < l < |f| ==> f[k] < f[l])
  }

  ghost predicate IsSubsequence(p: seq<char>, t: seq<char>) { exists f: seq<nat> :: Places(p, t, 0, 0, f) }

  /** Greedy matches and transpositions never lose a placement. */
  lemma {:induction false} ScanKeepsSubsequence(p: seq<char>, t: seq<char>, i: nat, j: nat, f: seq<nat>)
    requires i <= |p| && j <= |t| && Places(p, t, i, j, f)
    ensures Scanned(p, t, i, j) == |p|
    decreases |t| - j
  {
    if i < |p| {
      assert f[0] < |t|;
      if p[i] == t[j] {
        DropPlaced(p, t, i, j, f, 1);
        ScanKeepsSubsequence(p, t, i + 1, j + 1, f[1..]);
      } else {
        assert f[0] > j;
        if Transposed(p, t, i, j) {
          assert f[1] > f[0];
          DropPlaced(p, t, i, j, f, 2);
          ScanKeepsSubsequence(p, t, i + 2, j + 2, f[2..]);
        } else {
          assert forall k :: 0 < k < |f| ==> f[0] < f[k];
          ScanKeepsSubsequence(p, t, i, j + 1, f);
        }
      }
    }
  }

  lemma DropPlaced(p: seq<char>, t: seq<char>, i: nat, j: nat, f: seq<nat>, n: nat)
    requires i + n <= |p| && 0 < n && Places(p, t, i, j, f) && f[n - 1] >= j + n - 1
    ensures Places(p, t, i + n, j + n, f[n..])
  {
    forall k | 0 <= k < |f[n..]| ensures j + n <= f[n..][k] < |t| && t[f[n..][k]] == p[i + n + k] {
      assert f[n..][k] == f[n + k] > f[n - 1];
      assert t[f[n + k]] == p[i + (n + k)];
    }
  }

  /** Every pattern that is a subsequence of the text is scanned completely. */
  lemma SubsequenceScans(p: seq<char>, t: seq<char>)
    requires IsSubsequence(p, t)
    ensures Scanned(p, t, 0, 0) == |p|
  {
    var f: seq<nat> :| Places(p, t, 0, 0, f);
    ScanKeepsSubsequence(p, t, 0, 0, f);
  }

  // -- The scoring entry point -----------------------------------------------------------------

  predicate OccursAt(t: seq<char>, p: seq<char>, k: nat) { k + |p| <= |t| && t[k..k + |p|] == p }

  predicate Contains(t: seq<char>, p: seq<char>) { exists k :: 0 <= k <= |t| && OccursAt(t, p, k) }

  /** The length of a string in bytes of UTF-8. */
  function Utf8Length(s: seq<char>): (n: nat)
    ensures n >= |s|
  {
    if s == [] then 0
    else
      var u := s[0] as int;
      (if u < 0x80 then 1 else if u < 0x800 then 2 else if u < 0x1_0000 then 3 else 4) + Utf8Length(s[1..])
  }

  function CountFrom(s: seq<char>, limit: int): (n: nat) {
    if s == [] then 0 else (if s[0] as int >= limit then 1 else 0) + CountFrom(s[1..], limit)
  }

  /** One byte per character, and one more from each of three limits on. */
  lemma {:induction false} Utf8Means(s: seq<char>)
    ensures Utf8Length(s) == |s| + CountFrom(s, 0x80) + CountFrom(s, 0x800) + CountFrom(s, 0x1_0000)
  {
    if s != [] { Utf8Means(s[1..]); }
  }

  lemma ContainsIff(t: seq<char>, p: seq<char>)
    ensures Contains(t, p) <==> exists before: seq<char>, after: seq<char> :: t == before + p + after
  {
    if Contains(t, p) {
      var k :| 0 <= k <= |t| && OccursAt(t, p, k);
      assert t == t[..k] + p + t[k + |p|..];
    }
    forall before: seq<char>, after: seq<char> | t == before + p + after ensures Contains(t, p) {
      assert OccursAt(t, p, |before|);
    }
  }

  /** A substring scores the extra length in bytes, whatever the cutoff; any other subsequence is
      found when the worst-case score is within the cutoff; no other score exceeds it. */
  method FuzzyScore(p: seq<char>, t: seq<char>, cutoff: nat) returns (r: Option<nat>)
    ensures p != [] && Contains(t, p) ==> r == Some(Saturating(Utf8Length(t), Utf8Length(p)))
    ensures p != [] && !Contains(t, p) && r.Some? ==> r.value <= cutoff && |p| <= |t| + 2
    ensures IsSubsequence(p, t) && 3 * |t| + LengthRatio(p, t) <= cutoff ==> r.Some?
  {
    if p == [] {
      return Some(0);
    }
    if Contains(t, p) {
      return Some(Saturating(Utf8Length(t), Utf8Length(p)));
    }
    if |p| > |t| + 2 {
      assert !IsSubsequence(p, t) by { if IsSubsequence(p, t) { SubsequenceIsShorter(p, t); } }
      return None;
    }
    var score := FuzzyMatchChars(p, t);
    if IsSubsequence(p, t) {
      SubsequenceScans(p, t);
    }
    if score.None? || score.value > cutoff {
      return None;
    }
    r := score;
  }

  lemma SubsequenceIsShorter(p: seq<char>, t: seq<char>)
    requires IsSubsequence(p, t)
    ensures |p| <= |t|
  {
    var f: seq<nat> :| Places(p, t, 0, 0, f);
    PlacedAtLeast(p, t, f, |f|);
  }

  lemma {:induction false} PlacedAtLeast(p: seq<char>, t: seq<char>, f: seq<nat>, n: nat)
    requires Places(p, t, 0, 0, f) && n <= |f|
    ensures n > 0 ==> f[n - 1] >= n - 1
  {
    if n > 1 {
      PlacedAtLeast(p, t, f, n - 1);
      assert f[n - 2] < f[n - 1];
    }
  }
}
