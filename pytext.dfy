/** Python's `str.find` and `str[a:b]` semantics, which the legacy scripts use
    to pick fields out of text lines by character offsets. */
module PyText {

  /** How Python normalises a slice bound (or a `find` start) against a length `n`:
      negative values count from the end and everything is clamped to `[0, n]`. */
  function Clamp(i: int, n: nat): (k: nat)
    ensures k <= n
    ensures 0 <= i <= n ==> k == i
    ensures i < 0 && -i <= n ==> k == n + i
  {
    if i < 0 then (if i + n < 0 then 0 else i + n) else if i > n then n else i
  }

  /** `s[a:b]`. */
  function Slice(s: string, a: int, b: int): (r: string)
    ensures |r| <= |s|
    ensures 0 <= a <= b <= |s| ==> r == s[a..b]
    ensures 0 <= a <= |s| && 1 <= |s| && b == -1 ==> r == if a < |s| - 1 then s[a..|s| - 1] else []
  {
    var i := Clamp(a, |s|);
    var j := Clamp(b, |s|);
    if i < j then s[i..j] else []
  }

  predicate MatchAt(s: string, sub: string, k: int) {
    0 <= k && k + |sub| <= |s| && s[k..k + |sub|] == sub
  }

  /** No occurrence of `sub` anywhere in `s`. */
  ghost predicate Free(s: string, sub: string) {
    forall j :: !MatchAt(s, sub, j)
  }

  /** The lowest index at or after `k` where `sub` occurs in `s`, or -1. */
  function FindFrom(s: string, sub: string, k: nat): (r: int)
    requires k <= |s|
    ensures r == -1 || (k <= r && MatchAt(s, sub, r))
    ensures r == -1 ==> forall j :: k <= j ==> !MatchAt(s, sub, j)
    ensures r >= 0 ==> forall j :: k <= j < r ==> !MatchAt(s, sub, j)
    decreases |s| - k
  {
    if k + |sub| > |s| then -1
    else if s[k..k + |sub|] == sub then k
    else FindFrom(s, sub, k + 1)
  }

  /** `s.find(sub, start)`: a negative start counts from the end; a start beyond
      the end finds nothing. */
  function Find(s: string, sub: string, start: int): (r: int)
    ensures r == -1 || (start <= r && MatchAt(s, sub, r)) || (start < 0 && MatchAt(s, sub, r))
    ensures 0 <= start && r == -1 ==> forall j :: start <= j ==> !MatchAt(s, sub, j)
    ensures 0 <= start && r >= 0 ==> forall j :: start <= j < r ==> !MatchAt(s, sub, j)
  {
    var k := if start < 0 then Clamp(start, |s|) else start;
    if k > |s| then -1 else FindFrom(s, sub, k)
  }

  /** `sub in s`, written in the scripts as `s.find(sub) != -1`. */
  predicate Contains(s: string, sub: string) {
    Find(s, sub, 0) != -1
  }

  lemma ContainsIff(s: string, sub: string)
    ensures Contains(s, sub) <==> !Free(s, sub)
  {
  }

  /** `find` returns the first occurrence at or after a non-negative start. */
  lemma FindIsFirst(s: string, sub: string, start: nat, m: nat)
    requires start <= m && MatchAt(s, sub, m)
    requires forall j :: start <= j < m ==> !MatchAt(s, sub, j)
    ensures Find(s, sub, start) == m
  {
  }

  lemma MatchChar(s: string, c: char, j: int)
    ensures MatchAt(s, [c], j) <==> 0 <= j < |s| && s[j] == c
  {
    if 0 <= j < |s| {
      assert s[j..j + 1] == [s[j]];
    }
  }

  /** A match lying wholly inside the second part of `P + R` is a match in `R`. */
  lemma MatchShift(P: string, R: string, sub: string, j: nat)
    ensures MatchAt(P + R, sub, |P| + j) <==> MatchAt(R, sub, j)
  {
    if |P| + j + |sub| <= |P + R| {
      assert (P + R)[|P| + j..|P| + j + |sub|] == R[j..j + |sub|];
    }
  }

  /** No occurrence of `sub` can start inside `X + [c]` when `X` has none and
      `sub` does not contain `c`, whatever follows. */
  lemma NoMatchBeforeSeparator(X: string, c: char, R: string, sub: string, j: int)
    requires Free(X, sub) && c !in sub && |sub| >= 1
    requires j <= |X|
    ensures !MatchAt(X + [c] + R, sub, j)
  {
    var s := X + [c] + R;
    if MatchAt(s, sub, j) {
      if j + |sub| <= |X| {
        assert s[j..j + |sub|] == X[j..j + |sub|];
        assert MatchAt(X, sub, j);
      } else {
        StraddleHitsSeparator(X, c, R, sub, j);
      }
    }
  }

  lemma StraddleHitsSeparator(X: string, c: char, R: string, sub: string, j: int)
    requires MatchAt(X + [c] + R, sub, j) && j <= |X| < j + |sub|
    ensures sub[|X| - j] == c
  {
    var s := X + [c] + R;
    assert s[j..j + |sub|][|X| - j] == s[|X|];
  }

  /** Gluing two texts free of `sub` with a character `sub` does not contain
      gives a text free of `sub`. */
  lemma FreeJoin(X: string, c: char, Y: string, sub: string)
    requires Free(X, sub) && Free(Y, sub) && c !in sub && |sub| >= 1
    ensures Free(X + [c] + Y, sub)
  {
    var s := X + [c] + Y;
    forall j | MatchAt(s, sub, j) ensures false {
      if j <= |X| {
        NoMatchBeforeSeparator(X, c, Y, sub, j);
      } else {
        assert s == (X + [c]) + Y;
        MatchShift(X + [c], Y, sub, j - |X| - 1);
      }
    }
  }

  /** A text free of `sub` is free of every text that contains `sub`. */
  lemma FreeOfContaining(s: string, sub: string, big: string, at: nat)
    requires Free(s, sub) && MatchAt(big, sub, at)
    ensures Free(s, big)
  {
    forall j | MatchAt(s, big, j) ensures MatchAt(s, sub, j + at) {
      forall k | 0 <= k < |sub| ensures s[j + at + k] == sub[k] {
        assert s[j + at + k] == big[at + k];
      }
      assert s[j + at..j + at + |sub|] == sub;
    }
  }

  /** When nothing matches inside `P`, `find` in `P + R` lands in `R`. */
  lemma FindAfterPrefix(P: string, R: string, sub: string, m: nat)
    requires forall j :: 0 <= j < |P| ==> !MatchAt(P + R, sub, j)
    requires MatchAt(R, sub, m) && forall j :: 0 <= j < m ==> !MatchAt(R, sub, j)
    ensures Find(P + R, sub, 0) == |P| + m
  {
    MatchShift(P, R, sub, m);
    forall j | 0 <= j < |P| + m ensures !MatchAt(P + R, sub, j) {
      if j >= |P| {
        MatchShift(P, R, sub, j - |P|);
      }
    }
    FindIsFirst(P + R, sub, 0, |P| + m);
  }
}
