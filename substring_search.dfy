/**
 * First-occurrence substring search, three ways: Boyer–Moore–Horspool,
 * Knuth–Morris–Pratt with its border table, and Rabin–Karp with a rolling
 * polynomial hash.  Each returns the index of the leftmost occurrence of the
 * pattern in the text, 0 for the empty pattern, and -1 when there is none.
 * Characters are compared by code point.
 */
module SubstringSearch {

  /** `pattern` occurs in `text` starting at index `s`. */
  predicate MatchAt(text: seq<char>, pattern: seq<char>, s: int) {
    0 <= s && s + |pattern| <= |text| && forall t | 0 <= t < |pattern| :: text[s + t] == pattern[t]
  }

  /** No occurrence of `pattern` starts before `e`. */
  ghost predicate NoMatchBefore(text: seq<char>, pattern: seq<char>, e: int) {
    forall s | 0 <= s < e :: !MatchAt(text, pattern, s)
  }

  /** The reference search: the leftmost occurrence at or after `s`, or -1. */
  function FindFrom(text: seq<char>, pattern: seq<char>, s: nat): (r: int)
    requires s <= |text| + 1
    ensures r == -1 || (s <= r && MatchAt(text, pattern, r))
    ensures forall s' | s <= s' && (r == -1 || s' < r) :: !MatchAt(text, pattern, s')
    decreases |text| + 1 - s
  {
    if s + |pattern| > |text| then -1
    else if MatchAt(text, pattern, s) then s
    else FindFrom(text, pattern, s + 1)
  }

  /** Index of the leftmost occurrence of `pattern` in `text`, or -1. */
  function Find(text: seq<char>, pattern: seq<char>): (r: int)
    ensures r == -1 <==> NoMatchBefore(text, pattern, |text| + 1)
    ensures r != -1 ==> MatchAt(text, pattern, r) && NoMatchBefore(text, pattern, r)
  {
    FindFrom(text, pattern, 0)
  }

  /** The empty pattern is found at 0; a pattern longer than the text is not found. */
  lemma FindEdgeCases(text: seq<char>, pattern: seq<char>)
    ensures pattern == [] ==> Find(text, pattern) == 0
    ensures |pattern| > |text| ==> Find(text, pattern) == -1
  {
    if pattern == [] {
      assert MatchAt(text, pattern, 0);
    }
  }

  /** A search result pinned down by its meaning: any leftmost occurrence, or -1 for none, is `Find`. */
  lemma FindUnique(text: seq<char>, pattern: seq<char>, r: int)
    requires r == -1 ==> NoMatchBefore(text, pattern, |text| + 1)
    requires r != -1 ==> MatchAt(text, pattern, r) && NoMatchBefore(text, pattern, r)
    ensures r == Find(text, pattern)
  {
    var f := Find(text, pattern);
    assert f != -1 ==> MatchAt(text, pattern, f);
    assert r != -1 ==> MatchAt(text, pattern, r);
  }

  // ---------------------------------------------------------------------
  // Boyer–Moore–Horspool

  /**
   * The bad-character table built from every position of the pattern but the
   * last, in order, so that a later position overrides an earlier one: each
   * character maps to the distance from its last occurrence before the final
   * position to the final position.
   */
  function SkipTable(p: seq<char>, k: nat): (t: map<char, nat>)
    requires k < |p|
    ensures forall i | 0 <= i < k :: p[i] in t
    ensures forall c | c in t ::
      0 < t[c] < |p| && |p| - 1 - t[c] < k && p[|p| - 1 - t[c]] == c
      && forall i | |p| - 1 - t[c] < i < k :: p[i] != c
  {
    if k == 0 then map[] else SkipTable(p, k - 1)[p[k - 1] := |p| - k]
  }

  /**
   * How far the window moves when its last text character is `c`: at least
   * one, and no shorter move could bring an equal pattern character under `c`.
   */
  function HorspoolShift(p: seq<char>, c: char): (r: nat)
    requires |p| > 0
    ensures 1 <= r <= |p|
    ensures forall k | |p| - 1 - r < k < |p| - 1 :: p[k] != c
    ensures r < |p| ==> p[|p| - 1 - r] == c
  {
    var t := SkipTable(p, |p| - 1);
    if c in t then t[c] else |p|
  }

  /** Horspool's search: compares each window right to left and shifts by the table entry of the window's last character. */
  method BoyerMooreHorspool(text: seq<char>, pattern: seq<char>) returns (r: int)
    ensures r == Find(text, pattern)
  {
    var n, m := |text|, |pattern|;
    if m == 0 {
      FindEdgeCases(text, pattern);
      return 0;
    }
    var i := m - 1;
    while i < n
      invariant m - 1 <= i
      invariant NoMatchBefore(text, pattern, i - m + 1)
      decreases n - i
    {
      var k := 0;
      while k < m && pattern[m - 1 - k] == text[i - k]
        invariant 0 <= k <= m
        invariant forall q | m - k <= q < m :: pattern[q] == text[i - (m - 1 - q)]
      {
        k := k + 1;
      }
      if k == m {
        assert MatchAt(text, pattern, i - m + 1) by {
          forall t | 0 <= t < m
            ensures text[i - m + 1 + t] == pattern[t]
          {
            assert pattern[t] == text[i - (m - 1 - t)];
          }
        }
        FindUnique(text, pattern, i - m + 1);
        return i - m + 1;
      }
      var shift := HorspoolShift(pattern, text[i]);
      HorspoolSkipSafe(text, pattern, i, k, shift);
      i := i + shift;
    }
    FindUnique(text, pattern, -1);
    return -1;
  }

  /** After a mismatch in the window ending at `i`, none of the windows the shift skips can match. */
  lemma HorspoolSkipSafe(text: seq<char>, pattern: seq<char>, i: int, k: nat, shift: nat)
    requires 0 < |pattern| && |pattern| - 1 <= i < |text| && k < |pattern|
    requires pattern[|pattern| - 1 - k] != text[i - k]
    requires NoMatchBefore(text, pattern, i - |pattern| + 1)
    requires shift == HorspoolShift(pattern, text[i])
    ensures NoMatchBefore(text, pattern, i + shift - |pattern| + 1)
  {
    var m := |pattern|;
    forall s | i - m + 1 <= s < i + shift - m + 1
      ensures !MatchAt(text, pattern, s)
    {
      var d := s - (i - m + 1);
      if d == 0 {
        Mismatch(text, pattern, s, m - 1 - k);
      } else {
        Mismatch(text, pattern, s, m - 1 - d);
      }
    }
  }

  /** One differing character rules out an occurrence. */
  lemma Mismatch(text: seq<char>, pattern: seq<char>, s: int, t: int)
    requires 0 <= t < |pattern| && 0 <= s + t < |text| && text[s + t] != pattern[t]
    ensures !MatchAt(text, pattern, s)
  {
  }

  // ---------------------------------------------------------------------
  // Knuth–Morris–Pratt

  /** The first `j` characters of `p` end at position `e` of `s`: `p[..j]` is a suffix of `s[..e]`. */
  ghost predicate SuffixMatch(s: seq<char>, e: nat, p: seq<char>, j: nat) {
    j <= e <= |s| && j <= |p| && forall t | 0 <= t < j :: p[t] == s[e - j + t]
  }

  /** No prefix of `p` longer than `lo`, up to `hi` characters, ends at position `e` of `s`. */
  ghost predicate NoLongerMatch(s: seq<char>, e: nat, p: seq<char>, lo: nat, hi: nat) {
    forall b | lo < b <= hi :: !SuffixMatch(s, e, p, b)
  }

  /** `b` is the length of the longest proper border (prefix that is also a suffix) of `p[..n]`. */
  ghost predicate LongestBorder(p: seq<char>, n: nat, b: nat) {
    b < n <= |p| && SuffixMatch(p, n, p, b)
    && forall b' | b < b' < n :: !SuffixMatch(p, n, p, b')
  }

  /** When `p[..j]` ends at `e`, the shorter prefixes that end at `e` are exactly the borders of `p[..j]`. */
  lemma BorderChain(s: seq<char>, e: nat, p: seq<char>, j: nat, j': nat)
    requires SuffixMatch(s, e, p, j) && j' <= j
    ensures SuffixMatch(s, e, p, j') <==> SuffixMatch(p, j, p, j')
  {
    forall u | e - j' <= u < e
      ensures s[u] == p[j - e + u]
    {
      assert p[j - e + u] == s[e - j + (j - e + u)];
    }
  }

  /**
   * One fallback step of the border chain: when `p[j]` is not `x`, moving to
   * the longest border of `p[..j]` skips no match length whose next
   * character could be `x`.
   */
  lemma FallbackStep(s: seq<char>, e: nat, p: seq<char>, j: nat, j2: nat, x: char, bound: nat)
    requires SuffixMatch(s, e, p, j) && 0 < j < bound <= |p| && LongestBorder(p, j, j2)
    requires p[j] != x
    requires forall b | j < b < bound && SuffixMatch(s, e, p, b) :: p[b] != x
    ensures SuffixMatch(s, e, p, j2)
    ensures forall b | j2 < b < bound && SuffixMatch(s, e, p, b) :: p[b] != x
  {
    BorderChain(s, e, p, j, j2);
    forall b | j2 < b < j && SuffixMatch(s, e, p, b)
      ensures false
    {
      BorderChain(s, e, p, j, b);
    }
  }

  /**
   * Reading character `s[e]` after the fallback loop: the new match length is
   * `j + 1` when `p[j]` is `s[e]`, otherwise 0, and no longer prefix up to
   * `bound` ends at `e + 1`.
   */
  lemma AdvanceStep(s: seq<char>, e: nat, p: seq<char>, j: nat, bound: nat)
    requires e < |s| && j < bound <= |p| && SuffixMatch(s, e, p, j)
    requires j == 0 || p[j] == s[e]
    requires forall b | j < b < bound && SuffixMatch(s, e, p, b) :: p[b] != s[e]
    ensures var j' := if p[j] == s[e] then j + 1 else 0;
      SuffixMatch(s, e + 1, p, j') && NoLongerMatch(s, e + 1, p, j', bound)
  {
    var j' := if p[j] == s[e] then j + 1 else 0;
    var e1 := e + 1;
    forall b | j' < b <= bound ensures !SuffixMatch(s, e1, p, b) {
      SuffixShrink(s, e, p, b);
    }
  }

  /** A prefix of length `b` ending at `e + 1` is a prefix of length `b - 1` ending at `e` followed by `s[e]`. */
  lemma SuffixShrink(s: seq<char>, e: nat, p: seq<char>, b: nat)
    requires 0 < b
    ensures SuffixMatch(s, e + 1, p, b) ==> SuffixMatch(s, e, p, b - 1) && p[b - 1] == s[e]
  {
    if SuffixMatch(s, e + 1, p, b) {
      forall t | 0 <= t < b - 1
        ensures p[t] == s[e - (b - 1) + t]
      {
        assert p[t] == s[e + 1 - b + t];
      }
      assert p[b - 1] == s[e + 1 - b + (b - 1)];
    }
  }

  /** `MatchAt` is a full-length suffix match ending where the occurrence ends. */
  lemma MatchIsSuffixMatch(text: seq<char>, pattern: seq<char>, s: int)
    requires 0 <= s && s + |pattern| <= |text|
    ensures MatchAt(text, pattern, s) <==> SuffixMatch(text, s + |pattern|, pattern, |pattern|)
  {
  }

  /** The border table: entry `q` is the length of the longest proper border of `p[..q + 1]`. */
  method KmpTable(p: seq<char>) returns (lps: seq<nat>)
    ensures |lps| == |p|
    ensures forall q | 0 <= q < |p| :: LongestBorder(p, q + 1, lps[q])
  {
    lps := seq(|p|, _ => 0);
    if |p| == 0 {
      return;
    }
    var j := 0;
    var i := 1;
    while i < |p|
      invariant 1 <= i <= |p| && |lps| == |p|
      invariant forall q | 0 <= q < i :: LongestBorder(p, q + 1, lps[q])
      invariant forall q | i <= q < |p| :: lps[q] == 0
      invariant j == lps[i - 1]
    {
      while j > 0 && p[i] != p[j]
        invariant 0 <= j < i
        invariant SuffixMatch(p, i, p, j)
        invariant forall b | j < b < i && SuffixMatch(p, i, p, b) :: p[b] != p[i]
      {
        FallbackStep(p, i, p, j, lps[j - 1], p[i], i);
        j := lps[j - 1];
      }
      AdvanceStep(p, i, p, j, i);
      if p[i] == p[j] {
        j := j + 1;
        lps := lps[i := j];
      }
      i := i + 1;
    }
  }

  /** Knuth–Morris–Pratt: scans the text once, falling back along the border table on a mismatch. */
  method KmpSearch(text: seq<char>, pattern: seq<char>) returns (r: int)
    ensures r == Find(text, pattern)
  {
    var m := |pattern|;
    if m == 0 {
      FindEdgeCases(text, pattern);
      return 0;
    }
    var lps := KmpTable(pattern);
    var j := 0;
    var i := 0;
    while i < |text|
      invariant 0 <= i <= |text| && j < m
      invariant SuffixMatch(text, i, pattern, j)
      invariant NoLongerMatch(text, i, pattern, j, m)
      invariant NoMatchBefore(text, pattern, i - m + 1)
    {
      var ch := text[i];
      while j > 0 && ch != pattern[j]
        invariant 0 <= j < m
        invariant SuffixMatch(text, i, pattern, j)
        invariant forall b | j < b < m && SuffixMatch(text, i, pattern, b) :: pattern[b] != ch
      {
        FallbackStep(text, i, pattern, j, lps[j - 1], ch, m);
        j := lps[j - 1];
      }
      AdvanceStep(text, i, pattern, j, m);
      if ch == pattern[j] {
        j := j + 1;
        if j == m {
          MatchIsSuffixMatch(text, pattern, i - m + 1);
          FindUnique(text, pattern, i - m + 1);
          return i - m + 1;
        }
      } else {
        j := 0;
      }
      if i + 1 - m >= 0 {
        MatchIsSuffixMatch(text, pattern, i + 1 - m);
      }
      i := i + 1;
    }
    FindUnique(text, pattern, -1);
    return -1;
  }

  // ---------------------------------------------------------------------
  // Rabin–Karp

  /** A character's code point. */
  function Ord(c: char): int { c as int }

  /** The polynomial value of `s` in `base`, most significant character first. */
  function Poly(s: seq<char>, base: int): int {
    if s == [] then 0 else Poly(s[..|s| - 1], base) * base + Ord(s[|s| - 1])
  }

  function Pow(b: int, e: nat): int {
    if e == 0 then 1 else b * Pow(b, e - 1)
  }

  /** Splitting off the first character: its term carries the highest power of the base. */
  lemma {:induction false} PolyDropFirst(s: seq<char>, base: int)
    requires |s| > 0
    ensures Poly(s, base) == Ord(s[0]) * Pow(base, |s| - 1) + Poly(s[1..], base)
    decreases |s|
  {
    if |s| > 1 {
      var init := s[..|s| - 1];
      PolyDropFirst(init, base);
      assert init[1..] == s[1..][..|s| - 2];
      calc {
        Poly(s, base);
        Poly(init, base) * base + Ord(s[|s| - 1]);
        (Ord(s[0]) * Pow(base, |s| - 2) + Poly(s[1..][..|s| - 2], base)) * base + Ord(s[|s| - 1]);
        { assert Pow(base, |s| - 1) == base * Pow(base, |s| - 2); }
        Ord(s[0]) * Pow(base, |s| - 1) + (Poly(s[1..][..|s| - 2], base) * base + Ord(s[1..][|s| - 2]));
      }
    } else {
      assert s[..0] == [] && s[1..] == [];
    }
  }

  lemma MulAtLeast(e: int, m: int)
    requires e >= 1 && m > 0
    ensures e * m >= m
  {
    var k := e - 1;
    assert e * m == k * m + m;
    assert k * m >= 0;
  }

  /** A non-zero multiple of `m` is at least `m` away from zero. */
  lemma MulAwayFromZero(d: int, m: int)
    requires m > 0
    ensures d >= 1 ==> d * m >= m
    ensures d <= -1 ==> d * m <= -m
  {
    if d >= 1 {
      MulAtLeast(d, m);
    }
    if d <= -1 {
      MulAtLeast(-d, m);
      assert d * m == -((-d) * m);
    }
  }

  /** Euclidean division is unique. */
  lemma ModUnique(x: int, q: int, r: int, m: int)
    requires m > 0 && 0 <= r < m && x == q * m + r
    ensures x % m == r
  {
    var q', r' := x / m, x % m;
    assert (q - q') * m == r' - r;
    MulAwayFromZero(q - q', m);
  }

  lemma ModAddMultiple(a: int, k: int, m: int)
    requires m > 0
    ensures (a + k * m) % m == a % m
  {
    ModUnique(a + k * m, a / m + k, a % m, m);
  }

  /** Reducing before a multiply-and-add does not change the result modulo `m`. */
  lemma ModMulAdd(a: int, b: int, c: int, m: int)
    requires m > 0
    ensures (a % m * b + c) % m == (a * b + c) % m
  {
    assert a % m * b + c == (a * b + c) + (-(a / m) * b) * m by {
      assert a % m == a - (a / m) * m;
    }
    ModAddMultiple(a * b + c, -(a / m) * b, m);
  }

  lemma RollAlgebra(w: int, c: int, p: int, rest: int, m: int, wq: int, wr: int, pq: int, pr: int)
    requires w == wq * m + wr && p == pq * m + pr && w == c * p + rest
    ensures wr - c * pr == rest + (c * pq - wq) * m
  {
    assert c * p == c * (pq * m) + c * pr;
    assert c * (pq * m) == (c * pq) * m;
    assert (c * pq - wq) * m == (c * pq) * m - wq * m;
  }

  /** Removing the leading term and appending a character, all modulo `m`, gives the hash of the next window. */
  lemma RollStep(w: int, c: int, p: int, rest: int, b: int, d: int, m: int)
    requires m > 0 && w == c * p + rest
    ensures ((w % m - c * (p % m)) % m * b + d) % m == (rest * b + d) % m
  {
    var k := c * (p / m) - w / m;
    var x := w % m - c * (p % m);
    RollAlgebra(w, c, p, rest, m, w / m, w % m, p / m, p % m);
    assert x == rest + k * m;
    ModAddMultiple(rest, k, m);
    assert x % m == rest % m;
    ModMulAdd(rest, b, d, m);
  }

  /** The rolling update turns the hash of `text[i..i + m]` into the hash of `text[i + 1..i + 1 + m]`. */
  lemma RollWindow(text: seq<char>, i: nat, m: nat, base: int, modulus: int, ht: int, powm: int)
    requires modulus > 0 && 0 < m && i + m < |text|
    requires ht == Poly(text[i..i + m], base) % modulus && powm == Pow(base, m - 1) % modulus
    ensures ((ht - Ord(text[i]) * powm) % modulus * base + Ord(text[i + m])) % modulus
            == Poly(text[i + 1..i + 1 + m], base) % modulus
  {
    var w := text[i..i + m];
    PolyDropFirst(w, base);
    assert w[1..] == text[i + 1..i + m];
    RollStep(Poly(w, base), Ord(text[i]), Pow(base, m - 1), Poly(text[i + 1..i + m], base), base, Ord(text[i + m]), modulus);
    assert text[i + 1..i + 1 + m][..m - 1] == text[i + 1..i + m];
  }

  /** Extending a hashed prefix by one character. */
  lemma HashExtend(s: seq<char>, k: nat, base: int, modulus: int, h: int)
    requires modulus > 0 && k < |s| && h == Poly(s[..k], base) % modulus
    ensures (h * base + Ord(s[k])) % modulus == Poly(s[..k + 1], base) % modulus
  {
    ModMulAdd(Poly(s[..k], base), base, Ord(s[k]), modulus);
    assert s[..k + 1][..k] == s[..k];
  }

  /** Equal windows have equal hashes, so a window skipped by the hash test or the comparison is no occurrence. */
  lemma NoHashMiss(text: seq<char>, pattern: seq<char>, i: nat, base: int, modulus: int, hp: int, ht: int)
    requires modulus > 0 && i + |pattern| <= |text|
    requires hp == Poly(pattern, base) % modulus && ht == Poly(text[i..i + |pattern|], base) % modulus
    requires !(hp == ht && text[i..i + |pattern|] == pattern)
    requires NoMatchBefore(text, pattern, i)
    ensures NoMatchBefore(text, pattern, i + 1)
  {
    SliceMatch(text, pattern, i);
  }

  lemma SliceMatch(text: seq<char>, pattern: seq<char>, i: nat)
    requires i + |pattern| <= |text|
    ensures text[i..i + |pattern|] == pattern <==> MatchAt(text, pattern, i)
  {
    if MatchAt(text, pattern, i) {
      assert forall t | 0 <= t < |pattern| :: text[i..i + |pattern|][t] == pattern[t];
    }
  }

  /**
   * Rabin–Karp: compares the hash of each window with the pattern's hash and
   * confirms a hash hit by comparing the characters.  The window hash is
   * rolled forward in constant time; equal windows always have equal hashes,
   * so no occurrence is missed.
   */
  method RabinKarp(text: seq<char>, pattern: seq<char>, base: int := 256, modulus: int := 1_000_000_007)
    returns (r: int)
    requires modulus > 0
    ensures r == Find(text, pattern)
  {
    var n, m := |text|, |pattern|;
    if m == 0 {
      FindEdgeCases(text, pattern);
      return 0;
    }
    if m > n {
      FindEdgeCases(text, pattern);
      return -1;
    }
    var powm := Pow(base, m - 1) % modulus;
    var hp := 0;
    var ht := 0;
    var k := 0;
    while k < m
      invariant k <= m
      invariant hp == Poly(pattern[..k], base) % modulus
      invariant ht == Poly(text[..k], base) % modulus
    {
      HashExtend(pattern, k, base, modulus, hp);
      HashExtend(text, k, base, modulus, ht);
      hp := (hp * base + Ord(pattern[k])) % modulus;
      ht := (ht * base + Ord(text[k])) % modulus;
      k := k + 1;
    }
    assert pattern[..m] == pattern && text[..m] == text[0..0 + m];
    var i := 0;
    while i < n - m + 1
      invariant i <= n - m + 1
      invariant hp == Poly(pattern, base) % modulus
      invariant i <= n - m ==> ht == Poly(text[i..i + m], base) % modulus
      invariant NoMatchBefore(text, pattern, i)
    {
      if hp == ht && text[i..i + m] == pattern {
        SliceMatch(text, pattern, i);
        FindUnique(text, pattern, i);
        return i;
      }
      NoHashMiss(text, pattern, i, base, modulus, hp, ht);
      if i < n - m {
        RollWindow(text, i, m, base, modulus, ht, powm);
        ht := (ht - Ord(text[i]) * powm) % modulus;
        ht := (ht * base + Ord(text[i + m])) % modulus;
      }
      i := i + 1;
    }
    FindUnique(text, pattern, -1);
    return -1;
  }
}
