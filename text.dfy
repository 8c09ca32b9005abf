/** Character-buffer primitives used by the patcher: substring search with
    Python `str.find` semantics and slice-and-concatenate splicing. */
module Text {

  datatype Option<T> = None | Some(value: T)

  /** `pat` occurs in `s` starting at offset `k`. */
  predicate OccursAt(s: string, pat: string, k: int)
  {
    0 <= k && k + |pat| <= |s| && s[k..k + |pat|] == pat
  }

  /** `s.find(pat, from)` for a non-negative start: the first offset at or
      after `from` where `pat` occurs, or -1 when there is none. */
  function Find(s: string, pat: string, from: nat): (r: int)
    ensures r == -1 || (from <= r && OccursAt(s, pat, r))
    ensures r == -1 ==> forall k :: from <= k ==> !OccursAt(s, pat, k)
    ensures r != -1 ==> forall k :: from <= k < r ==> !OccursAt(s, pat, k)
    decreases |s| - from
  {
    if from + |pat| > |s| then -1
    else if s[from..from + |pat|] == pat then from
    else Find(s, pat, from + 1)
  }

  /** The result of `Find` is pinned down by the first occurrence. */
  lemma FindIs(s: string, pat: string, from: nat, k: nat)
    requires from <= k && OccursAt(s, pat, k)
    requires forall j :: from <= j < k ==> !OccursAt(s, pat, j)
    ensures Find(s, pat, from) == k
  {
  }

  /** A one-character pattern occurs exactly where that character stands. */
  lemma OccursChar(s: string, c: char, k: int)
    ensures OccursAt(s, [c], k) <==> 0 <= k < |s| && s[k] == c
  {
    if 0 <= k < |s| {
      assert s[k..k + 1] == [s[k]];
    }
  }

  /** A one-character search stops at the first offset holding that character. */
  lemma FindCharIs(s: string, c: char, from: nat, k: nat)
    requires from <= k < |s| && s[k] == c
    requires forall j :: from <= j < k ==> s[j] != c
    ensures Find(s, [c], from) == k
  {
    OccursChar(s, c, k);
    forall j | from <= j < k
      ensures !OccursAt(s, [c], j)
    {
      OccursChar(s, c, j);
    }
    FindIs(s, [c], from, k);
  }

  /** Conversely, a one-character search stops at the first offset holding
      that character and fails exactly when none follows. */
  lemma FindChar(s: string, c: char, from: nat)
    ensures var r := Find(s, [c], from);
      && (r == -1 ==> forall k :: from <= k < |s| ==> s[k] != c)
      && (r != -1 ==> from <= r < |s| && s[r] == c && forall k :: from <= k < r ==> s[k] != c)
  {
    forall k | 0 <= k < |s|
      ensures OccursAt(s, [c], k) <==> s[k] == c
    {
      OccursChar(s, c, k);
    }
    var r := Find(s, [c], from);
    if r != -1 {
      OccursChar(s, c, r);
    }
  }

  /** Two buffers that agree on offsets below `n` agree on every occurrence
      that ends at or before `n`. */
  lemma OccursAgree(s: string, t: string, n: nat, pat: string, k: int)
    requires n <= |s| && n <= |t| && s[..n] == t[..n]
    requires k + |pat| <= n
    ensures OccursAt(s, pat, k) <==> OccursAt(t, pat, k)
  {
    if 0 <= k {
      assert s[k..k + |pat|] == s[..n][k..k + |pat|];
      assert t[k..k + |pat|] == t[..n][k..k + |pat|];
    }
  }

  /** Search is local: a first occurrence that ends inside a common prefix is
      found at the same offset in any buffer sharing that prefix. */
  lemma FindInCommonPrefix(s: string, t: string, n: nat, pat: string, from: nat)
    requires n <= |s| && n <= |t| && s[..n] == t[..n]
    requires Find(s, pat, from) != -1 && Find(s, pat, from) + |pat| <= n
    ensures Find(t, pat, from) == Find(s, pat, from)
  {
    var k := Find(s, pat, from);
    OccursAgree(s, t, n, pat, k);
    forall j | from <= j < k
      ensures !OccursAt(t, pat, j)
    {
      OccursAgree(s, t, n, pat, j);
    }
    FindIs(t, pat, from, k);
  }

  /** An occurrence starts with the pattern's first character. */
  lemma OccursFirst(s: string, pat: string, k: int)
    requires |pat| > 0 && OccursAt(s, pat, k)
    ensures s[k] == pat[0]
  {
    assert s[k] == s[k..k + |pat|][0];
  }

  /** An occurrence of `pat` covers no character that `pat` lacks. */
  lemma OccursAvoids(s: string, pat: string, k: int, c: char)
    requires OccursAt(s, pat, k) && c !in pat
    ensures forall j :: k <= j < k + |pat| ==> s[j] != c
  {
    forall j | k <= j < k + |pat|
      ensures s[j] != c
    {
      assert s[j] == s[k..k + |pat|][j - k] == pat[j - k];
    }
  }

  /** Offsets without an occurrence can be skipped before searching. */
  lemma FindSkip(s: string, pat: string, from: nat, x: nat)
    requires from <= x
    requires forall k :: from <= k < x ==> !OccursAt(s, pat, k)
    ensures Find(s, pat, from) == Find(s, pat, x)
  {
    var r := Find(s, pat, x);
    if r != -1 {
      FindIs(s, pat, from, r);
    }
  }

  /** Search inside a window of a buffer that holds a known text finds what
      search in that text finds, when the occurrence lies inside the window. */
  lemma FindInWindow(t: string, w: nat, p: string, pat: string, j: nat)
    requires w + |p| <= |t| && t[w..w + |p|] == p
    requires Find(p, pat, j) != -1
    ensures Find(t, pat, w + j) == w + Find(p, pat, j)
  {
    var k := Find(p, pat, j);
    assert OccursAt(p, pat, k);
    assert k + |pat| <= |p|;
    forall x | w + j <= x <= w + k
      ensures OccursAt(t, pat, x) <==> OccursAt(p, pat, x - w)
    {
      var i := x - w;
      assert i + |pat| <= |p|;
      var u, v := t[x..x + |pat|], p[i..i + |pat|];
      forall d | 0 <= d < |pat|
        ensures u[d] == v[d]
      {
        assert t[x + d] == t[w..w + |p|][i + d];
      }
      assert u == v;
    }
    FindIs(t, pat, w + j, w + k);
  }

  /** The middle part of a three-part concatenation occurs right after the
      first part. */
  lemma MiddleOfConcat(a: string, b: string, c: string)
    ensures OccursAt(a + b + c, b, |a|)
  {
    assert (a + b + c)[|a|..|a| + |b|] == b;
  }

  /** An occurrence inside an occurrence is an occurrence in the outer
      buffer, shifted by the outer offset. */
  lemma OccursWithin(s: string, big: string, k: int, small: string, j: int)
    requires OccursAt(s, big, k) && OccursAt(big, small, j)
    ensures OccursAt(s, small, k + j)
  {
    forall d | 0 <= d < |small|
      ensures s[k + j + d] == small[d]
    {
      assert s[k + j + d] == s[k..k + |big|][j + d] == big[j + d];
      assert big[j + d] == big[j..j + |small|][d];
    }
    assert s[k + j..k + j + |small|] == small;
  }

  /** Each part of a five-part concatenation occurs where the parts before
      it end. */
  lemma FiveParts(a: string, b: string, c: string, d: string, e: string)
    ensures OccursAt(a + b + c + d + e, a, 0)
    ensures OccursAt(a + b + c + d + e, b, |a|)
    ensures OccursAt(a + b + c + d + e, c, |a| + |b|)
    ensures OccursAt(a + b + c + d + e, d, |a| + |b| + |c|)
    ensures OccursAt(a + b + c + d + e, e, |a| + |b| + |c| + |d|)
  {
    var r := a + b + c + d + e;
    assert r[..|a|] == a;
    assert r[|a|..|a| + |b|] == b;
    assert r[|a| + |b|..|a| + |b| + |c|] == c;
    assert r[|a| + |b| + |c|..|a| + |b| + |c| + |d|] == d;
    assert r[|a| + |b| + |c| + |d|..] == e;
  }

  /** `s[:lo] + ins + s[hi:]`: replace the span `[lo, hi)` of `s` by `ins`. */
  function Splice(s: string, lo: nat, hi: nat, ins: string): (r: string)
    requires lo <= hi <= |s|
    ensures |r| == |s| - (hi - lo) + |ins|

  {
    s[..lo] + ins + s[hi..]
  }

  /** Splicing in the text that is already there changes nothing. */
  lemma SpliceSame(s: string, lo: nat, ins: string)
    requires lo + |ins| <= |s| && s[lo..lo + |ins|] == ins
    ensures Splice(s, lo, lo + |ins|, ins) == s
  {
    assert s == s[..lo] + s[lo..lo + |ins|] + s[lo + |ins|..];
  }
}
