/** Balanced-delimiter scanning over a character buffer. Delimiters are
    counted as raw characters: a bracket inside a quoted string counts too.

    Two scan styles occur in update_contracts.py:
    - the bracket style (ABI blocks) starts AT the opening delimiter with
      depth 0 and stops at the closing delimiter that brings the depth back
      to 0;
    - the brace style (end of the ListingManager object) starts just AFTER
      the opening delimiter with depth 0 and stops at a closing delimiter
      met while the depth is 0. */
module Scan {

  function Delta(c: char, open: char, close: char): int
  {
    if c == open then 1 else if c == close then -1 else 0
  }

  /** Net nesting depth of `s[lo..hi]`: opening minus closing delimiters. */
  function Depth(s: string, lo: nat, hi: nat, open: char, close: char): int
    requires lo <= hi <= |s|
    decreases hi
  {
    if hi == lo then 0 else Depth(s, lo, hi - 1, open, close) + Delta(s[hi - 1], open, close)
  }

  /** Bracket style: the closing delimiter at `i` brings the depth counted
      from `start` (inclusive) back to 0. */
  predicate ClosesAt(s: string, start: nat, i: int, open: char, close: char)
  {
    start <= i < |s| && s[i] == close && Depth(s, start, i + 1, open, close) == 0
  }

  /** Brace style: the closing delimiter at `i` is met while the depth counted
      from `from` is 0. */
  predicate ObjectClosesAt(s: string, from: nat, i: int)
  {
    from <= i < |s| && s[i] == '}' && Depth(s, from, i, '{', '}') == 0
  }

  /** One past the first bracket-style close at or after `i`, or -1. */
  function FirstClose(s: string, start: nat, i: nat, open: char, close: char): (r: int)
    requires start <= i <= |s|
    ensures r == -1 || (i < r <= |s| && ClosesAt(s, start, r - 1, open, close))
    ensures r == -1 ==> forall k :: i <= k < |s| ==> !ClosesAt(s, start, k, open, close)
    ensures r != -1 ==> forall k :: i <= k < r - 1 ==> !ClosesAt(s, start, k, open, close)
    decreases |s| - i
  {
    if i == |s| then -1
    else if ClosesAt(s, start, i, open, close) then i + 1
    else FirstClose(s, start, i + 1, open, close)
  }

  /** One past the delimiter that closes the region starting at `start`, or
      -1 when the buffer ends first. */
  function MatchingClose(s: string, start: nat, open: char, close: char): (r: int)
    requires start <= |s|
    ensures r == -1 || (start < r <= |s| && ClosesAt(s, start, r - 1, open, close))
    ensures r == -1 <==> forall k :: start <= k < |s| ==> !ClosesAt(s, start, k, open, close)
    ensures r != -1 ==> forall k :: start <= k < r - 1 ==> !ClosesAt(s, start, k, open, close)
  {
    FirstClose(s, start, start, open, close)
  }

  /** One past the first brace-style close at or after `i`, or -1. */
  function FirstObjectClose(s: string, from: nat, i: nat): (r: int)
    requires from <= i <= |s|
    ensures r == -1 || (i < r <= |s| && ObjectClosesAt(s, from, r - 1))
    ensures r == -1 ==> forall k :: i <= k < |s| ==> !ObjectClosesAt(s, from, k)
    ensures r != -1 ==> forall k :: i <= k < r - 1 ==> !ObjectClosesAt(s, from, k)
    decreases |s| - i
  {
    if i == |s| then -1
    else if ObjectClosesAt(s, from, i) then i + 1
    else FirstObjectClose(s, from, i + 1)
  }

  /** One past the `}` that closes an object whose body begins at `from`,
      or -1 when the buffer ends first. */
  function ObjectEnd(s: string, from: nat): (r: int)
    requires from <= |s|
    ensures r == -1 || (from < r <= |s| && ObjectClosesAt(s, from, r - 1))
    ensures r == -1 <==> forall k :: from <= k < |s| ==> !ObjectClosesAt(s, from, k)
    ensures r != -1 ==> forall k :: from <= k < r - 1 ==> !ObjectClosesAt(s, from, k)
  {
    FirstObjectClose(s, from, from)
  }

  /** The ABI scan loop (update_contracts.py:42-50): count `[` up and `]`
      down from `bracketStart`, stop one past the `]` that brings the count
      back to 0. */
  method ScanBracketEnd(content: string, bracketStart: nat) returns (abiEnd: int)
    requires bracketStart <= |content|
    ensures abiEnd == MatchingClose(content, bracketStart, '[', ']')
  {
    var count := 0;
    abiEnd := -1;
    for i := bracketStart to |content|
      invariant count == Depth(content, bracketStart, i, '[', ']')
      invariant abiEnd == -1
      invariant forall k :: bracketStart <= k < i ==> !ClosesAt(content, bracketStart, k, '[', ']')
    {
      if content[i] == '[' {
        count := count + 1;
      } else if content[i] == ']' {
        count := count - 1;
        if count == 0 {
          abiEnd := i + 1;
          assert ClosesAt(content, bracketStart, i, '[', ']');
          break;
        }
      }
    }
  }

  /** The end-of-object scan loop (update_contracts.py:107-115): count `{`
      up from `from`; a `}` seen at count 0 ends the object, any other `}`
      counts down. */
  method ScanObjectEnd(content: string, from: nat) returns (objEnd: int)
    requires from <= |content|
    ensures objEnd == ObjectEnd(content, from)
  {
    var count := 0;
    objEnd := -1;
    for i := from to |content|
      invariant count == Depth(content, from, i, '{', '}')
      invariant objEnd == -1
      invariant forall k :: from <= k < i ==> !ObjectClosesAt(content, from, k)
    {
      if content[i] == '{' {
        count := count + 1;
      } else if content[i] == '}' {
        if count == 0 {
          objEnd := i + 1;
          assert ObjectClosesAt(content, from, i);
          break;
        }
        count := count - 1;
      }
    }
  }

  /** Peeling the first character off a depth count. */
  lemma {:induction false} DepthFirst(s: string, p: nat, k: nat, open: char, close: char)
    requires p < k <= |s|
    ensures Depth(s, p, k, open, close) == Delta(s[p], open, close) + Depth(s, p + 1, k, open, close)
    decreases k - p
  {
    if k > p + 1 {
      DepthFirst(s, p, k - 1, open, close);
    }
  }

  /** Depth counts only look at the characters they cover. */
  lemma {:induction false} DepthShift(s: string, b: nat, t: string, c: nat, n: nat, open: char, close: char)
    requires b + n <= |s| && c + n <= |t|
    requires s[b..b + n] == t[c..c + n]
    ensures Depth(s, b, b + n, open, close) == Depth(t, c, c + n, open, close)
  {
    if n > 0 {
      assert s[b..b + n - 1] == s[b..b + n][..n - 1] == t[c..c + n][..n - 1] == t[c..c + n - 1];
      DepthShift(s, b, t, c, n - 1, open, close);
      assert s[b + n - 1] == s[b..b + n][n - 1] == t[c..c + n][n - 1] == t[c + n - 1];
    }
  }

  /** Starting on an opening delimiter, the depth stays at least 1 up to any
      offset `k` before which no close has been found. */
  lemma {:induction false} DepthPositiveBeforeClose(s: string, start: nat, k: nat, open: char, close: char)
    requires open != close
    requires start < k <= |s| && s[start] == open
    requires forall j :: start <= j < k ==> !ClosesAt(s, start, j, open, close)
    ensures Depth(s, start, k, open, close) >= 1
    decreases k - start
  {
    if k > start + 1 {
      DepthPositiveBeforeClose(s, start, k - 1, open, close);
      assert !ClosesAt(s, start, k - 1, open, close);
    }
  }

  /** Bracket-scan correctness: started on an opening delimiter, the scan
      returns one past a closing delimiter where the depth is 0, and the
      depth is at least 1 at every offset strictly inside, so a nested inner
      close never ends the scan. */
  lemma MatchedRegionIsBalanced(s: string, start: nat, open: char, close: char)
    requires open != close
    requires start < |s| && s[start] == open
    requires MatchingClose(s, start, open, close) != -1
    ensures var e := MatchingClose(s, start, open, close);
      s[e - 1] == close && Depth(s, start, e, open, close) == 0 &&
      forall k :: start < k < e ==> Depth(s, start, k, open, close) >= 1
  {
    var e := MatchingClose(s, start, open, close);
    forall k | start < k < e
      ensures Depth(s, start, k, open, close) >= 1
    {
      DepthPositiveBeforeClose(s, start, k, open, close);
    }
  }

  /** The scan fails exactly when the region opened at `start` never closes:
      the depth stays at least 1 all the way to the end of the buffer. */
  lemma UnclosedIff(s: string, start: nat, open: char, close: char)
    requires open != close
    requires start < |s| && s[start] == open
    ensures MatchingClose(s, start, open, close) == -1 <==>
      forall k :: start < k <= |s| ==> Depth(s, start, k, open, close) >= 1
  {
    if MatchingClose(s, start, open, close) == -1 {
      forall k | start < k <= |s|
        ensures Depth(s, start, k, open, close) >= 1
      {
        DepthPositiveBeforeClose(s, start, k, open, close);
      }
    } else {
      var e := MatchingClose(s, start, open, close);
      assert Depth(s, start, e, open, close) == 0;
    }
  }

  /** The two scan styles agree: the brace scan started just after an
      opening `{` returns what the bracket-style scan started on that `{`
      returns. */
  lemma ObjectEndIsMatchingClose(s: string, p: nat)
    requires p < |s| && s[p] == '{'
    ensures ObjectEnd(s, p + 1) == MatchingClose(s, p, '{', '}')
  {
    forall k | p + 1 <= k < |s|
      ensures ObjectClosesAt(s, p + 1, k) <==> ClosesAt(s, p, k, '{', '}')
    {
      DepthFirst(s, p, k + 1, '{', '}');
      if k > p + 1 {
        DepthFirst(s, p + 1, k + 1, '{', '}');
        assert Depth(s, p + 1, k + 1, '{', '}') == Depth(s, p + 1, k, '{', '}') + Delta(s[k], '{', '}');
      }
    }
    assert !ClosesAt(s, p, p, '{', '}');
    var r, body := MatchingClose(s, p, '{', '}'), p + 1;
    if r != -1 {
      assert ObjectClosesAt(s, body, r - 1);
      forall k | body <= k < r - 1
        ensures !ObjectClosesAt(s, body, k)
      {
        assert !ClosesAt(s, p, k, '{', '}');
      }
      FirstObjectCloseIs(s, body, r - 1);
    } else {
      forall k | body <= k < |s|
        ensures !ObjectClosesAt(s, body, k)
      {
        assert !ClosesAt(s, p, k, '{', '}');
      }
    }
  }

  /** A brace-style close with none before it is the one `ObjectEnd` finds. */
  lemma FirstObjectCloseIs(s: string, from: nat, i: nat)
    requires ObjectClosesAt(s, from, i)
    requires forall k :: from <= k < i ==> !ObjectClosesAt(s, from, k)
    ensures ObjectEnd(s, from) == i + 1
  {
  }

  /** A bracket-style close with none before it is the one `MatchingClose` finds. */
  lemma FirstCloseIs(s: string, start: nat, i: nat, open: char, close: char)
    requires ClosesAt(s, start, i, open, close)
    requires forall k :: start <= k < i ==> !ClosesAt(s, start, k, open, close)
    ensures MatchingClose(s, start, open, close) == i + 1
  {
  }

  /** A closed block placed at offset `b` of a buffer is matched at its own
      end there too: the scan depends only on the characters it passes. */
  lemma MatchingCloseOfBlock(t: string, b: nat, blk: string, open: char, close: char)
    requires MatchingClose(blk, 0, open, close) == |blk|
    requires b + |blk| <= |t| && t[b..b + |blk|] == blk
    ensures MatchingClose(t, b, open, close) == b + |blk|
  {
    forall k | b <= k < b + |blk|
      ensures ClosesAt(t, b, k, open, close) <==> ClosesAt(blk, 0, k - b, open, close)
    {
      var j := k - b;
      assert t[b..b + j + 1] == t[b..b + |blk|][..j + 1] == blk[..j + 1] == blk[0..0 + j + 1];
      DepthShift(t, b, blk, 0, j + 1, open, close);
      assert t[b..b + |blk|][j] == blk[j];
    }
    assert ClosesAt(blk, 0, |blk| - 1, open, close);
    FirstCloseIs(t, b, b + |blk| - 1, open, close);
  }
}
