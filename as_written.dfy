/** The address splice of update_contracts.py:31-35 exactly as written,
    with Python's handling of a -1 fed back in as a start offset or a slice
    bound. It agrees with `Patcher.ReplaceAddress` whenever the address
    field exists, and corrupts the buffer when it does not. */
module AsWritten {
  import opened Text
  import opened Patcher

  /** Python's normalisation of a search start: a negative start counts
      from the end of a buffer of length `n`, clamped at 0. */
  function PyStart(n: nat, start: int): nat
  {
    if start >= 0 then start else if start + n >= 0 then start + n else 0
  }

  /** `s.find(pat, start)` for any start: the first occurrence at or after
      the normalised start, or -1 exactly when there is none. */
  function PyFind(s: string, pat: string, start: int): (r: int)
    ensures r == -1 || (PyStart(|s|, start) <= r && OccursAt(s, pat, r))
    ensures r == -1 <==> forall k :: PyStart(|s|, start) <= k ==> !OccursAt(s, pat, k)
    ensures r != -1 ==> forall k :: PyStart(|s|, start) <= k < r ==> !OccursAt(s, pat, k)
  {
    Find(s, pat, PyStart(|s|, start))
  }

  /** `s[:i]` for `i >= 0`: the prefix of length `i`, or all of `s` when
      `i` runs past its end. */
  function PyPrefix(s: string, i: int): (r: string)
    requires i >= 0
    ensures r <= s
    ensures |r| == if i <= |s| then i else |s|
  {
    if i <= |s| then s[..i] else s
  }

  /** `s[i:]` for `i >= -1`: the suffix from `i`, empty past the end, and
      only the last character for -1. */
  function PySuffix(s: string, i: int): (r: string)
    requires i >= -1
    ensures |r| == if i == -1 then (if |s| == 0 then 0 else 1) else if i <= |s| then |s| - i else 0
    ensures r == s[|s| - |r|..]
  {
    if i == -1 then (if |s| == 0 then s else s[|s| - 1..])
    else if i <= |s| then s[i..] else []
  }

  /** Lines 32-35 without any check of the three searches. Whatever the
      searches return, the result is a prefix of the buffer, the address,
      then a suffix of the buffer; which prefix and suffix is stated by
      `AsWrittenAgrees` and `MarkerMissingAsWritten`. */
  function ReplaceAddressAsWritten(s: string, from: nat, addr: string): (r: string)
    ensures exists p, q :: 0 <= p <= |s| && 0 <= q <= |s| && r == s[..p] + addr + s[q..]
  {
    var m := PyFind(s, ADDRESS_MARKER, from);
    var q1 := PyFind(s, QUOTE, m);
    var q2 := PyFind(s, QUOTE, q1 + 1);
    var pre, suf := PyPrefix(s, q1 + 1), PySuffix(s, q2);
    assert pre == s[..|pre|];
    pre + addr + suf
  }

  /** Where the address field exists the code as written performs the
      modelled splice. */
  lemma AsWrittenAgrees(s: string, from: nat, addr: string)
    requires LocateAddress(s, from).Some?
    ensures ReplaceAddressAsWritten(s, from, addr) == ReplaceAddress(s, from, addr).value
  {
    var f := LocateAddress(s, from).value;
    assert PyFind(s, ADDRESS_MARKER, from) == f.marker;
    assert PyFind(s, QUOTE, f.marker) == f.open;
    assert PyFind(s, QUOTE, f.open + 1) == f.close;
  }

  /** A buffer with a quoted word before an entry that has no address
      field: `"k" AgentNFA: { }`. */
  const NO_ADDRESS := "\"k\" " + Anchor(AGENT_NFA) + " }"

  /** Counterexample: the anchor is found at offset 4, `address:` is not,
      and the code as written prepends the new address to the whole buffer
      instead of leaving it alone. */
  lemma MissingAddressPrepends(addr: string)
    ensures Find(NO_ADDRESS, Anchor(AGENT_NFA), 0) == 4
    ensures ReplaceAddressAsWritten(NO_ADDRESS, 4, addr) == addr + NO_ADDRESS
  {
    NoAddressSearches();
    MarkerMissingAsWritten(NO_ADDRESS, 4, addr, 0);
    assert NO_ADDRESS[0..] == NO_ADDRESS;
  }

  /** With no `address:` after `from` and no quote as the last character,
      the code as written drops everything before the first quote `q` of
      the buffer and puts the address in its place. */
  lemma MarkerMissingAsWritten(s: string, from: nat, addr: string, q: nat)
    requires Find(s, ADDRESS_MARKER, from) == -1
    requires |s| > 0 && s[|s| - 1] != '"'
    requires Find(s, QUOTE, 0) == q
    ensures ReplaceAddressAsWritten(s, from, addr) == addr + s[q..]
  {
    assert PyFind(s, ADDRESS_MARKER, from) == -1;
    assert PyStart(|s|, -1) == |s| - 1;
    FindChar(s, '"', |s| - 1);
    assert PyFind(s, QUOTE, -1) == -1;
    assert PyFind(s, QUOTE, 0) == q;
    assert PyPrefix(s, 0) == [];
    assert PySuffix(s, q) == s[q..];
  }

  /** The same buffer in the model: the entry update stops with the missing
      address field and the buffer is not patched. */
  lemma MissingAddressReported(addr: string, abi: string)
    ensures ReplaceAddress(NO_ADDRESS, 4, addr).None?
    ensures UpdateEntry(NO_ADDRESS, AGENT_NFA, addr, abi) == MissingField(AGENT_NFA, ADDRESS_MARKER)
  {
    NoAddressSearches();
  }

  /** The searches the address splice makes in `NO_ADDRESS`. */
  lemma NoAddressSearches()
    ensures Find(NO_ADDRESS, Anchor(AGENT_NFA), 0) == 4
    ensures Find(NO_ADDRESS, ADDRESS_MARKER, 4) == -1
    ensures Find(NO_ADDRESS, QUOTE, 0) == 0
  {
    var s := NO_ADDRESS;
    assert |s| == 17;
    assert OccursAt(s, Anchor(AGENT_NFA), 4);
    forall k | 0 <= k < 4
      ensures !OccursAt(s, Anchor(AGENT_NFA), k)
    {
      assert s[k + 4] != Anchor(AGENT_NFA)[4];
    }
    FindIs(s, Anchor(AGENT_NFA), 0, 4);
    forall k | 4 <= k
      ensures !OccursAt(s, ADDRESS_MARKER, k)
    {
      if OccursAt(s, ADDRESS_MARKER, k) {
        OccursFirst(s, ADDRESS_MARKER, k);
        OccursAvoids(s, Anchor(AGENT_NFA), 4, 'a');
      }
    }
    FindCharIs(s, '"', 0, 0);
  }
}
