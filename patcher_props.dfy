/** Properties of the patcher: what each splice preserves, that the entry
    anchor survives the address edit, that the scans bound a balanced
    region, and that running a step again changes nothing. */
module PatcherProps {
  import opened Text
  import opened Scan
  import opened Patcher

  /** The address field is missing exactly when no `address:` at or after
      `from` is followed by two quote characters. */
  lemma LocateAddressMissing(s: string, from: nat)
    ensures LocateAddress(s, from).None? <==>
      forall m, q :: from <= m <= q < |s| && OccursAt(s, ADDRESS_MARKER, m) && s[q] == '"' ==>
        forall k :: q < k < |s| ==> s[k] != '"'
  {
    var m0 := Find(s, ADDRESS_MARKER, from);
    if m0 != -1 {
      FindChar(s, '"', m0);
      var q1 := Find(s, QUOTE, m0);
      if q1 != -1 {
        FindChar(s, '"', q1 + 1);
      }
    }
  }

  /** The ABI field is missing exactly when no `abi:` at or after `from` is
      followed by a `[`. */
  lemma LocateAbiMissing(s: string, from: nat)
    ensures LocateAbi(s, from).None? <==>
      forall m :: from <= m < |s| && OccursAt(s, ABI_MARKER, m) ==>
        forall k :: m <= k < |s| ==> s[k] != '['
  {
    var m0 := Find(s, ABI_MARKER, from);
    if m0 != -1 {
      FindChar(s, '[', m0);
    }
  }

  /** Address splice (update_contracts.py:33-35): the result is the text up
      to and including the opening quote, the new address, then the text
      from the closing quote on; the length changes by the difference. */
  lemma ReplaceAddressSplice(s: string, from: nat, addr: string)
    requires LocateAddress(s, from).Some?
    ensures var f := LocateAddress(s, from).value;
            var t := ReplaceAddress(s, from, addr).value;
      && |t| == |s| + |addr| - (f.close - f.open - 1)
      && t[..f.open + 1] == s[..f.open + 1]
      && t[f.open + 1..f.open + 1 + |addr|] == addr
      && t[f.open + 1 + |addr|..] == s[f.close..]
      && t[f.open] == '"' && t[f.open + 1 + |addr|] == '"'
  {
  }

  /** After the address splice the same field is found again, now closing
      right after the new address when the address holds no quote. */
  lemma LocateAddressAfterReplace(s: string, from: nat, addr: string, f: AddressField)
    requires '"' !in addr
    requires LocateAddress(s, from) == Some(f)
    ensures LocateAddress(Splice(s, f.open + 1, f.close, addr), from) ==
      Some(AddressField(f.marker, f.open, f.open + 1 + |addr|))
  {
    var t := Splice(s, f.open + 1, f.close, addr);
    LocateAddressSpec(s, from);
    AddressFieldAfterSplice(s, from, addr, f, t);
    LocateAddressFrom(t, from, AddressField(f.marker, f.open, f.open + 1 + |addr|));
  }

  /** The address field survives the splice of a quote-free address: the
      text up to the opening quote is kept, and the new address is followed
      by the old closing quote. */
  lemma AddressFieldAfterSplice(s: string, from: nat, addr: string, f: AddressField, t: string)
    requires '"' !in addr
    requires AddressFieldAt(s, from, f)
    requires t == Splice(s, f.open + 1, f.close, addr)
    ensures AddressFieldAt(t, from, AddressField(f.marker, f.open, f.open + 1 + |addr|))
  {
    var n := f.open + 1;
    assert t[..n] == s[..n];
    OccursAgree(s, t, n, ADDRESS_MARKER, f.marker);
    forall k | from <= k < f.marker
      ensures !OccursAt(t, ADDRESS_MARKER, k)
    {
      OccursAgree(s, t, n, ADDRESS_MARKER, k);
    }
    forall k | f.marker <= k <= f.open
      ensures t[k] == s[k]
    {
      assert t[k] == t[..n][k];
    }
    forall k | n <= k < n + |addr|
      ensures t[k] != '"'
    {
      assert t[k] == addr[k - n];
    }
    assert t[n + |addr|] == s[f.close];
  }

  /** `LocateAddress` is determined by its three searches. */
  lemma LocateAddressIs(t: string, from: nat, m: nat, q1: nat, q2: nat)
    requires Find(t, ADDRESS_MARKER, from) == m
    requires Find(t, QUOTE, m) == q1
    requires Find(t, QUOTE, q1 + 1) == q2
    ensures LocateAddress(t, from) == Some(AddressField(m, q1, q2))
  {
  }

  /** Address idempotence (update_contracts.py:33-35, 60-62): replacing the
      address a second time with the same quote-free address gives the
      same text. */
  lemma ReplaceAddressIdempotent(s: string, from: nat, addr: string, t: string)
    requires '"' !in addr
    requires ReplaceAddress(s, from, addr) == Some(t)
    ensures ReplaceAddress(t, from, addr) == Some(t)
  {
    var f := LocateAddress(s, from).value;
    assert t == Splice(s, f.open + 1, f.close, addr);
    LocateAddressAfterReplace(s, from, addr, f);
    ReplaceAddressSame(t, from, addr, AddressField(f.marker, f.open, f.open + 1 + |addr|));
  }

  /** Replacing an address by the text already between its quotes changes
      nothing. */
  lemma ReplaceAddressSame(t: string, from: nat, addr: string, f: AddressField)
    requires LocateAddress(t, from) == Some(f)
    requires f.close == f.open + 1 + |addr| && OccursAt(t, addr, f.open + 1)
    ensures ReplaceAddress(t, from, addr) == Some(t)
  {
    SpliceSame(t, f.open + 1, addr);
  }

  /** ABI splice locality (update_contracts.py:41-52): when the block after
      the `[` closes, exactly the region from the `[` to one past its
      matching `]` is replaced, and that region is balanced; when it never
      closes the text is unchanged. */
  lemma ReplaceAbiSplice(s: string, from: nat, abi: string)
    requires LocateAbi(s, from).Some?
    ensures var b := LocateAbi(s, from).value.bracket;
            var e := MatchingClose(s, b, '[', ']');
            var t := ReplaceAbi(s, from, abi).value;
      && (e == -1 ==> t == s)
      && (e != -1 ==>
            && b < e <= |s| && s[e - 1] == ']' && Depth(s, b, e, '[', ']') == 0
            && (forall k :: b < k < e ==> Depth(s, b, k, '[', ']') >= 1)
            && t[..b] == s[..b] && t[b..b + |abi|] == abi && t[b + |abi|..] == s[e..])
  {
    var b := LocateAbi(s, from).value.bracket;
    LocateAbiSpec(s, from);
    if MatchingClose(s, b, '[', ']') != -1 {
      MatchedRegionIsBalanced(s, b, '[', ']');
    }
  }

  /** The ABI splice keeps the text before the `[`, and a non-empty block
      leaves a character at the `[` offset. */
  lemma AbiKeepsPrefix(s: string, from: nat, abi: string, t: string, g: AbiField)
    requires |abi| > 0
    requires LocateAbi(s, from) == Some(g)
    requires ReplaceAbi(s, from, abi) == Some(t)
    ensures g.bracket < |t| && t[..g.bracket] == s[..g.bracket]
  {
    var e := MatchingClose(s, g.bracket, '[', ']');
    if e != -1 {
      assert t == Splice(s, g.bracket, e, abi);
    }
  }

  /** The ABI text is one closed bracket block: it opens with `[` and its
      own first `]` at depth 0 is its last character. */
  predicate ClosedBlock(abi: string)
  {
    |abi| > 0 && abi[0] == '[' && MatchingClose(abi, 0, '[', ']') == |abi|
  }

  /** ABI idempotence: replacing the ABI block again with the same closed
      block gives the same text. */
  lemma ReplaceAbiIdempotent(s: string, from: nat, abi: string, t: string)
    requires ClosedBlock(abi)
    requires ReplaceAbi(s, from, abi) == Some(t)
    ensures ReplaceAbi(t, from, abi) == Some(t)
  {
    var g := LocateAbi(s, from).value;
    var e := MatchingClose(s, g.bracket, '[', ']');
    LocateAbiSpec(s, from);
    if e != -1 {
      var b := g.bracket;
      assert t == Splice(s, b, e, abi);
      assert t[..b] == s[..b];
      assert t[b] == abi[0];
      AbiFieldInPrefix(s, t, from, g);
      LocateAbiFrom(t, from, g);
      assert t[b..b + |abi|] == abi;
      MatchingCloseOfBlock(t, b, abi, '[', ']');
      SpliceSame(t, b, abi);
    }
  }

  /** An ABI field is found again in a buffer that agrees up to its bracket
      and still has a `[` there. */
  lemma AbiFieldInPrefix(s: string, t: string, from: nat, g: AbiField)
    requires AbiFieldAt(s, from, g)
    requires g.bracket < |t| && t[..g.bracket] == s[..g.bracket] && t[g.bracket] == '['
    ensures AbiFieldAt(t, from, g)
  {
    var n := g.bracket;
    OccursAgree(s, t, n, ABI_MARKER, g.marker);
    forall k | from <= k < g.marker
      ensures !OccursAt(t, ABI_MARKER, k)
    {
      OccursAgree(s, t, n, ABI_MARKER, k);
    }
    forall k | g.marker <= k < n
      ensures t[k] == s[k]
    {
      assert t[k] == t[..n][k];
    }
  }

  /** An address field is found again in a buffer that agrees with the
      original past its closing quote. */
  lemma AddressFieldInPrefix(s: string, t: string, n: nat, from: nat, f: AddressField)
    requires AddressFieldAt(s, from, f)
    requires f.close < n <= |s| && n <= |t| && t[..n] == s[..n]
    ensures AddressFieldAt(t, from, f)
  {
    OccursAgree(s, t, n, ADDRESS_MARKER, f.marker);
    forall k | from <= k < f.marker
      ensures !OccursAt(t, ADDRESS_MARKER, k)
    {
      OccursAgree(s, t, n, ADDRESS_MARKER, k);
    }
    forall k | f.marker <= k <= f.close
      ensures t[k] == s[k]
    {
      assert t[k] == t[..n][k];
    }
  }
}
