/** Idempotence of one entry update (AgentNFA or ListingManager): running
    the address splice and the ABI splice again with the same values leaves
    the text as the first run left it. */
module EntryProps {
  import opened Text
  import opened Scan
  import opened Patcher
  import opened PatcherProps

  /** The entry whose anchor is at `from` has an address field and an ABI
      field, in that order: the address literal closes before the `abi:`
      marker, as in the registry's layout. */
  predicate AddressBeforeAbi(s: string, from: nat)
  {
    && LocateAddress(s, from).Some? && LocateAbi(s, from).Some?
    && LocateAddress(s, from).value.close < LocateAbi(s, from).value.marker
  }

  /** The address splice creates no `abi:` marker up to the new closing
      quote when the new address holds no quote and no colon: such a marker
      would hold a quote or end in the address with its colon. */
  lemma NoAbiMarkerThroughAddress(s: string, from: nat, addr: string, f: AddressField, s1: string)
    requires '"' !in addr && ':' !in addr
    requires AddressFieldAt(s, from, f)
    requires forall k :: from <= k < f.open ==> !OccursAt(s, ABI_MARKER, k)
    requires s1 == Splice(s, f.open + 1, f.close, addr)
    ensures forall k :: from <= k <= f.open + 1 + |addr| ==> !OccursAt(s1, ABI_MARKER, k)
  {
    var n := f.open + 1;
    var c := n + |addr|;
    assert s1[..n] == s[..n];
    assert s1[f.open] == '"' by {
      assert s1[f.open] == s1[..n][f.open];
    }
    assert s1[c] == '"' by {
      assert s1[c] == s[f.close];
    }
    forall k | from <= k <= c
      ensures !OccursAt(s1, ABI_MARKER, k)
    {
      if OccursAt(s1, ABI_MARKER, k) {
        if k + |ABI_MARKER| <= n {
          OccursAgree(s, s1, n, ABI_MARKER, k);
        } else if k <= f.open || c < k + |ABI_MARKER| {
          OccursAvoids(s1, ABI_MARKER, k, '"');
        } else {
          ColonInsideAddress(s, f, addr, s1, k);
        }
      }
    }
  }

  /** A colon at `k + 3` inside the new address would be a colon of the
      address. */
  lemma ColonInsideAddress(s: string, f: AddressField, addr: string, s1: string, k: nat)
    requires ':' !in addr
    requires f.open + 1 <= f.close <= |s|
    requires s1 == Splice(s, f.open + 1, f.close, addr)
    requires f.open < k && k + 3 < f.open + 1 + |addr|
    ensures !OccursAt(s1, ABI_MARKER, k)
  {
    var n := f.open + 1;
    assert s1[k + 3] == addr[k + 3 - n];
  }

  /** After the first run the ABI field of the entry lies past its address
      literal. */
  lemma AbiAfterNewAddress(s: string, a: nat, addr: string, s1: string)
    requires '"' !in addr && ':' !in addr
    requires AddressBeforeAbi(s, a)
    requires ReplaceAddress(s, a, addr) == Some(s1)
    requires LocateAbi(s1, a).Some?
    ensures var f := LocateAddress(s, a).value;
      && AddressFieldAt(s1, a, AddressField(f.marker, f.open, f.open + 1 + |addr|))
      && f.open + 1 + |addr| < LocateAbi(s1, a).value.marker
  {
    var f := LocateAddress(s, a).value;
    assert s1 == Splice(s, f.open + 1, f.close, addr);
    LocateAddressSpec(s, a);
    LocateAbiSpec(s, a);
    AddressFieldAfterSplice(s, a, addr, f, s1);
    NoAbiMarkerThroughAddress(s, a, addr, f, s1);
    LocateAbiSpec(s1, a);
  }

  /** The address splice writes the new address right after the opening
      quote. */
  lemma NewAddressWritten(s: string, a: nat, addr: string, f: AddressField, s1: string)
    requires LocateAddress(s, a) == Some(f)
    requires ReplaceAddress(s, a, addr) == Some(s1)
    ensures OccursAt(s1, addr, f.open + 1)
  {
    MiddleOfConcat(s[..f.open + 1], addr, s[f.close..]);
  }

  /** The anchor ends before the `[` of the ABI field it leads to, when the
      entry name holds no `[`. */
  lemma AnchorBeforeBracket(s: string, name: string, a: nat, g: AbiField)
    requires '[' !in name
    requires OccursAt(s, Anchor(name), a)
    requires AbiFieldAt(s, a, g)
    ensures a + |Anchor(name)| <= g.bracket
  {
    assert '[' !in Anchor(name);
    if g.bracket < a + |Anchor(name)| {
      OccursAvoids(s, Anchor(name), a, '[');
    }
  }

  /** Entry idempotence (update_contracts.py:27-52, 54-77): with a name that
      holds no quote and no `[`, an address that holds no quote and no
      colon, a closed ABI block and an entry whose address field precedes
      its ABI field, updating the entry again with the same values gives
      back the text of the first update. */
  lemma UpdateEntryIdempotent(s: string, name: string, addr: string, abi: string, t: string)
    requires '"' !in name && '[' !in name
    requires '"' !in addr && ':' !in addr
    requires ClosedBlock(abi)
    requires Find(s, Anchor(name), 0) != -1 ==> AddressBeforeAbi(s, Find(s, Anchor(name), 0))
    requires UpdateEntry(s, name, addr, abi) == Patched(t)
    ensures UpdateEntry(t, name, addr, abi) == Patched(t)
  {
    var a := Find(s, Anchor(name), 0);
    if a != -1 {
      var f := LocateAddress(s, a).value;
      var s1 := ReplaceAddress(s, a, addr).value;
      UpdateEntrySteps(s, name, addr, abi, t, a, s1);
      AbiAfterNewAddress(s, a, addr, s1);
      NewAddressWritten(s, a, addr, f, s1);
      SecondRunAddress(s1, name, a, addr, abi, t, f);
      ReplaceAbiIdempotent(s1, a, abi, t);
      UpdateEntryFromSteps(t, name, addr, abi, a, t, t);
    }
  }

  /** A patched entry update is the address splice at the anchor followed
      by the ABI splice at the same anchor. */
  lemma UpdateEntrySteps(s: string, name: string, addr: string, abi: string, t: string, a: nat, s1: string)
    requires '"' !in name
    requires Find(s, Anchor(name), 0) == a
    requires ReplaceAddress(s, a, addr) == Some(s1)
    requires UpdateEntry(s, name, addr, abi) == Patched(t)
    ensures Find(s1, Anchor(name), 0) == a
    ensures ReplaceAbi(s1, a, abi) == Some(t)
  {
    AnchorStable(s, Anchor(name), addr);
  }

  /** The address splice at the anchor followed by the ABI splice at the
      same anchor make up the entry update: the anchor the update finds
      again in the edited buffer is the original one. */
  lemma UpdateEntryFromSteps(s: string, name: string, addr: string, abi: string, a: nat, s1: string, t: string)
    requires '"' !in name
    requires Find(s, Anchor(name), 0) == a
    requires ReplaceAddress(s, a, addr) == Some(s1)
    requires ReplaceAbi(s1, a, abi) == Some(t)
    ensures UpdateEntry(s, name, addr, abi) == Patched(t)
  {
    AnchorStable(s, Anchor(name), addr);
  }

  /** The entry update reports its address field exactly when the anchor
      is found and no `address:` field with two quotes follows it. */
  lemma UpdateEntryMissingAddress(s: string, name: string, addr: string, abi: string)
    requires '"' !in name
    ensures var a := Find(s, Anchor(name), 0);
      UpdateEntry(s, name, addr, abi) == MissingField(name, ADDRESS_MARKER)
      <==> a != -1 && LocateAddress(s, a).None?
  {
  }

  /** The entry update reports its ABI field exactly when the anchor is
      found, the address is spliced, and no `abi:` marker followed by a `[`
      comes after the anchor in the edited buffer. */
  lemma UpdateEntryMissingAbi(s: string, name: string, addr: string, abi: string)
    requires '"' !in name
    ensures var a := Find(s, Anchor(name), 0);
      UpdateEntry(s, name, addr, abi) == MissingField(name, ABI_MARKER)
      <==> a != -1 && ReplaceAddress(s, a, addr).Some?
           && LocateAbi(ReplaceAddress(s, a, addr).value, a).None?
  {
    var a := Find(s, Anchor(name), 0);
    if a != -1 && ReplaceAddress(s, a, addr).Some? {
      AnchorStable(s, Anchor(name), addr);
    }
  }

  /** The second run over the text of the first finds the anchor and the
      address field where the first run left them, and the address splice
      writes what is already there. */
  lemma SecondRunAddress(s1: string, name: string, a: nat, addr: string, abi: string, t: string, f: AddressField)
    requires '[' !in name
    requires ClosedBlock(abi)
    requires Find(s1, Anchor(name), 0) == a
    requires ReplaceAbi(s1, a, abi) == Some(t)
    requires AddressFieldAt(s1, a, AddressField(f.marker, f.open, f.open + 1 + |addr|))
    requires OccursAt(s1, addr, f.open + 1)
    requires f.open + 1 + |addr| < LocateAbi(s1, a).value.marker
    ensures Find(t, Anchor(name), 0) == a
    ensures ReplaceAddress(t, a, addr) == Some(t)
  {
    var f1 := AddressField(f.marker, f.open, f.open + 1 + |addr|);
    var g := LocateAbi(s1, a).value;
    var b := g.bracket;
    LocateAbiSpec(s1, a);
    AbiKeepsPrefix(s1, a, abi, t, g);
    AnchorBeforeBracket(s1, name, a, g);
    FindInCommonPrefix(s1, t, b, Anchor(name), 0);
    SameAddressInPrefix(s1, t, b, a, addr, f1);
  }

  /** A buffer that agrees with one holding `addr` as its address literal,
      up to past that literal, holds the same literal: writing `addr` there
      again changes nothing. */
  lemma SameAddressInPrefix(s: string, t: string, n: nat, from: nat, addr: string, f: AddressField)
    requires AddressFieldAt(s, from, f)
    requires f.close == f.open + 1 + |addr| && OccursAt(s, addr, f.open + 1)
    requires f.close < n <= |s| && n <= |t| && t[..n] == s[..n]
    ensures ReplaceAddress(t, from, addr) == Some(t)
  {
    AddressFieldInPrefix(s, t, n, from, f);
    LocateAddressFrom(t, from, f);
    OccursAgree(s, t, n, addr, f.open + 1);
    ReplaceAddressSame(t, from, addr, f);
  }
}
