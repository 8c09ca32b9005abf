/** The anchor-based patcher of update_contracts.py: locate a named entry of
    the contracts registry by its text anchor, replace the text between the
    quotes of its `address:` literal and the bracket-balanced block after its
    `abi:` marker, or insert a new PolicyGuard entry after the ListingManager
    object. The buffer is plain text; offsets are re-derived after every
    edit that may shift them. */
module Patcher {
  import opened Text
  import opened Scan

  const ADDRESS_MARKER := "address:"
  const ABI_MARKER := "abi:"
  const QUOTE := "\""
  const BRACKET := "["

  const AGENT_NFA := "AgentNFA"
  const LISTING_MANAGER := "ListingManager"
  const POLICY_GUARD := "PolicyGuard"

  /** The text that opens the entry called `name`, e.g. `AgentNFA: {`. */
  function Anchor(name: string): string
  {
    name + ": {"
  }

  /** Offsets of an address field: its `address:` marker and the opening and
      closing quotes of the literal after it. */
  datatype AddressField = AddressField(marker: nat, open: nat, close: nat)

  /** Offsets of an ABI field: its `abi:` marker and the `[` after it. */
  datatype AbiField = AbiField(marker: nat, bracket: nat)

  /** The new value of every entry, supplied by the caller: addresses and ABI
      texts (the ABI texts already serialised). */
  datatype Deployment = Deployment(
    agentNfaAddress: string, agentNfaAbi: string,
    listingManagerAddress: string, listingManagerAbi: string,
    policyGuardAddress: string, policyGuardAbi: string)

  /** The patched buffer, or the entry and marker that could not be found
      inside an entry whose anchor was found. */
  datatype Outcome = Patched(text: string) | MissingField(entry: string, marker: string)

  /** The address field of the entry whose anchor is at `from`: the first
      `address:` at or after `from`, the first quote at or after it and the
      next quote after that (update_contracts.py:31-34). What each offset
      holds is stated by `LocateAddressSpec`. */
  function LocateAddress(s: string, from: nat): (f: Option<AddressField>)
    ensures f.Some? ==> from <= f.value.marker <= f.value.open < f.value.close < |s|
  {
    var m := Find(s, ADDRESS_MARKER, from);
    if m == -1 then None
    else
      var q1 := Find(s, QUOTE, m);
      if q1 == -1 then None
      else
        var q2 := Find(s, QUOTE, q1 + 1);
        if q2 == -1 then None
        else Some(AddressField(m, q1, q2))
  }

  /** `f` describes the address field that follows `from` in `s`: the
      marker is the first `address:` at or after `from`, the literal opens at
      the first quote after the marker and closes at the next quote. */
  predicate AddressFieldAt(s: string, from: nat, f: AddressField)
  {
    && from <= f.marker && OccursAt(s, ADDRESS_MARKER, f.marker)
    && (forall k :: from <= k < f.marker ==> !OccursAt(s, ADDRESS_MARKER, k))
    && f.marker + |ADDRESS_MARKER| <= f.open < f.close < |s|
    && s[f.open] == '"' && s[f.close] == '"'
    && (forall k :: f.marker <= k < f.open ==> s[k] != '"')
    && (forall k :: f.open < k < f.close ==> s[k] != '"')
  }

  /** What `LocateAddress` finds is the address field after `from`. */
  lemma LocateAddressSpec(s: string, from: nat)
    requires LocateAddress(s, from).Some?
    ensures AddressFieldAt(s, from, LocateAddress(s, from).value)
  {
    var m := Find(s, ADDRESS_MARKER, from);
    FindChar(s, '"', m);
    var q1 := Find(s, QUOTE, m);
    FindChar(s, '"', q1 + 1);
    OccursAvoids(s, ADDRESS_MARKER, m, '"');
  }

  /** The address field after `from` is what `LocateAddress` finds. */
  lemma LocateAddressFrom(s: string, from: nat, f: AddressField)
    requires AddressFieldAt(s, from, f)
    ensures LocateAddress(s, from) == Some(f)
  {
    assert Find(s, ADDRESS_MARKER, from) == f.marker by {
      FindIs(s, ADDRESS_MARKER, from, f.marker);
    }
    assert Find(s, QUOTE, f.marker) == f.open by {
      FindCharIs(s, '"', f.marker, f.open);
    }
    assert Find(s, QUOTE, f.open + 1) == f.close by {
      FindCharIs(s, '"', f.open + 1, f.close);
    }
  }

  /** The ABI field of the entry whose anchor is at `from`: the first `abi:`
      at or after `from` and the first `[` at or after it
      (update_contracts.py:39-41). What each offset holds is stated by
      `LocateAbiSpec`. */
  function LocateAbi(s: string, from: nat): (g: Option<AbiField>)
    ensures g.Some? ==> from <= g.value.marker <= g.value.bracket < |s|
  {
    var m := Find(s, ABI_MARKER, from);
    if m == -1 then None
    else
      var b := Find(s, BRACKET, m);
      if b == -1 then None
      else Some(AbiField(m, b))
  }

  /** `g` describes the ABI field that follows `from` in `s`: the marker is
      the first `abi:` at or after `from` and the bracket the first `[`
      after it. */
  predicate AbiFieldAt(s: string, from: nat, g: AbiField)
  {
    && from <= g.marker && OccursAt(s, ABI_MARKER, g.marker)
    && (forall k :: from <= k < g.marker ==> !OccursAt(s, ABI_MARKER, k))
    && g.marker + |ABI_MARKER| <= g.bracket < |s| && s[g.bracket] == '['
    && (forall k :: g.marker <= k < g.bracket ==> s[k] != '[')
  }

  /** What `LocateAbi` finds is the ABI field after `from`. */
  lemma LocateAbiSpec(s: string, from: nat)
    requires LocateAbi(s, from).Some?
    ensures AbiFieldAt(s, from, LocateAbi(s, from).value)
  {
    var m := Find(s, ABI_MARKER, from);
    FindChar(s, '[', m);
    OccursAvoids(s, ABI_MARKER, m, '[');
  }

  /** The ABI field after `from` is what `LocateAbi` finds. */
  lemma LocateAbiFrom(s: string, from: nat, g: AbiField)
    requires AbiFieldAt(s, from, g)
    ensures LocateAbi(s, from) == Some(g)
  {
    FindIs(s, ABI_MARKER, from, g.marker);
    FindCharIs(s, '[', g.marker, g.bracket);
  }

  /** Replace the text between the quotes of the address literal that
      follows `from` (update_contracts.py:31-35); None when the field is
      missing. */
  function ReplaceAddress(s: string, from: nat, addr: string): (r: Option<string>)
    ensures r.Some? <==> LocateAddress(s, from).Some?
  {
    match LocateAddress(s, from)
    case None => None
    case Some(f) => Some(Splice(s, f.open + 1, f.close, addr))
  }

  /** Replace the bracket-balanced block after the `abi:` marker that follows
      `from` (update_contracts.py:39-52); the buffer is unchanged when the
      block never closes, None when the marker or `[` is missing. */
  function ReplaceAbi(s: string, from: nat, abi: string): (r: Option<string>)
    ensures r.Some? <==> LocateAbi(s, from).Some?
  {
    match LocateAbi(s, from)
    case None => None
    case Some(g) =>
      var e := MatchingClose(s, g.bracket, '[', ']');
      if e == -1 then Some(s) else Some(Splice(s, g.bracket, e, abi))
  }

  /** The address literal is spliced strictly after the anchor text, so the
      anchor is found again at the same offset (update_contracts.py:38, 64). */
  lemma AnchorStable(s: string, anchor: string, addr: string)
    requires '"' !in anchor
    requires Find(s, anchor, 0) != -1
    requires ReplaceAddress(s, Find(s, anchor, 0), addr).Some?
    ensures Find(ReplaceAddress(s, Find(s, anchor, 0), addr).value, anchor, 0) == Find(s, anchor, 0)
  {
    var a := Find(s, anchor, 0);
    var f := LocateAddress(s, a).value;
    var t := ReplaceAddress(s, a, addr).value;
    LocateAddressSpec(s, a);
    OccursAvoids(s, anchor, a, '"');
    assert a + |anchor| <= f.open;
    assert t[..f.open + 1] == s[..f.open + 1];
    FindInCommonPrefix(s, t, f.open + 1, anchor, 0);
  }

  /** One entry update, the code shared by AgentNFA (update_contracts.py:
      27-52) and ListingManager (update_contracts.py:54-77): find the anchor,
      replace the address literal, find the anchor again in the edited
      buffer, replace the ABI block. */
  function UpdateEntry(s: string, name: string, addr: string, abi: string): (r: Outcome)
    requires '"' !in name
    ensures Find(s, Anchor(name), 0) == -1 ==> r == Patched(s)
    ensures r.MissingField? ==> r.entry == name
  {
    var a := Find(s, Anchor(name), 0);
    if a == -1 then Patched(s)
    else match ReplaceAddress(s, a, addr)
      case None => MissingField(name, ADDRESS_MARKER)
      case Some(s1) =>
        AnchorStable(s, Anchor(name), addr);
        match ReplaceAbi(s1, Find(s1, Anchor(name), 0), abi)
        case None => MissingField(name, ABI_MARKER)
        case Some(s2) => Patched(s2)
  }

  /** The fixed text of the PolicyGuard entry up to its address: the comma
      that ends the ListingManager object, the anchor, and the `address:`
      field up to its opening quote. */
  const ENTRY_HEAD := ",\n  " + Anchor(POLICY_GUARD) + "\n    " + ADDRESS_MARKER + " \""

  /** The text between the address and the ABI: the closing quote, the
      type assertion and the `abi:` field up to its value. */
  const ENTRY_MID := "\" as Address,\n    " + ABI_MARKER + " "

  /** The text after the ABI: its type assertion and the end of the entry. */
  const ENTRY_TAIL := " as const,\n  },\n"

  /** The PolicyGuard entry appended after the ListingManager object
      (update_contracts.py:120-125); where its parts sit is stated by
      `PolicyGuardEntryLayout`. */
  function PolicyGuardEntry(addr: string, abi: string): (r: string)
    ensures |r| == |ENTRY_HEAD| + |addr| + |ENTRY_MID| + |abi| + |ENTRY_TAIL|
  {
    ENTRY_HEAD + addr + ENTRY_MID + abi + ENTRY_TAIL
  }

  /** The layout of the PolicyGuard entry: the head, the address, the
      middle part from the closing quote to the space after the `abi:`
      marker, the ABI text and the tail. Together with the length these
      fix every character. */
  lemma PolicyGuardEntryLayout(addr: string, abi: string)
    ensures var r := PolicyGuardEntry(addr, abi);
      && OccursAt(r, ENTRY_HEAD, 0)
      && OccursAt(r, addr, |ENTRY_HEAD|)
      && OccursAt(r, ENTRY_MID, |ENTRY_HEAD| + |addr|)
      && r[|ENTRY_HEAD| + |addr|] == '"'
      && OccursAt(r, ABI_MARKER, |ENTRY_HEAD| + |addr| + |ENTRY_MID| - |ABI_MARKER| - 1)
      && OccursAt(r, abi, |ENTRY_HEAD| + |addr| + |ENTRY_MID|)
      && OccursAt(r, ENTRY_TAIL, |r| - |ENTRY_TAIL|)
  {
    var r := PolicyGuardEntry(addr, abi);
    FiveParts(ENTRY_HEAD, addr, ENTRY_MID, abi, ENTRY_TAIL);
    OccursFirst(r, ENTRY_MID, |ENTRY_HEAD| + |addr|);
    MiddleOfConcat("\" as Address,\n    ", ABI_MARKER, " ");
    OccursWithin(r, ENTRY_MID, |ENTRY_HEAD| + |addr|, ABI_MARKER, |ENTRY_MID| - |ABI_MARKER| - 1);
  }

  /** The PolicyGuard step (update_contracts.py:79-126): when the entry
      exists only its address literal is replaced; otherwise the entry is
      inserted right after the `}` that closes the ListingManager object, or
      the buffer is left as it is when there is no such object. */
  function UpdatePolicyGuard(s: string, addr: string, abi: string): (r: Outcome)
    ensures r.MissingField? ==> r == MissingField(POLICY_GUARD, ADDRESS_MARKER)
  {
    var a := Find(s, Anchor(POLICY_GUARD), 0);
    if a != -1 then
      match ReplaceAddress(s, a, addr)
      case None => MissingField(POLICY_GUARD, ADDRESS_MARKER)
      case Some(s1) => Patched(s1)
    else
      var lm := Find(s, Anchor(LISTING_MANAGER), 0);
      if lm == -1 then Patched(s)
      else
        var e := ObjectEnd(s, lm + |Anchor(LISTING_MANAGER)|);
        if e == -1 then Patched(s)
        else Patched(Splice(s, e, e, PolicyGuardEntry(addr, abi)))
  }

  /** The whole run: AgentNFA, then ListingManager, then PolicyGuard, each
      step working on the buffer the previous one produced. */
  function Patch(content: string, d: Deployment): (r: Outcome)
    ensures r.MissingField? ==> r.entry in {AGENT_NFA, LISTING_MANAGER, POLICY_GUARD}
  {
    match UpdateEntry(content, AGENT_NFA, d.agentNfaAddress, d.agentNfaAbi)
    case MissingField(e, m) => MissingField(e, m)
    case Patched(c1) =>
      match UpdateEntry(c1, LISTING_MANAGER, d.listingManagerAddress, d.listingManagerAbi)
      case MissingField(e, m) => MissingField(e, m)
      case Patched(c2) => UpdatePolicyGuard(c2, d.policyGuardAddress, d.policyGuardAbi)
  }

  /** One entry update on the buffer, scanning the ABI block with the
      counting loop. */
  method PatchEntry(content: string, name: string, addr: string, abi: string) returns (r: Outcome)
    requires '"' !in name
    ensures r == UpdateEntry(content, name, addr, abi)
  {
    var text := content;
    var startIdx := Find(text, Anchor(name), 0);
    if startIdx == -1 {
      return Patched(text);
    }
    var addrField := LocateAddress(text, startIdx);
    if addrField.None? {
      return MissingField(name, ADDRESS_MARKER);
    }
    AnchorStable(text, Anchor(name), addr);
    text := Splice(text, addrField.value.open + 1, addrField.value.close, addr);
    assert Some(text) == ReplaceAddress(content, startIdx, addr);
    startIdx := Find(text, Anchor(name), 0);
    var abiField := LocateAbi(text, startIdx);
    if abiField.None? {
      return MissingField(name, ABI_MARKER);
    }
    var abiEnd := ScanBracketEnd(text, abiField.value.bracket);
    if abiEnd != -1 {
      text := Splice(text, abiField.value.bracket, abiEnd, abi);
    }
    return Patched(text);
  }

  /** The PolicyGuard step on the buffer, finding the end of the
      ListingManager object with the counting loop. */
  method PatchPolicyGuard(content: string, addr: string, abi: string) returns (r: Outcome)
    ensures r == UpdatePolicyGuard(content, addr, abi)
  {
    var text := content;
    var startIdx := Find(text, Anchor(POLICY_GUARD), 0);
    if startIdx != -1 {
      var updated := ReplaceAddress(text, startIdx, addr);
      if updated.None? {
        return MissingField(POLICY_GUARD, ADDRESS_MARKER);
      }
      return Patched(updated.value);
    }
    var lmIdx := Find(text, Anchor(LISTING_MANAGER), 0);
    if lmIdx != -1 {
      var lmEnd := ScanObjectEnd(text, lmIdx + |Anchor(LISTING_MANAGER)|);
      if lmEnd != -1 {
        assert UpdatePolicyGuard(content, addr, abi).Patched?;
        assert UpdatePolicyGuard(content, addr, abi).text == Splice(content, lmEnd, lmEnd, PolicyGuardEntry(addr, abi));
        text := Splice(text, lmEnd, lmEnd, PolicyGuardEntry(addr, abi));
      }
    }
    return Patched(text);
  }

  /** update_contracts (update_contracts.py:27-126): thread the buffer
      through the three steps, stopping at the first malformed entry. */
  method UpdateContracts(content: string, d: Deployment) returns (result: Outcome)
    ensures result == Patch(content, d)
  {
    var text := content;
    result := PatchEntry(text, AGENT_NFA, d.agentNfaAddress, d.agentNfaAbi);
    if result.MissingField? {
      return;
    }
    text := result.text;
    result := PatchEntry(text, LISTING_MANAGER, d.listingManagerAddress, d.listingManagerAbi);
    if result.MissingField? {
      return;
    }
    text := result.text;
    result := PatchPolicyGuard(text, d.policyGuardAddress, d.policyGuardAbi);
  }
}
