/** Properties of the PolicyGuard step: which branch changes what, and that
    running the step a second time with the same values changes nothing. */
module PolicyGuardProps {
  import opened Text
  import opened Scan
  import opened Patcher
  import opened PatcherProps

  /** Existing entry (update_contracts.py:80-89): only the text between the
      quotes of the entry's address literal changes; everything from the
      closing quote on, the entry's ABI included, is kept, and the ABI text
      passed in plays no part. */
  lemma PolicyGuardAddressOnly(s: string, addr: string, abi: string, abi': string)
    requires Find(s, Anchor(POLICY_GUARD), 0) != -1
    ensures UpdatePolicyGuard(s, addr, abi) == UpdatePolicyGuard(s, addr, abi')
    ensures var f := LocateAddress(s, Find(s, Anchor(POLICY_GUARD), 0));
      && (f.None? ==> UpdatePolicyGuard(s, addr, abi) == MissingField(POLICY_GUARD, ADDRESS_MARKER))
      && (f.Some? ==>
            var t := UpdatePolicyGuard(s, addr, abi).text;
            && UpdatePolicyGuard(s, addr, abi).Patched?
            && t[..f.value.open + 1] == s[..f.value.open + 1]
            && t[f.value.open + 1..f.value.open + 1 + |addr|] == addr
            && t[f.value.open + 1 + |addr|..] == s[f.value.close..])
  {
    var a := Find(s, Anchor(POLICY_GUARD), 0);
    if LocateAddress(s, a).Some? {
      ReplaceAddressSplice(s, a, addr);
    }
  }

  /** The `{` that ends the ListingManager anchor. */
  lemma AnchorOpensObject(s: string, lm: nat)
    requires OccursAt(s, Anchor(LISTING_MANAGER), lm)
    ensures s[lm + |Anchor(LISTING_MANAGER)| - 1] == '{'
  {
    var n := |Anchor(LISTING_MANAGER)|;
    assert s[lm + n - 1] == s[lm..lm + n][n - 1];
  }

  /** No entry yet (update_contracts.py:104-126): with no ListingManager
      anchor, or when the object it opens never closes, the buffer is kept;
      otherwise the template goes right after the `}` matching the `{` that
      ends the anchor, the brace that the bracket-style scan from that `{`
      finds (see `MatchedRegionIsBalanced` for what lies between). */
  lemma PolicyGuardInsert(s: string, addr: string, abi: string)
    requires Find(s, Anchor(POLICY_GUARD), 0) == -1
    ensures var lm := Find(s, Anchor(LISTING_MANAGER), 0);
      && (lm == -1 ==> UpdatePolicyGuard(s, addr, abi) == Patched(s))
      && (lm != -1 ==>
            var o := lm + |Anchor(LISTING_MANAGER)| - 1;
            var e := MatchingClose(s, o, '{', '}');
            && s[o] == '{'
            && (e == -1 ==> UpdatePolicyGuard(s, addr, abi) == Patched(s))
            && (e != -1 ==> UpdatePolicyGuard(s, addr, abi) ==
                              Patched(s[..e] + PolicyGuardEntry(addr, abi) + s[e..])))
  {
    var lm := Find(s, Anchor(LISTING_MANAGER), 0);
    if lm != -1 {
      var o := lm + |Anchor(LISTING_MANAGER)| - 1;
      AnchorOpensObject(s, lm);
      ObjectEndIsMatchingClose(s, o);
    }
  }

  /** Inside the entry head the anchor starts at offset 4. */
  lemma HeadAnchor()
    ensures Find(ENTRY_HEAD, Anchor(POLICY_GUARD), 0) == 4
  {
    var p, pat := ENTRY_HEAD, Anchor(POLICY_GUARD);
    MiddleOfConcat(",\n  ", pat, "\n    " + ADDRESS_MARKER + " \"");
    assert OccursAt(p, pat, 4);
    forall k | 0 <= k < 4
      ensures !OccursAt(p, pat, k)
    {
      if OccursAt(p, pat, k) {
        if k <= 1 {
          assert p[1] == '\n';
          OccursAvoids(p, pat, k, '\n');
        } else if k == 2 {
          OccursFirst(p, pat, 2);
        } else {
          OccursFirst(p, pat, 3);
        }
      }
    }
    FindIs(p, pat, 0, 4);
  }

  /** Inside the entry head the `address:` search from the anchor stops at
      offset 23: every earlier start would cover the `u` of `PolicyGuard`
      or one of the blanks before the marker. */
  lemma HeadAddressMarker()
    ensures Find(ENTRY_HEAD, ADDRESS_MARKER, 4) == 23
  {
    var p, pat := ENTRY_HEAD, ADDRESS_MARKER;
    MiddleOfConcat(",\n  " + Anchor(POLICY_GUARD) + "\n    ", pat, " \"");
    assert OccursAt(p, pat, 23);
    forall k | 4 <= k < 23
      ensures !OccursAt(p, pat, k)
    {
      if OccursAt(p, pat, k) {
        if k <= 11 {
          assert p[11] == 'u';
          OccursAvoids(p, pat, k, 'u');
        } else if k <= 16 {
          assert p[16] == ' ';
          OccursAvoids(p, pat, k, ' ');
        } else {
          assert p[22] == ' ';
          OccursAvoids(p, pat, k, ' ');
        }
      }
    }
    FindIs(p, pat, 4, 23);
  }

  /** Inside the entry head the quote search from the marker stops at its
      last character. */
  lemma HeadQuote()
    ensures Find(ENTRY_HEAD, QUOTE, 23) == 32
  {
    FindCharIs(ENTRY_HEAD, '"', 23, 32);
  }

  /** `t` is `s` with an entry head and the address `addr` written at `e`,
      the address followed by its closing quote. */
  predicate HeadWritten(s: string, e: nat, addr: string, t: string)
  {
    && e <= |s| && e + |ENTRY_HEAD| + |addr| < |t|
    && t[..e] == s[..e]
    && t[e..e + |ENTRY_HEAD|] == ENTRY_HEAD
    && t[e + |ENTRY_HEAD|..e + |ENTRY_HEAD| + |addr|] == addr
    && t[e + |ENTRY_HEAD| + |addr|] == '"'
  }

  /** The buffer after the insertion holds the old text up to `e`, then the
      entry head, then the address, then its closing quote. */
  lemma InsertedShape(s: string, e: nat, addr: string, abi: string)
    requires e <= |s|
    ensures HeadWritten(s, e, addr, s[..e] + PolicyGuardEntry(addr, abi) + s[e..])
  {
    var t := s[..e] + PolicyGuardEntry(addr, abi) + s[e..];
    var n := |ENTRY_HEAD|;
    var ent := PolicyGuardEntry(addr, abi);
    assert ent[..n] == ENTRY_HEAD;
    assert ent[n..n + |addr|] == addr;
    assert ent[n + |addr|] == '"';
    assert t[e..e + |ent|] == ent;
    assert t[e..e + n] == ent[..n];
    assert t[e + n..e + n + |addr|] == ent[n..n + |addr|];
    assert t[e + n + |addr|] == ent[n + |addr|];
  }

  /** No PolicyGuard anchor starts before the insertion point: one that
      ends inside the kept text was already in `s`, and one that reaches
      past the insertion point would hold the comma that opens the head. */
  lemma NoAnchorBeforeHead(s: string, e: nat, addr: string, t: string)
    requires Find(s, Anchor(POLICY_GUARD), 0) == -1
    requires HeadWritten(s, e, addr, t)
    ensures forall j :: 0 <= j < e ==> !OccursAt(t, Anchor(POLICY_GUARD), j)
  {
    var pat := Anchor(POLICY_GUARD);
    assert t[e] == ',' by {
      assert t[e] == t[e..e + |ENTRY_HEAD|][0];
    }
    forall j | 0 <= j < e
      ensures !OccursAt(t, pat, j)
    {
      if j + |pat| <= e {
        OccursAgree(s, t, e, pat, j);
      } else if OccursAt(t, pat, j) {
        OccursAvoids(t, pat, j, ',');
      }
    }
  }

  /** After the insertion the PolicyGuard anchor is first found four
      characters after the insertion point. */
  lemma InsertedAnchor(s: string, e: nat, addr: string, t: string)
    requires Find(s, Anchor(POLICY_GUARD), 0) == -1
    requires HeadWritten(s, e, addr, t)
    ensures Find(t, Anchor(POLICY_GUARD), 0) == e + 4
  {
    NoAnchorBeforeHead(s, e, addr, t);
    FindSkip(t, Anchor(POLICY_GUARD), 0, e);
    HeadAnchor();
    FindInWindow(t, e, ENTRY_HEAD, Anchor(POLICY_GUARD), 0);
  }

  /** After the insertion the `address:` search from the new anchor stops
      inside the head. */
  lemma InsertedMarker(s: string, e: nat, addr: string, t: string)
    requires HeadWritten(s, e, addr, t)
    ensures Find(t, ADDRESS_MARKER, e + 4) == e + 23
  {
    HeadAddressMarker();
    FindInWindow(t, e, ENTRY_HEAD, ADDRESS_MARKER, 4);
  }

  /** After the insertion the quote search from the marker stops at the
      last character of the head. */
  lemma InsertedOpenQuote(s: string, e: nat, addr: string, t: string)
    requires HeadWritten(s, e, addr, t)
    ensures Find(t, QUOTE, e + 23) == e + 32
  {
    HeadQuote();
    FindInWindow(t, e, ENTRY_HEAD, QUOTE, 23);
  }

  /** After the insertion the quote search after the opening quote stops
      right after the address. */
  lemma InsertedCloseQuote(s: string, e: nat, addr: string, t: string)
    requires '"' !in addr
    requires HeadWritten(s, e, addr, t)
    ensures Find(t, QUOTE, e + 33) == e + 33 + |addr|
  {
    var n := |ENTRY_HEAD|;
    forall j | e + n <= j < e + n + |addr|
      ensures t[j] != '"'
    {
      assert t[j] == t[e + n..e + n + |addr|][j - (e + n)];
    }
    FindCharIs(t, '"', e + n, e + n + |addr|);
  }

  /** A freshly inserted entry is found by the next run, which writes the
      same address over itself. */
  lemma InsertedIsStable(s: string, e: nat, addr: string, abi: string, t: string)
    requires '"' !in addr
    requires Find(s, Anchor(POLICY_GUARD), 0) == -1
    requires HeadWritten(s, e, addr, t)
    ensures UpdatePolicyGuard(t, addr, abi) == Patched(t)
  {
    var n := |ENTRY_HEAD|;
    InsertedAnchor(s, e, addr, t);
    InsertedMarker(s, e, addr, t);
    InsertedOpenQuote(s, e, addr, t);
    InsertedCloseQuote(s, e, addr, t);
    LocateAddressIs(t, e + 4, e + 23, e + 32, e + n + |addr|);
    SpliceSame(t, e + n, addr);
    assert ReplaceAddress(t, e + 4, addr) == Some(t);
  }

  /** Second run over an existing entry: the anchor is where it was and the
      address splice writes the same address over itself. */
  lemma ExistingIsStable(s: string, addr: string, abi: string, t: string)
    requires '"' !in addr
    requires Find(s, Anchor(POLICY_GUARD), 0) != -1
    requires ReplaceAddress(s, Find(s, Anchor(POLICY_GUARD), 0), addr) == Some(t)
    ensures UpdatePolicyGuard(t, addr, abi) == Patched(t)
  {
    var a := Find(s, Anchor(POLICY_GUARD), 0);
    AnchorStable(s, Anchor(POLICY_GUARD), addr);
    ReplaceAddressIdempotent(s, a, addr, t);
  }

  /** Second run after an insertion. */
  lemma InsertedIdempotent(s: string, addr: string, abi: string, e: int)
    requires '"' !in addr
    requires Find(s, Anchor(POLICY_GUARD), 0) == -1
    requires 0 <= e <= |s|
    requires UpdatePolicyGuard(s, addr, abi) == Patched(s[..e] + PolicyGuardEntry(addr, abi) + s[e..])
    ensures UpdatePolicyGuard(s[..e] + PolicyGuardEntry(addr, abi) + s[e..], addr, abi) ==
            UpdatePolicyGuard(s, addr, abi)
  {
    InsertedShape(s, e, addr, abi);
    InsertedIsStable(s, e, addr, abi, s[..e] + PolicyGuardEntry(addr, abi) + s[e..]);
  }

  /** PolicyGuard idempotence: when the address holds no quote, running the
      step again on its own result with the same values gives that result
      again, whichever branch produced it. */
  lemma PolicyGuardIdempotent(s: string, addr: string, abi: string, t: string)
    requires '"' !in addr
    requires UpdatePolicyGuard(s, addr, abi) == Patched(t)
    ensures UpdatePolicyGuard(t, addr, abi) == Patched(t)
  {
    var a := Find(s, Anchor(POLICY_GUARD), 0);
    if a != -1 {
      ExistingIsStable(s, addr, abi, t);
    } else {
      PolicyGuardInsert(s, addr, abi);
      var lm := Find(s, Anchor(LISTING_MANAGER), 0);
      if lm != -1 {
        var e := MatchingClose(s, lm + |Anchor(LISTING_MANAGER)| - 1, '{', '}');
        if e != -1 {
          InsertedIdempotent(s, addr, abi, e);
        }
      }
    }
  }
}
