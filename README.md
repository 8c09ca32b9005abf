# Contracts-registry patcher

A Dafny model of `update_contracts`, the script that rewrites the TypeScript
contracts registry (`contracts.ts`) after a deployment. The script treats the
registry as a plain character buffer and edits it in three steps, each step
working on the buffer the previous one left:

1. **AgentNFA** and 2. **ListingManager**:
   - find the entry by its anchor (`AgentNFA: {`);
   - replace the text between the quotes of the first `address:` literal after it;
   - find the anchor again, then `abi:` and the first `[` after it;
   - find the matching `]` with a depth-counting loop;
   - replace the whole `[...]` block with the new ABI text.
3. **PolicyGuard**:
   - when its anchor exists, replace only its address;
   - otherwise find the `}` that closes the ListingManager object with a brace-counting loop;
   - splice a fixed PolicyGuard entry in right after it.

Layout:

- `text.dfy` (module `Text`): `str.find` as `Find`, slice-and-concatenate as
  `Splice`, and lemmas about where a search stops.
- `scan.dfy` (module `Scan`):
  - the two scanning loops as methods, each proved against a specification function;
  - the nesting depth they count;
  - balance and equivalence lemmas for the two scan styles.
- `patcher.dfy` (module `Patcher`):
  - locating the address and ABI fields;
  - the address and ABI splices;
  - one parameterised entry update for the two duplicated blocks;
  - the PolicyGuard step and the whole run, as functions;
  - the methods that thread the buffer through the steps.
- `patcher_props.dfy`, `policy_guard_props.dfy`, `entry_props.dfy`: locality,
  the no-op cases and idempotence of each step.
- `as_written.dfy`: the address splice with Python's handling of a -1
  search result, used for the finding below.

Addresses and ABI texts are string parameters (`Deployment`). A field that
cannot be found inside an entry whose anchor was found gives the outcome
`MissingField(entry, marker)`, and the buffer is then not patched.

## Model

| member | source | states |
|---|---|---|
| Text.Find | update_contracts.py:28-29 | `str.find` with a start offset: the result is the first occurrence at or after the start, or -1 exactly when there is none |
| Text.Splice | update_contracts.py:35 | `s[:lo] + ins + s[hi:]` has the length of `s` minus the replaced span plus the inserted text |
| Text.FindChar | update_contracts.py:33-34 | a one-character search stops at the first offset holding that character, and fails exactly when none follows |
| Scan.MatchingClose | update_contracts.py:42-50 | one past the first `]` at which the depth counted from the `[` returns to 0, no such `]` before it, and -1 exactly when there is none |
| Scan.ObjectEnd | update_contracts.py:107-115 | one past the first `}` met at depth 0 counting from just after the anchor's `{`, none before it, and -1 exactly when there is none |
| Scan.ScanBracketEnd | update_contracts.py:42-50 | the counting loop with its early `break` returns exactly `MatchingClose` from the bracket |
| Scan.ScanObjectEnd | update_contracts.py:107-115 | the brace-counting loop returns exactly `ObjectEnd` from its start offset |
| Scan.MatchedRegionIsBalanced | update_contracts.py:42-50 | started on a `[`, the found region ends in `]`, has depth 0, and the depth is at least 1 at every offset strictly inside, so a nested `]` never ends the scan |
| Scan.UnclosedIff | update_contracts.py:42-51 | the scan finds nothing exactly when the depth stays at least 1 up to the end of the buffer |
| Scan.ObjectEndIsMatchingClose | update_contracts.py:107-115 | the brace scan started after a `{` returns the same offset as the bracket-style scan started at that `{` |
| Scan.MatchingCloseOfBlock | update_contracts.py:42-52 | a closed block written at an offset is matched at its own end there, whatever follows it |
| Patcher.LocateAddress | update_contracts.py:31-34 | the field found lies at or after the anchor, with the quotes in order inside the buffer |
| Patcher.LocateAddressSpec | update_contracts.py:31-34 | a found field is the first `address:` after the anchor, the first quote after it and the next quote, with no quote in between |
| Patcher.LocateAddressFrom | update_contracts.py:31-34 | conversely, offsets with those properties are what the search finds |
| Patcher.LocateAbi | update_contracts.py:39-41 | the field found lies at or after the anchor, with its `[` inside the buffer |
| Patcher.LocateAbiSpec | update_contracts.py:39-41 | a found field is the first `abi:` after the anchor and the first `[` after it |
| Patcher.LocateAbiFrom | update_contracts.py:39-41 | conversely, offsets with those properties are what the search finds |
| Patcher.ReplaceAddress | update_contracts.py:31-35 | the address splice succeeds exactly when the field is found |
| Patcher.ReplaceAbi | update_contracts.py:39-52 | the ABI splice succeeds exactly when `abi:` and `[` are found |
| Patcher.AnchorStable | update_contracts.py:29-38 | finding the anchor again after the address edit returns the same offset |
| Patcher.UpdateEntry | update_contracts.py:27-52 | an absent anchor leaves the buffer unchanged; a reported failure names that entry |
| Patcher.UpdatePolicyGuard | update_contracts.py:79-126 | the only failure is a missing address field in an existing PolicyGuard entry |
| Patcher.Patch | update_contracts.py:27-126 | a failure names one of the three entries |
| Patcher.PatchEntry | update_contracts.py:27-52 | the imperative entry update, reassigning the buffer, computes `UpdateEntry` |
| Patcher.PatchPolicyGuard | update_contracts.py:79-126 | the imperative PolicyGuard step computes `UpdatePolicyGuard` |
| Patcher.UpdateContracts | update_contracts.py:27-126 | threading the buffer through the three steps computes `Patch` |
| PatcherProps.LocateAddressMissing | update_contracts.py:31-34 | the address field is missing exactly when no `address:` after the anchor is followed by two quotes |
| PatcherProps.LocateAbiMissing | update_contracts.py:39-41 | the ABI field is missing exactly when no `abi:` after the anchor is followed by a `[` |
| PatcherProps.ReplaceAddressSplice | update_contracts.py:33-35 | the text up to the opening quote and from the closing quote on is kept, the new address lies between, and the length changes by the difference |
| PatcherProps.LocateAddressAfterReplace | update_contracts.py:31-35 | after splicing a quote-free address, the field is found again at the same offsets, closing right after the new address |
| PatcherProps.AddressFieldAfterSplice | update_contracts.py:33-35 | the splice of a quote-free address keeps every property of the field |
| PatcherProps.ReplaceAddressIdempotent | update_contracts.py:33-35 | replacing the address again with the same quote-free address gives the same text |
| PatcherProps.ReplaceAddressSame | update_contracts.py:33-35 | writing the address already between the quotes changes nothing |
| PatcherProps.ReplaceAbiSplice | update_contracts.py:41-52 | an unclosed block leaves the buffer unchanged; otherwise exactly `[bracket, end)` is replaced, that region is balanced, and prefix and suffix are kept |
| PatcherProps.AbiKeepsPrefix | update_contracts.py:52 | the ABI splice keeps the text before the `[` |
| PatcherProps.ReplaceAbiIdempotent | update_contracts.py:41-52 | replacing the ABI again with the same closed block gives the same text |
| PatcherProps.AbiFieldInPrefix | update_contracts.py:39-41 | the ABI field is found again in a buffer that agrees up to its `[` |
| PatcherProps.AddressFieldInPrefix | update_contracts.py:31-34 | the address field is found again in a buffer that agrees past its closing quote |
| Patcher.PolicyGuardEntry | update_contracts.py:120-125 | the template is as long as its head, the address, its middle part, the ABI text and its tail together |
| Patcher.PolicyGuardEntryLayout | update_contracts.py:120-125 | together with that length, fixes every character of the template: the head (comma, newline, `PolicyGuard: {`, newline, `address: "`) at 0, the address after it, then the middle part (closing quote, ` as Address,`, newline and indentation, the `abi:` marker and one space, so the marker ends one character before the ABI text), the ABI text, and the tail (` as const,`, newline, `},`, newline) at the end |
| PolicyGuardProps.PolicyGuardAddressOnly | update_contracts.py:80-89 | an existing entry changes only between its address quotes, its ABI is untouched, and the ABI text passed in plays no part |
| PolicyGuardProps.AnchorOpensObject | update_contracts.py:104-109 | the ListingManager anchor ends in the `{` its object opens with |
| PolicyGuardProps.PolicyGuardInsert | update_contracts.py:104-126 | without a ListingManager anchor, or with an object that never closes, the buffer is kept; otherwise the template is inserted right after the `}` matching that `{` |
| PolicyGuardProps.InsertedShape | update_contracts.py:120-126 | the inserted template starts after the kept prefix and holds the address right after its opening quote |
| PolicyGuardProps.HeadAnchor | update_contracts.py:120-122 | in the template the PolicyGuard anchor is first found 4 characters in, after the comma and the indentation |
| PolicyGuardProps.HeadAddressMarker | update_contracts.py:121-122 | in the template the `address:` search from the anchor stops 23 characters in |
| PolicyGuardProps.HeadQuote | update_contracts.py:122 | in the template the quote search from `address:` stops at the opening quote of the literal |
| PolicyGuardProps.NoAnchorBeforeHead | update_contracts.py:120-126 | when `s` held no PolicyGuard anchor, the inserted buffer holds none before the insertion point |
| PolicyGuardProps.InsertedAnchor | update_contracts.py:80-81 | after the insertion the PolicyGuard anchor is first found 4 characters after the insertion point |
| PolicyGuardProps.InsertedMarker | update_contracts.py:85-86 | after the insertion the `address:` search from that anchor stops inside the template |
| PolicyGuardProps.InsertedOpenQuote | update_contracts.py:87 | after the insertion the quote search from the marker stops at the template's opening quote |
| PolicyGuardProps.InsertedCloseQuote | update_contracts.py:88 | after the insertion the next quote search stops right after a quote-free address |
| PolicyGuardProps.InsertedIsStable | update_contracts.py:80-89 | a buffer with the template written where no PolicyGuard anchor was is left as it is by the PolicyGuard step |
| PolicyGuardProps.ExistingIsStable | update_contracts.py:83-89 | after an address update of an existing entry, the PolicyGuard step with the same address gives the same text |
| PolicyGuardProps.InsertedIdempotent | update_contracts.py:79-126 | after the insertion, a second PolicyGuard step gives the same result as the first |
| PolicyGuardProps.PolicyGuardIdempotent | update_contracts.py:79-126 | with a quote-free address, running the PolicyGuard step again on its result gives the same text |
| EntryProps.AbiAfterNewAddress | update_contracts.py:33-41 | after the address splice, the new address field still precedes the entry's `abi:` marker |
| EntryProps.NoAbiMarkerThroughAddress | update_contracts.py:33-41 | splicing an address without quotes or colons creates no `abi:` marker up to its closing quote |
| EntryProps.UpdateEntrySteps | update_contracts.py:27-52 | a patched entry update is the address splice at the anchor followed by the ABI splice at the same anchor |
| EntryProps.UpdateEntryFromSteps | update_contracts.py:27-52 | conversely, the address splice followed by the ABI splice at the original anchor offset is the entry update: finding the anchor again in the edited buffer lands on that offset |
| EntryProps.UpdateEntryMissingAddress | update_contracts.py:29-35 | the entry update reports its `address:` field exactly when the anchor is found and no `address:` with two quotes follows it; the code as written splices anyway, see "## Findings" |
| EntryProps.UpdateEntryMissingAbi | update_contracts.py:38-41 | the entry update reports its `abi:` field exactly when the anchor is found, the address was spliced, and no `abi:` followed by `[` comes after the re-found anchor; the code as written does not stop there |
| EntryProps.SecondRunAddress | update_contracts.py:29-52 | on the updated text, the anchor is found at the same offset and the address splice rewrites what is there |
| EntryProps.SameAddressInPrefix | update_contracts.py:31-35 | a buffer that agrees past the address literal holds the same literal |
| EntryProps.UpdateEntryIdempotent | update_contracts.py:27-77 | for an entry whose address precedes its ABI, with a quote-free name and address and a closed ABI block, updating again with the same values gives the same text |
| AsWritten.PyFind | update_contracts.py:32-34 | `str.find` with a possibly negative start: the first occurrence at or after the start, counted from the end and clamped at 0 when negative, and -1 exactly when there is none |
| AsWritten.PyPrefix | update_contracts.py:35 | `s[:i]` is the prefix of `s` of length `i`, or all of `s` when `i` runs past its end |
| AsWritten.PySuffix | update_contracts.py:35 | `s[i:]` is the suffix of `s` from `i`, empty past the end, and only the last character when `i` is -1 |
| AsWritten.ReplaceAddressAsWritten | update_contracts.py:32-35 | whatever the three searches return, the result is a prefix of the buffer, the address, then a suffix of the buffer |
| AsWritten.AsWrittenAgrees | update_contracts.py:31-35 | where the address field exists, the code as written does the modelled splice |
| AsWritten.MarkerMissingAsWritten | update_contracts.py:32-35 | with no `address:` after the anchor and no quote at the end, the code as written drops everything before the first quote and puts the address there |
| AsWritten.MissingAddressPrepends | update_contracts.py:29-35 | on `"k" AgentNFA: { }` the code as written prepends the address to the whole buffer |
| AsWritten.MissingAddressReported | update_contracts.py:29-35 | on the same buffer the model reports the missing address field of AgentNFA |

## Left out

- File I/O: reading `contracts.ts` and the three ABI files, writing the result back, and the success message (update_contracts.py:14-25, 128-131). The model maps a buffer and a `Deployment` to an `Outcome`.
- JSON loading and `json.dumps(..., indent=2)` (update_contracts.py:19, 22, 25): the ABI texts are opaque string parameters.
- The hard-coded paths and addresses (update_contracts.py:4-11): they are parameters.
- Patcher.UpdateEntry: a missing `address:`, quote, `abi:` or `[` after a found anchor gives `MissingField`. The script instead feeds the -1 back into `find`, slicing and `range` (update_contracts.py:32-34, 40-44, 59-61, 65-69, 86-88). The address half of that behaviour is modelled as written in `AsWritten`; the ABI half is not.
- Patcher.UpdateEntry: requires an entry name without `"`, so that finding the anchor again after the address edit provably returns the same offset. The names used are `AgentNFA` and `ListingManager`.
- The `NameError` the script raises at update_contracts.py:65 when the AgentNFA anchor is absent: `abi_marker` is only bound at line 39. The model uses the constant `abi:` for both entries.
- Lexical awareness: the scans count raw `[`, `]`, `{` and `}` characters, including those inside string literals and comments, as the script does.
- EntryProps.UpdateEntryIdempotent: proved only when the entry's address literal precedes its `abi:` marker, the name holds no `[` and the address holds no `:`.
- Patcher.Patch: no property of the patched text of the whole three-step run is stated, in particular not its idempotence. Each step is proved idempotent on its own (`EntryProps.UpdateEntryIdempotent`, `PolicyGuardProps.PolicyGuardIdempotent`). Combining them needs a non-overlap hypothesis: the ListingManager and PolicyGuard edits must leave the AgentNFA entry and its anchor search untouched, and the PolicyGuard edit must leave the ListingManager entry untouched. It also needs the frame lemmas that carry each step's result across the later edits. Neither is part of this model.
- PolicyGuardProps.PolicyGuardIdempotent: requires an address without `"`.

## Findings

| source | as written | input that shows it | evidently intended | confidence | as-written member | corrected member |
|---|---|---|---|---|---|---|
| update_contracts.py:32-35 | when no `address:` follows the anchor, `find` returns -1. That -1 becomes the start of the quote search, which then looks only at the last character. The splice `content[:quote_start+1] + ADDRESS + content[quote_end:]` then drops everything before the first quote of the file and puts the address there. This happens when the buffer holds a quote and does not end in one. When it does end in a quote, line 34 gives -1 and the result is the buffer, the address, then a quote. | `"k" AgentNFA: { }`: the result is the address followed by the whole buffer | leave the buffer unpatched and report the entry whose address field is missing | high; not executed | AsWritten.MarkerMissingAsWritten, AsWritten.MissingAddressPrepends | Patcher.ReplaceAddress, EntryProps.UpdateEntryMissingAddress, AsWritten.MissingAddressReported |
