# Gensokyo: verified model of six components

A Dafny model of the parts of the Gensokyo QQ-bot gateway whose correctness cannot be seen
from one function alone, with proofs of what they promise. To check every file, run
`dafny verify dfyconfig.toml`.

1. **Word filter** (`acnode/acnode.go`). A heap-shaped trie with fail links finds the words of
   a dictionary in a text; a second one finds whitelist words; the filter replaces what is
   found and not whitelisted. Proved: for all dictionaries, whitelists and texts the filter has
   the effect of the definition "try every word at every place", which mentions no trie, no
   list and no merging.
   Files: `Suffixes`, `BreadthFirst`, `Trie` (the automaton), `Occurrences`, `Merging`,
   `Components`, `Splicing`, `FilterSpec`, `WordFilter`.
2. **Identity store** (`idmap/map_service.go`). Two buckets map identities to virtual numbers
   (vUINs) and back; there are a last-seen hint, two allocators and an operation that merges one
   vUIN into another. Proved: the buckets agree in every run,
   different inputs get different vUINs, a prefix walk over the ordered
   bucket visits exactly one vUIN's entries, and so on. Each database transaction is one step.
   Files: `Decimals`, `Probing`, `ByteOrder`, `Identities`, `IdBuckets`, `IdentityStore`, `RowIds`,
   `IdRuns`, `IdentityKeys`.
3. **Message ID store** (same source file). Proved: a bijection in every run, exactly when
   a virtual ID is issued twice, messages found exactly until their last expiry.
   Files: `MsgBuckets`, `MessageStore`, `MsgRuns`, `MsgWrapped`, and `LatestRuns` for the latest
   message per group and user.
4. **Receive-all detector** (`idmap/qq_group_receive_state.go`). A sliding window of ten
   messages, kept in protobuf wire form, decides whether a group delivers all its messages; the
   decision is persisted when it changes, with failing reads, failing writes and restarts.
   Files: `Wire`, `ReceiveWire`, `WireBytes`, `ReceiveState`, `ReceiveReturn`, `Recorder`, `RecorderRuns`,
   `RecorderFlags`.
5. **Config repair** (`config/config.go`). Settings that a configuration file lacks are found by
   comparing indented texts in four rounds over Go maps (in arbitrary order), cut out of the
   template and appended. Proved: exactly when the outcome is independent of the order, and
   exactly when one pass leaves nothing for a second; how often the program can restart at most,
   and when it restarts for ever.
   Files: `ConfigLines`, `ConfigParents`, `MissingKeys`, `MissingExamples`, `ShadowedKeys`,
   `ConfigRepair`, `ConfigPass`, `ConfigReflected`, `ConfigRestarts`, `ReflectedExample`.
6. **CQ code masking** (`handlers/message_parser.go`). CQ codes are replaced by placeholders
   while the application ID is replaced by the bot ID. Proved: exactly when this has the effect
   of replacing outside the codes only.
   Files: `Replacing`, `CqCodes`, `CqShape`, `CqMask`, `CqProtection`, `CqCompletion`.

Code that the repository runs step by step is a class or a method with loops here, and its
contract ties it to a function or relation on values; the lemmas are about those. Where the
repository iterates over a Go map, the model takes any element (`:|`), so a contract holds for
every iteration order.

Strings are sequences of characters: one per byte in the identity, message and masking
components, one per rune in the word filter and the config repair, as the code there counts.

## What turned out to be false, and what is true instead

- A normalised identity is not always left unchanged by another normalisation: an input can
  begin with the bot's own prefix twice (`7:7:x`). It is exactly for the other inputs
  (`NormalizeIdempotentIff`). An identity stored under such an input may not be read back
  (`DoubledNotReadBack`); `StoreThenRetrieveIff` says exactly when it is.
- Two rUINs may have one identity, and so one vUIN, although they are written differently: their
  parts are joined with colons but cut at dashes. `KeySharedIff` says exactly which do; all other
  inputs have an identity of their own (`KeyTellsRaw`, `SameIdentityIff`).
- The comment at idmap/qq_group_receive_state.go:157-159 says that ten new message IDs are
  needed after an AT event. If the AT message itself is delivered again as a normal event, one
  may be enough (`OneMessageCanBeEnough`). `PermissionReturnsIff` is the exact rule for any run of
  normal messages, `FewerThanTenIff` says when fewer than ten different ones are enough.
- A virtual message ID is issued only once as long as the 64-bit counter has not run through;
  from then on every positive one that is issued has been issued before (`ReissuedIff`);
  `ReissueExists` is a run in which this happens.
- A message is found exactly until its expiry in every run (`FoundIff`); a lifetime that is not positive, or
  too long for 64 bits, counts as an hour. Once the counter has run
  through, its virtual ID may name another message afterwards (`FoundUntilExpiry` for all others).
- The slot for the latest message may be shared by two pairs of group and user (`SlotSharedIff`),
  and then a store for one loses the message of the other (`KeepsItsLatestIff`).
- Masking does not protect against every application ID: it must occur in none of the
  placeholder numbers (`ProtectsIff`); and for bot IDs that are not numbers it is not enough
  that they contain neither NUL nor the placeholder mark (`PartOfMarkCompletes`, `DirectIff`).
- The missing settings depend on the iteration order exactly when `settings`, its parent and
  another key below it are missing (`ComputedIsWantedIff`, `TornExample`); the computation does
  not end when a missing key is nested below itself (`EndlessExample`, `EndlessClimbIff`).
- One repair pass may not be enough. A key that the comparison of the parsed structures reports
  may stand two deep already: its block is skipped, and deeper blocks behind it with it. So a
  configuration with the version number below `settings` may be left as it is
  (`VersionBelowSettings`); the program then restarts once at most (`VersionBelowRestarts`).
  `OnePassSufficesIff` says exactly when one pass is enough; keys found by the text comparison
  alone are never lost (`AllWritten`).
- The program may restart again and again: if a key is reported in each pass that neither stands two
  deep nor does so in its block (`EndlessRestartsIff`). Apart from such reports every restart settles
  a key of the template, which bounds their number (`RestartsBounded`).
- A setting is not repaired when its name is used once more further down, below another key
  (`WantedExactlyIff`, `InnerHidden`). In template/config_template.go this concerns `token`
  (lines 19 and 291) and `No_White_Response` (lines 140 and 154).

## Model

| member | source | states |
|---|---|---|
| Suffixes.LongestIsLongest | acnode/acnode.go:221-228 | the node the automaton should stand at: a path of the trie, a suffix of the text read, and longer than every other such path |
| Suffixes.LongestStep | acnode/acnode.go:221-228 | reading one more rune only needs the longest suffix of what was read before, in every trie |
| Suffixes.FailStep | acnode/acnode.go:222-224 | following one fail link loses no answer, lowers the depth and counts as one jump |
| Suffixes.JumpsLowerDepth | acnode/acnode.go:119-125 | jumps plus new depth are at most old depth plus one |
| Suffixes.TotalJumpsBounded | acnode/acnode.go:119-125 | over a whole text the goto loop follows no more fail links than there are runes |
| BreadthFirst.ShallowIsSeen | acnode/acnode.go:84-109 | when a node is taken from the queue, every path no deeper has been queued or done |
| BreadthFirst.EmptyQueueMeansAll | acnode/acnode.go:86-108 | when the queue is empty every path of the trie has been visited |
| BreadthFirst.TakeHead | acnode/acnode.go:87-107 | taking the head and queueing its children, in any order, keeps the breadth-first invariant |
| Trie.AhoCorasick.constructor | acnode/acnode.go:65-69 | an empty dictionary: the trie of the root alone |
| Trie.AhoCorasick.Insert | acnode/acnode.go:71-82 | the dictionary gains or replaces exactly this word, the trie gains exactly its prefixes, old nodes stay where they are |
| Trie.AhoCorasick.Descend | acnode/acnode.go:72-78 | the insertion loop ends at the node of the word and adds only its prefixes |
| Trie.AhoCorasick.MarkEnd | acnode/acnode.go:79-81 | the end mark, length and replacement are those of the word, and no other word's |
| Trie.LeanAfterInsert | acnode/acnode.go:73-78 | every node remains a prefix of some inserted word |
| Trie.AhoCorasick.LinkChild | acnode/acnode.go:91-105 | given the fail links above it, a child's fail link leads to the longest proper suffix of its path |
| Trie.AhoCorasick.Visit | acnode/acnode.go:87-107 | one turn of the loop: the children of the head are linked and queued, whatever order the map is iterated in |
| Trie.AhoCorasick.BuildFailPointer | acnode/acnode.go:84-109 | afterwards every node but the root fails to the node of the longest proper suffix of its path |
| Trie.AhoCorasick.Advance | acnode/acnode.go:222-228 | the goto loop moves to the node of the longest suffix, with the counted number of jumps |
| Trie.AhoCorasick.CollectAt | acnode/acnode.go:230-241 | the walk over fail links appends all words that end here, longest first |
| Trie.AhoCorasick.MatchPositions | acnode/acnode.go:214-246 | returns the list of all occurrences, and the goto loop follows at most as many fail links as there are runes |
| Occurrences.EndingAtLongest | acnode/acnode.go:230-241 | looking only at suffixes that are paths of the trie misses no word |
| Occurrences.AllMatchesIsOccurrences | acnode/acnode.go:214-246 | that list holds a position if and only if a non-empty dictionary word stands there in the text |
| Occurrences.AllMatchesOrdered | acnode/acnode.go:214-246 | it is strictly ordered by end and then by decreasing length, so nothing is listed twice |
| Occurrences.WhitelistedByMatches | acnode/acnode.go:130-136 | lying in a listed whitelist match is lying in some whitelist occurrence |
| Trie.AhoCorasick.InWhitelist | acnode/acnode.go:130-136 | the index test of the loop is containment in a whitelist position |
| Trie.AhoCorasick.FindAt | acnode/acnode.go:127-150 | the walk stops at the longest word ending here that is not whitelisted |
| Trie.AhoCorasick.FilterWithWhitelist | acnode/acnode.go:111-159 | the result is the filter as defined from occurrences, for every whitelist |
| FilterSpec.BestIsLongest | acnode/acnode.go:127-150 | the word chosen per end position is admissible and the longest admissible one |
| FilterSpec.AdmissibleInBest | acnode/acnode.go:146 | taking only the longest admissible word per end position loses nothing: every other one lies inside it |
| FilterSpec.JoinedIffInner | acnode/acnode.go:180-184 | two neighbouring positions lie in one merged interval exactly if one admissible occurrence contains both |
| FilterSpec.SplicedIsFiltered | acnode/acnode.go:153-157 | splicing the merged longest replacements gives the filter as defined from occurrences |
| FilterSpec.NothingToReplace | acnode/acnode.go:154-158 | without an admissible occurrence the text comes back unchanged |
| Merging.MergeStep | acnode/acnode.go:178-187 | one turn of the merge loop keeps: the intervals are the runs of what was read |
| Merging.MergeOverlapping | acnode/acnode.go:164-190 | the merged intervals are sorted and disjoint, cover exactly what the input covers, without gaps, and carry the text of the longest input that ends last |
| Components.SameRunIffLinked | acnode/acnode.go:178-187 | two replacements share a merged interval if and only if a chain of overlapping replacements links them |
| Splicing.MergeInText | acnode/acnode.go:197-205 | the merged intervals never leave the text, so no slice is out of range |
| Splicing.ApplyReplacements | acnode/acnode.go:193-207 | each interval contributes its text once, every other rune stays, in order |
| WordFilter.ReplacedPositions | acnode/acnode.go:111-159 | the replaced positions are exactly those of occurrences of sensitive words that lie in no whitelist occurrence |
| WordFilter.ErasingKeepsTheRest | acnode/acnode.go:193-207 | with empty replacement texts exactly the runes outside such occurrences remain, in order |
| WordFilter.InnocentTextKept | acnode/acnode.go:154-158 | a text without such occurrences is returned as it is |
| WordFilter.RunReplaced | acnode/acnode.go:164-207 | a run of overlapping occurrences is replaced once, by the text of the longest of its words that end last, and the rest of the text is kept |
| WordFilter.OffenceReplaced | acnode/acnode.go:127-150 | in particular an occurrence that contains all others is replaced by the text of its word |
| WordFilter.DictionaryIsLast | acnode/acnode.go:71-82 | the dictionary has the words of the entries and no others, each with the text of its last entry |
| WordFilter.Load | acnode/acnode.go:285-298 | gives a matcher whose words are those of the entries and no others, each with the text of its last entry |
| WordFilter.CheckWordIN | acnode/acnode.go:325-348 | the answers for an empty text, for a text over 5000 runes with and without an image, and the filtered text otherwise |
| WordFilter.CheckWordOUT | acnode/acnode.go:351-376 | the same for outgoing texts, where base64 data of any length is passed through |
| Decimals.DecimalRoundTrip | idmap/map_service.go:423 | parsing the decimal form of a 64-bit number gives it back |
| Decimals.DecimalInjective | idmap/map_service.go:883-885 | different numbers have different decimal forms |
| Decimals.OneMoreDigit | idmap/map_service.go:423 | one more digit at the end counts ten times what was there and the digit |
| Decimals.ParseDigits | idmap/map_service.go:423 | a text of digits is read as the number it shows, with a sign in front if there is one, as far as it fits into 64 bits |
| Decimals.ParseRefuses | idmap/map_service.go:423 | any other character, or no digit, is refused |
| ByteOrder.PrefixedStandTogether | idmap/map_service.go:378 | in byte order the keys with a prefix stand together |
| ByteOrder.WalkEnd | idmap/map_service.go:377-381 | a cursor that seeks to a prefix and walks while it holds has listed exactly the keys with that prefix |
| ByteOrder.FirstTellsPresence | idmap/map_service.go:520-524 | one seek tells whether any key has the prefix |
| Probing.ProbesNoMoreThanKeys | idmap/map_service.go:511-513 | with wrap-around included, the probing loop makes no more turns than there are identities |
| Identities.StrippedIdempotent | idmap/map_service.go:541-591 | normalising twice is normalising once when no prefix is involved, rUINs with base32 IDs included |
| Identities.NormalizeIdempotentIff | idmap/map_service.go:541-559 | with prefixes it is so exactly for inputs that do not begin with the prefix twice in a row |
| Identities.DoubledPrefixIsNotStable | idmap/service.go:382-388 | an input where it is not |
| IdentityKeys.KeyTellsRaw | idmap/map_service.go:541-559 | two inputs with one key, not both rUINs, are the same input once the prefix is off |
| IdentityKeys.RawTellsKey | idmap/map_service.go:541-591 | the raw form determines the identity, for all inputs |
| IdentityKeys.SameIdentityIff | idmap/map_service.go:541-591 | inputs have the same key if and only if they have the same raw form, where platform and index of rUINs have no colon |
| IdentityKeys.KeySharedIff | idmap/map_service.go:571-591 | a rUIN shares its key with another raw form if and only if a colon in platform or index, or one in the ID with no dash before it, allows another split |
| IdentityKeys.EncodedIdDecoded | idmap/map_service.go:579-583 | a QQ rUIN with an encoded ID is the identity with the decoded digits |
| IdentityKeys.OtherIdKept | idmap/map_service.go:576-591 | any other ID stays as it is |
| IdentityKeys.HeadInAnyCase | idmap/map_service.go:569 | the head of a rUIN may be written in any case |
| IdentityKeys.PrefixIgnored | idmap/map_service.go:542 | with or without the bot's prefix it is the same identity |
| IdBuckets.PrefixTellsVuin | idmap/map_service.go:883-889 | the prefix of a vUIN starts the reverse keys of that vUIN and of no other |
| IdBuckets.ReverseIffForward | idmap/map_service.go:465-483 | in agreeing buckets the reverse entry of (v, k) exists exactly if k is mapped to v |
| IdBuckets.PrefixedAreHolders | idmap/map_service.go:377-381 | the reverse entries with a vUIN's prefix are exactly those of its identities |
| IdBuckets.PutKeepsAgreement | idmap/map_service.go:465-483 | writing a mapping keeps the buckets in agreement, also when it moves an identity |
| IdBuckets.MoveAllIsRebind | idmap/map_service.go:385-394 | moving the listed identities one by one is one rebinding of all of them with their raw forms |
| IdBuckets.RebindEffect | idmap/map_service.go:364-405 | afterwards the old vUIN is empty, the new one has both sets, no other is touched, no identity is lost |
| IdentityStore.RowIdExists | idmap/service.go:319-350 | for the nine to eighteen digits asked for, a row ID is always generated and never negative |
| RowIds.RowIdOfDigest | idmap/service.go:319-350 | a row ID is the number that the first digits of the digest show, with zeros behind them if there are too few |
| RowIds.HashedAllocation | idmap/map_service.go:489-505 | in the hash mode a new identity gets its row ID of nine digits if that is free, and none exactly if all of nine to eighteen digits are taken |
| IdentityStore.IdStore.PutIdentityMapping | idmap/map_service.go:465-483 | forward, reverse and hint are written, a reverse entry under another vUIN is removed |
| IdentityStore.IdStore.VuinExists | idmap/map_service.go:520-524 | answers whether some identity is mapped to the vUIN |
| IdentityStore.IdStore.AllocateVuin | idmap/map_service.go:485-518 | a vUIN that no identity holds, the first free one in the mode's order, or the error of the hash mode without a change |
| IdentityStore.IdStore.AllocateByHash | idmap/map_service.go:489-505 | the first free one of the ten row IDs, the counter raised if needed; an error only if all ten are held |
| IdentityStore.IdStore.AllocateByCounter | idmap/map_service.go:507-517 | the loop ends, at the first number after the counter that is free |
| IdentityStore.IdStore.StoreIdentity | idmap/map_service.go:325-354 | a known identity keeps its vUIN and refreshes the hint, a new one gets a free vUIN and is entered in both buckets |
| IdentityStore.IdStore.BindIdentity | idmap/map_service.go:356-362 | the identity is mapped to the given vUIN, agreement kept |
| IdentityStore.IdStore.CollectHolders | idmap/map_service.go:373-381 | the cursor loop lists every identity of the vUIN once, with its raw form |
| IdentityStore.IdStore.BindVuin | idmap/map_service.go:364-405 | nothing for equal vUINs, not found for an empty one, otherwise the rebinding |
| IdentityStore.IdStore.SelectByWalk | idmap/map_service.go:439-455 | the walk settles on the first openid-like identity in byte order, else on the first with a raw form |
| IdentityStore.OpenidsFirst | idmap/map_service.go:425-463 | the walk settles on no other identity while one with an openid key is there |
| IdentityStore.FirstRawElse | idmap/map_service.go:425-463 | without any it settles on the first raw form in byte order |
| IdentityStore.IdStore.RetrieveIdentity | idmap/map_service.go:421-463 | the hint if it still names an identity of the vUIN, else what the walk settles on, else not found |
| IdRuns.StoreKeepsAgreement | idmap/map_service.go:325-354 | storing keeps the buckets in agreement, in both allocation modes |
| IdRuns.RunAgrees | idmap/map_service.go:325-405 | in every run of stores, binds and rebinds the two buckets agree |
| IdRuns.StoringRunIsStable | idmap/map_service.go:325-354 | in runs without binds, distinct identities keep distinct vUINs for ever |
| IdentityKeys.SameVuinIff | idmap/map_service.go:325-354 | in a run of stores two inputs get the same vUIN if and only if they have the same raw form, where platform and index of rUINs have no colon |
| IdentityKeys.PlainInputsApart | idmap/map_service.go:325-354 | so inputs that are neither rUINs nor prefixed get the same vUIN if and only if they are equal |
| IdRuns.RetrievedIsMapped | idmap/map_service.go:421-463 | a lookup answers only with an identity mapped to the vUIN now, however stale the hint |
| IdRuns.RunStaysStable | idmap/map_service.go:541-559 | if no input carries a doubled prefix, no raw form in the store does |
| IdRuns.RetrievedNormalizesBack | idmap/map_service.go:421-463 | then the answer normalises to an identity of the vUIN |
| IdRuns.StoreThenRetrieveIff | idmap/map_service.go:325-463 | looking up straight after storing gives the normalised raw form and nothing else: for every new identity and every input without the doubled prefix, and for the others exactly if the hint names an identity of the vUIN by chance or the walk settles on it |
| IdRuns.RetrievesOnce | idmap/map_service.go:421-463 | a lookup has one answer |
| IdRuns.DoubledNotReadBack | idmap/map_service.go:431-454 | two bindings after which an input with the doubled prefix is not read back |
| IdRuns.MappingLasts | idmap/map_service.go:407-419 | the vUIN that a lookup of an identity gives stays the same until that identity is bound elsewhere or its vUIN is rebound |
| MsgBuckets.NewIdIsNext | idmap/map_service.go:766-780 | before the counter has run through, a new message gets the counter's successor without probing |
| MsgBuckets.CleanKeepsBijection | idmap/map_service.go:830-852 | cleaning up removes both directions and the expiry together |
| MsgBuckets.CleanKeepsLookups | idmap/map_service.go:830-852 | cleaning up changes no lookup made then or later |
| MsgBuckets.SlotSharedIff | idmap/map_service.go:695-700 | another pair that can be stored shares a latest-message slot exactly if the group has a colon behind its first character or the user one before its last |
| MessageStore.MsgStore.StoreMsgID | idmap/map_service.go:622-667 | a known message is refreshed under its virtual ID, a new one gets a free one; an empty ID is refused; nothing else changes |
| MessageStore.MsgStore.AllocateMsgID | idmap/map_service.go:766-780 | the loop ends, at the first number after the counter that is not in use |
| MessageStore.MsgStore.RetrieveMsgID | idmap/map_service.go:669-691 | the message unless it is expired, unknown or empty |
| MessageStore.MsgStore.CleanExpired | idmap/map_service.go:830-872 | removes exactly the expired messages and the expired latest entries |
| MessageStore.MsgStore.DropExpired | idmap/map_service.go:838-852 | the loop over the expired IDs, in any order, removes exactly their entries |
| MsgRuns.RunIsBijective | idmap/map_service.go:622-667 | in every run real and virtual IDs are inverse to each other, with an expiry each |
| MsgRuns.RunIsCounted | idmap/map_service.go:769-778 | no virtual ID in use exceeds the counter, and the counter never falls |
| MsgRuns.IssuedUpToCounter | idmap/map_service.go:766-780 | until the counter reaches the largest number, the virtual IDs issued so far are exactly those up to it |
| MsgRuns.IssuedOnce | idmap/map_service.go:645-649 | and each one is larger than all before it |
| MsgRuns.ReissuedIff | idmap/map_service.go:769-775 | in every run, a positive virtual ID is issued for a second message exactly if the counter has reached the largest 64-bit number before |
| MsgRuns.FirstReissueIff | idmap/map_service.go:769-775 | the first time this happens, the counter stands at that number |
| MsgWrapped.ReissueExists | idmap/map_service.go:769-775 | a run with a store for each of the 2^63 - 1 numbers and a cleanup, after which the virtual ID 1 is issued to any other message |
| MsgRuns.FoundIff | idmap/map_service.go:669-691 | in every run a lookup answers with a message if and only if the lifetime given when it was last stored has not passed, or an hour if that was not positive or the sum is no 64-bit number, whatever stores and cleanups come between |
| MsgRuns.FoundUntilExpiry | idmap/map_service.go:669-691 | while the counter has not run through, nothing else is found afterwards either |
| LatestRuns.SlotFoundUntilExpiry | idmap/map_service.go:694-732 | a lookup finds the latest message of a slot exactly until its expiry, whatever stores to other slots and cleanups come between |
| LatestRuns.LatestFoundUntilExpiry | idmap/map_service.go:694-732 | for a pair whose slot no other pair shares, only stores for this pair matter |
| LatestRuns.KeepsItsLatestIff | idmap/map_service.go:694-732 | a pair's last message is found until its expiry in all runs, whatever is stored for other pairs, if and only if no other pair shares its slot |
| Wire.VarintRoundTrip | idmap/qq_group_receive_state.go:186-197 | every 64-bit value is read back, whatever bytes follow |
| Wire.TagRoundTrip | idmap/qq_group_receive_state.go:183-189 | field number and wire type are read back |
| Wire.BytesRoundTrip | idmap/qq_group_receive_state.go:184-189 | length-delimited bytes are read back, whatever bytes follow |
| Wire.SkipValueStable | idmap/qq_group_receive_state.go:241 | skipping an unknown field, groups included, does not look behind its end |
| WireBytes.VarintForm | idmap/qq_group_receive_state.go:179-205 | a number is written as the shortest varint of its groups of seven bits, the least significant first |
| WireBytes.ConsumeVarintIff | idmap/qq_group_receive_state.go:207-298 | exactly what is read as a number: at most ten bytes, the value of their groups, no more than 64 bits of it |
| WireBytes.EndlessVarint | idmap/qq_group_receive_state.go:207-298 | bytes that do not end, or not within ten, are refused |
| WireBytes.TagForm | idmap/qq_group_receive_state.go:179-205 | a tag is the varint of eight times the field number plus the type |
| WireBytes.StateBytes | idmap/qq_group_receive_state.go:179-205 | two states byte by byte |
| WireBytes.ValueSkipped | idmap/qq_group_receive_state.go:281-287 | a well-formed value, groups included, is skipped as a whole exactly if its groups are not nested too deeply |
| ReceiveWire.MarshalState | idmap/qq_group_receive_state.go:179-200 | the loop writes the entries in order, then the flags that are set |
| ReceiveWire.UnmarshalEntry | idmap/qq_group_receive_state.go:251-290 | the loop computes the recursive definition of parsing, every error case included |
| ReceiveWire.UnmarshalState | idmap/qq_group_receive_state.go:202-249 | the same for states; it ends on every input |
| ReceiveWire.EntryRoundTrip | idmap/qq_group_receive_state.go:181-186 | every entry is read back |
| ReceiveWire.StateRoundTrip | idmap/qq_group_receive_state.go:179-290 | every state is read back, whatever the message IDs and events are |
| ReceiveWire.ParseStateConcat | idmap/qq_group_receive_state.go:204-247 | parsing a concatenation goes on from what the first part gave |
| ReceiveWire.ConcatenationMerges | idmap/qq_group_receive_state.go:211-246 | two encodings in a row append their entries and let the later boolean win |
| ReceiveWire.UnknownFieldIgnored | idmap/qq_group_receive_state.go:240-246 | a well-formed unknown field changes nothing, wherever it stands |
| ReceiveWire.UnknownEntryFieldIgnored | idmap/qq_group_receive_state.go:281-287 | the same inside an entry |
| WireBytes.UnknownValueIgnored | idmap/qq_group_receive_state.go:281-287 | so a well-formed field that is not known changes nothing |
| WireBytes.UnknownEntryValueIgnored | idmap/qq_group_receive_state.go:281-287 | the same inside an entry |
| WireBytes.WrongTypeRefused | idmap/qq_group_receive_state.go:207-298 | a known field of another type is an error, in a state as in an entry |
| WireBytes.BooleanField | idmap/qq_group_receive_state.go:207-298 | a boolean field with any number but zero is true |
| ReceiveWire.LastEntryFieldsWin | idmap/qq_group_receive_state.go:253-288 | inside an entry the last occurrence of a field wins |
| ReceiveState.AdvanceState | idmap/qq_group_receive_state.go:137-177 | the loops compute the next window and flag |
| ReceiveState.WindowIsLastTen | idmap/qq_group_receive_state.go:137-151 | the window kept step by step is the last ten of the whole history after keeping each message's latest event; its IDs are pairwise distinct |
| ReceiveState.PermittedIff | idmap/qq_group_receive_state.go:153-173 | permission is there exactly if it was loaded and never withdrawn, or the window was all normal at some point after the last AT event |
| ReceiveState.TenNewMessagesNeeded | idmap/qq_group_receive_state.go:157-159 | unless the AT message is delivered again, permission needs ten different normal messages after it |
| ReceiveState.ImmediateReturnIff | idmap/qq_group_receive_state.go:157-170 | when a single normal event after an AT event brings permission back |
| ReceiveReturn.LatestConcat | idmap/qq_group_receive_state.go:137-151 | how further events change the latest events of a history |
| ReceiveReturn.WindowNormalIff | idmap/qq_group_receive_state.go:137-170 | after any history, any run of normal messages makes the window all normal exactly if what is left of the history ends in as many normal events as the run lacks to ten |
| ReceiveReturn.PermissionReturnsIff | idmap/qq_group_receive_state.go:153-173 | permission after an AT event and any run of normal messages: exactly that condition |
| ReceiveReturn.FewerThanTenIff | idmap/qq_group_receive_state.go:157-159 | fewer than ten different new messages are enough exactly if the AT message is among them and enough normal events from before are left |
| ReceiveState.OneMessageCanBeEnough | idmap/qq_group_receive_state.go:157-159 | a history where it does |
| Recorder.ReadPersisted | idmap/qq_group_receive_state.go:118-135 | the meaning of a stored flag, of a missing one, and the errors |
| Recorder.GroupTracker.EnsureLoaded | idmap/qq_group_receive_state.go:72-83 | a tracker is loaded once, from the stored flag, or the error leaves it as it was |
| Recorder.GroupTracker.DecodeOrReset | idmap/qq_group_receive_state.go:85-90 | decoding in memory; on failure the tracker is emptied |
| Recorder.GroupTracker.Record | idmap/qq_group_receive_state.go:69-116 | the locked part refines the step on values and leaves decodable bytes, so that the failure branch is never taken |
| Recorder.Recorder.RecordReception | idmap/qq_group_receive_state.go:60-116 | empty input is refused without a change, otherwise the step is taken for this group and no other group changes |
| Recorder.Recorder.Restart | idmap/qq_group_receive_state.go:44-59 | trackers are gone, stored flags stay |
| RecorderRuns.RunKeepsFlags | idmap/qq_group_receive_state.go:67-116 | in every mix of events, failures and restarts the flag in memory is the stored flag |
| RecorderRuns.SuccessIsPersisted | idmap/qq_group_receive_state.go:99-115 | a call without an error leaves the stored flag equal to the returned permission |
| RecorderRuns.FailedWritesLoseNothing | idmap/qq_group_receive_state.go:107-111 | after any number of failed writes in a row the window is still that of the whole history and the stored flag is the old one |
| RecorderRuns.FailedWritesAreRetried | idmap/qq_group_receive_state.go:99-115 | the first reception whose write does not fail returns the permission of the whole history and leaves the stored flag equal to it |
| RecorderRuns.PermissionAfterRun | idmap/qq_group_receive_state.go:67-177 | after any run the window and the permission are those of the events since loading |
| RecorderFlags.OtherWithdraws | idmap/qq_group_receive_state.go:92-116 | a reception that is not normal never answers with permission |
| RecorderFlags.NormalKeeps | idmap/qq_group_receive_state.go:92-116 | a normal one never withdraws permission |
| RecorderFlags.PermissionByFlags | idmap/qq_group_receive_state.go:67-177 | after any run permission is there exactly if it was loaded and nothing but normal messages were received since, or at some point the last ten different messages were normal and all since |
| RecorderFlags.TenNormalPermit | idmap/qq_group_receive_state.go:157-177 | ten normal receptions of different messages, with nothing between them, end in permission, whatever came before and whether or not writes fail |
| RecorderFlags.TenthAnswers | idmap/qq_group_receive_state.go:92-116 | and the tenth answers so |
| RecorderFlags.StoredText | idmap/qq_group_receive_state.go:99-115 | the stored text changes only to "1" or "0", for the permission returned; a failed write leaves it |
| RecorderFlags.FlagMeans | idmap/qq_group_receive_state.go:118-135 | which stored texts mean permission, and which its absence |
| ConfigLines.SplitJoined | config/config.go:512 | splitting undoes joining with a newline |
| ConfigLines.TrimParts | config/config.go:522 | trimming takes spaces off both ends until none is left there |
| ConfigLines.TrimUnique | config/config.go:522 | which determines the result |
| ConfigLines.KeyFromTrimmed | config/config.go:530 | the two ways in which the functions read a key from a line agree |
| ConfigLines.KeyOfIff | config/config.go:551-566 | a line has a key exactly if the key stands between spaces before its first colon and does not begin a comment |
| ConfigLines.MatchIsKey | config/config.go:575-585 | a line that matches the pattern of a key has that key for the other functions too |
| ConfigLines.MatchCoversIndent | config/config.go:587 | the group of the pattern is at least as long as the indentation |
| ConfigParents.TopIsNearest | config/config.go:533-541 | what is left on the indentation stack after popping is the nearest earlier key line indented less |
| ConfigParents.BuildParentKeyMap | config/config.go:510-548 | the stack loop computes that parent for every line |
| ConfigParents.MappedByLast | config/config.go:538-541 | a key is mapped if one of its lines has a parent, and the last such line decides |
| ConfigParents.DistinctKeysRooted | config/config.go:472-483 | with distinct key names every climb to the ancestors ends |
| ConfigParents.RootedIff | config/config.go:473-483 | a climb that ends does so within as many steps as there are keys with a parent |
| ConfigParents.EndlessClimbIff | config/config.go:473-483 | so a test that ends decides whether the climb goes on for ever |
| MissingExamples.EndlessExample | config/config.go:470-484 | texts for which round two climbs for ever |
| MissingKeys.ExtractKeysFromString | config/config.go:551-566 | the keys of all lines that have one |
| MissingKeys.AddAncestors | config/config.go:472-483 | the climb adds exactly the ancestors that are not configured |
| MissingKeys.AddMissingAncestors | config/config.go:468-484 | round two ends and adds exactly the missing ancestors of the keys it began with, whether or not added keys are visited |
| MissingKeys.FilterChildren | config/config.go:486-495 | round three is a function of the order in which the map was iterated; it only removes keys, and unless `settings` is torn away its result below `settings` is the same for all orders |
| MissingKeys.OrderIrrelevantIff | config/config.go:486-503 | rounds three and four give the same for all orders exactly if `settings` is not missing together with its parent and another key below it |
| MissingKeys.ResultIsWanted | config/config.go:450-505 | and that is: the keys below `settings` that the configuration lacks, or nothing if it lacks `settings` |
| MissingKeys.TornIffText | config/config.go:468-495 | whether `settings` is torn away is decided by the texts: `settings`, its parent and another key below it are missing |
| MissingKeys.ComputedIsWantedIff | config/config.go:443-506 | over all iteration orders, the whole computation gives the wanted keys exactly if the texts are not of that kind |
| MissingExamples.TornExample | config/config.go:443-506 | texts that are |
| MissingKeys.TopLevelSettings | config/config.go:497-503 | a top-level `settings` suffices |
| MissingKeys.GetMissingSettingsByText | config/config.go:443-506 | the four rounds refine that computation |
| ShadowedKeys.WantedExactlyIff | config/config.go:538-541 | the wanted keys are exactly the missing keys directly below `settings` if and only if none of them has its last line below another key |
| ShadowedKeys.DistinctNotShadowed | config/config.go:538-541 | with distinct key names none has |
| ShadowedKeys.InnerHidden | config/config.go:538-541 | a template shape where a missing setting is not asked for |
| ConfigRepair.ExtractBlock | config/config.go:581-603 | the block from the first line that matches the key to the next nonblank line indented no deeper |
| ConfigRepair.ExtractMissingConfigLines | config/config.go:568-610 | the blocks of all keys in the order of the iteration, or an error that names a key without a line |
| ConfigRepair.KeyExistsInConfig | config/config.go:691-712 | whether the key stands in a line indented two deep |
| ConfigRepair.AppendToConfigFile | config/config.go:612-688 | what was there stays; the groups whose head is not there yet follow line by line; the count is theirs |
| ConfigPass.AllKept | config/config.go:629-681 | regrouping by indentation begins a group only at the head of a block |
| ConfigPass.KeylessKept | config/config.go:632-640 | lines without a colon, outside all blocks, are written one by one, blank ones apart |
| ConfigPass.OrderOfBlocksMatters | config/config.go:647-670 | a block whose head is there already is skipped, and with it a deeper block behind it, which is written if it comes first |
| ConfigPass.AllWritten | config/config.go:612-688 | so everything extracted for keys that are not there is written |
| ConfigPass.KeysAfterPass | config/config.go:612-688 | the keys afterwards are those from before and those of the blocks, all missing ones among them |
| ConfigReflected.BlockWritten | config/config.go:630-681 | a new block that is no deeper than any block whose key is there already is written, in every order |
| ConfigReflected.EndangeredLost | config/config.go:647-670 | a wanted key in danger of being swallowed is lost in some order |
| ConfigReflected.OnePassSufficesIff | config/config.go:376-403 | one pass leaves no key wanted in any order exactly if no wanted key is in danger: if there is no shallower block whose key already stands two deep, or the key stands in a new block that this one cannot swallow |
| ReflectedExample.AllSwallowed | config/config.go:647-670 | a block that is there already and shallower than all others, coming first, makes the pass write nothing |
| ReflectedExample.VersionBelowSettings | config/config.go:25-28 | texts where this happens: the version number below `settings` |
| ReflectedExample.VersionBelowExists | config/config.go:25-28 | such texts exist, with any values behind the colons, such as `version: 1` |
| ReflectedExample.VersionBelowRestarts | config/config.go:376-403 | in every run of passes on such texts that report the version each time the program restarts once at most |
| ConfigRestarts.PassProgress | config/config.go:376-403 | if what the comparison of the structures reports stands two deep already, a pass writes nothing or leaves fewer keys wanted, danger or not |
| ConfigRestarts.RestartsAtMostWanted | config/config.go:398-403 | in every run of such passes the program restarts at most as often as there are wanted keys at the start |
| ConfigRestarts.PassSettles | config/config.go:376-403 | for every template and order: a pass that writes something settles a key, if what is reported is unsettled or stands two deep |
| ConfigRestarts.RestartsBounded | config/config.go:398-403 | in every run of such passes there are at most as many restarts as unsettled keys at the start |
| ConfigRestarts.EndlessRestartsIff | config/config.go:370-403 | where nothing is wanted and one key is reported in each pass, the program can restart any number of times if and only if the key does not stand two deep, and does not do so in its block of the template |
| ConfigRestarts.NoReportNoDanger | config/config.go:386-396 | keys found by the text comparison alone are never in danger |
| ConfigRestarts.SafePassLeavesNothing | config/config.go:376-403 | after a pass without danger nothing is wanted, whatever was reported |
| ConfigRestarts.SecondPassIdle | config/config.go:398-403 | after such a first pass a second one ends and writes nothing, if what it is given stands two deep: no restart loop |
| ConfigPass.AllFound | config/config.go:575-606 | if the template uses no unusual spaces, every key of it is found by its pattern |
| ConfigPass.EnsureConfigComplete | config/config.go:350-407 | the pass as a whole: its text is one of those above, and a restart follows exactly if the text has changed |
| Replacing.ReplaceConcat | handlers/message_parser.go:1266 | replacing works piecewise across a border that no occurrence can cross |
| Replacing.ReplaceLeftmost | handlers/message_parser.go:1266 | the leftmost occurrence is replaced, what stands before it is kept, and the rest is treated alike |
| Replacing.ReplaceEmpty | handlers/message_parser.go:1266 | an empty pattern puts the replacement before each character and behind the last |
| CqCodes.WeaveOfParts | handlers/message_parser.go:1260-1261 | a text is its segments woven with its CQ codes |
| CqShape.NextCodeIsFirst | handlers/message_parser.go:1260 | the next code is the first match of the pattern in the text, and there is none only if nothing matches |
| CqShape.PartsIff | handlers/message_parser.go:1260-1261 | segments and codes are exactly what cutting the text at its leftmost matches gives |
| CqShape.CodesAreCodes | handlers/message_parser.go:1260 | each code is a match as a whole, and no segment holds one |
| CqMask.MaskCodes | handlers/message_parser.go:1259-1265 | the callback puts a numbered placeholder for each code and records the pair |
| CqMask.TransformAt | handlers/message_parser.go:1256-1270 | mask, replace, then put the codes back one after the other, or nothing at all |
| CqProtection.MaskingIsDirect | handlers/message_parser.go:1256-1270 | equals replacing outside the CQ codes, each code kept byte for byte, under the two conditions below |
| CqProtection.ProtectsIff | handlers/message_parser.go:1293-1307 | all clean texts with up to n codes and all numeric bot IDs are safe exactly if the application ID occurs in none of the numbers below n |
| CqProtection.LargeIdIsProtected | handlers/message_parser.go:1257-1270 | in particular if it is no smaller than the number of codes |
| CqCompletion.DirectIff | handlers/message_parser.go:1262-1269 | for any bot ID without NUL: safe exactly if it fits into no placeholder name from inside the mark on |
| CqCompletion.PartOfMarkCompletes | handlers/message_parser.go:1262 | a bot ID without NUL and without the mark that does fit |

## Left out

- Network, WebSocket, gin, gRPC, image hosting, silk and frontend code: calls into other systems.
- The database itself: a transaction is one atomic step, one that fails is rolled back and changes nothing. The cursor is modelled by `ByteOrder.First`; key length limits are not modelled.
- Locks and logging: each call is one step.
- Clock, configuration values, MD5, base32, the Unicode digit test and the trimming of group and message IDs are parameters. The lower-casing in the rUIN test is that of ASCII letters.
- `sort.Slice` is modelled by `Merging.SortByStart`; its contract promises order and permutation only.
- The protowire package is modelled from the Protocol Buffers Encoding documentation, sections "Base 128 Varints", "Message Structure" and "Last One Wins"; it is not part of the repository.
- Invalid UTF-8 in texts, and the UTF-8 check of protobuf strings, which the code does not make either.
- Reading and rewriting the word list files and the Unicode escapes entered beside each word (acnode/acnode.go:248-322): `Load` takes the list of entries.
- WordFilter.CheckWordIN: the globals are parameters.
- IdentityStore.IdStore.AllocateVuin: requires fewer than 2^64 identities, which a database cannot reach; beyond that the loop would not end.
- MessageStore.MsgStore.StoreMsgID: requires fewer than 2^64 messages, as above.
- MsgRuns.IssuedOnce: for runs in which the counter does not reach the largest 64-bit number; `ReissuedIff` covers all runs.
- MsgRuns.ReissuedIff: for positive virtual IDs; others are issued only while all 2^63 - 1 positive ones are in use.
- MsgRuns.FoundIff: for clock values from 0 up to 3600 below the largest 64-bit number.
- MsgRuns.FoundUntilExpiry: for the same clock values, and for runs in which the counter does not reach the largest 64-bit number; `FoundIff` covers all runs.
- IdentityKeys.KeySharedIff: for base32 decoders that refuse texts with a colon, as the library's does.
- IdRuns.StoreThenRetrieveIff: for positive vUINs and non-empty raw forms; the hash mode can give 0, which is never looked up.
- IdRuns.RetrievedNormalizesBack: for runs without doubled prefixes, see `NormalizeIdempotentIff`.
- Recorder.Recorder.RecordReception: for message IDs shorter than 2^60 bytes, so that their encoding has a 64-bit length.
- MissingKeys.GetMissingSettingsByText: requires that the climb from each key that round two begins with ends (`ClimbsEnd`, a test that ends); otherwise the code loops for ever (`EndlessClimbIff`, `EndlessExample`).
- ConfigReflected.OnePassSufficesIff: for keys that are found in the template; if one is not, the pass ends in an error and writes nothing.
- ConfigRestarts.SafePassLeavesNothing: either the configuration has `settings` or the comparison of the structures does not report it; it never does, since it passes over structures (config/config.go:429-431).
- ConfigRestarts.SecondPassIdle: as above, and what is reported in the second pass stands two deep.
- ConfigRestarts.EndlessRestartsIff: whether a key is reported again after its block was appended is decided by the YAML parser, which is not part of this model.
- ConfigPass.EnsureConfigComplete: the comparison of the parsed structures is the parameter `reflected`, the file is a text, and writing does not fail half-way.
- `newDBMsgStore`, which binds an arbitrary virtual ID and breaks the bijection (idmap/map_service.go:797-809), and `CleanMsgDB`, which begins a new run.
- The legacy migration (idmap/map_service.go:123-323): it repeats the bind step for the old entries, and at its end sets the vUIN counter to the largest number seen and raises the message counter.
- `cleanupDuplicateSettings` (config/config.go:717-792): rebuilding can drop a `settings:` line.
- The rest of `transformMessageTextAt`, after the codes have been put back: it removes reply codes.
- The lazy message pool and the pending message stack of `echo`, and the send handlers.
