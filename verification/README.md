# ANetCore, verified in Dafny

A model of the protocol kernel of ANetCore and proofs about it. The kernel does no I/O, reads no clock and opens no
socket: its packages are state machines, canonical parsers and printers, a Merkle sum tree and exact length
arithmetic. Each Dafny file follows one Go file or one part of it.

| file | what it models |
|---|---|
| `Octets.dfy`, `Utf8.dfy` | bytes, big-endian integers, CBOR heads, UTF-8 as Go decodes it |
| `Liabtree.dfy`, `Shuffle.dfy` | the liability tree: shuffling, building, proving, folding |
| `Kel.dfy` | the pre-rotated key event log: replay, object verification, extension |
| `Controller.dfy`, `IdFile.dfy` | the holder of an identity's keys, and its file |
| `ReplayCache.dfy` | the least-recently-used cache in front of replay |
| `Notice.dfy` | a witness hub's signed notices |
| `Ledger.dfy` | the append-only ledger: staging, draining, fork trap, quarantine |
| `Glob.dfy`, `Predicate.dfy` | the glob matcher and the task predicate calculus |
| `Padme.dfy`, `Wrap.dfy`, `CborLaws.dfy` | Padmé, the padded Wrap, the signature preimage |
| `NullWalk.dfy`, `NullTypes.dfy` | the strict decoder's null and undefined check |
| `JsonText.dfy`, `JsonNumber.dfy`, `JsonPrint.dfy`, `JsonParse.dfy`, `Json.dfy`, `JsonReader.dfy`, `JsonWriter.dfy` | RFC 8785 canonical JSON |
| `JsonSpelling.dfy`, `JsonGrammar.dfy` | which texts are JSON, and which of them is canonical, as a grammar |
| `Publish.dfy` | stripping proto3 defaults, and the publish form of a card |
| `UriText.dfy`, `AgentUri.dfy`, `UriGrammar.dfy` | agent URIs, and which texts are one, as a grammar |

How it is put together:

- What a method does is a function (`Verify` and `FoldTo`, `Chain.DrainStaged` and `Drain`, `Parser.ParseValue` and
  `ValueAt`). The method, with its loops and its fields, is proved against the function; the promises of the package
  are lemmas about the function.
- Cryptography and the CBOR library are function-valued fields (`Crypto`, `Suite`, `Codec`, `Cbor`). No collision
  resistance is assumed. Results that need it end in "or here are two different inputs that were hashed and collide",
  and the two inputs are ones the code hashed.
- What a function computes is also said without it: as a grammar (`JsonExactly`, `ParsesExactlyUris`), as rules over
  the events (`ReplaysExactlyLogs`, `GateExactly`), from the arguments of a call (`RotationHoldsItsArguments`) or from
  the size of a number (`LayoutHasEcmaForm`).
- Where a large encoding stands behind a small one, the proof is done over an abstract interface and the interface is
  then shown to be met: `StandardIsLawful` for JSON leaves and for CBOR items, `OverSha` for the tree's hashes.

Assumptions, each a named predicate:

- `Kel.Injective`: one encoding belongs to one event. `Control.Lawful`: what a key signs verifies under it.
- `IdFile.Faithful`, `Notices.Faithful`: what was encoded decodes to itself; for the identity file, logs and events of the
  right type and files whose optional parts are not there and empty.
- `Json.Rounds`: the shortest decimal that names a binary64 value is read back as that value, and zero is zero.
- `UriText.Normalizes`: NFC is idempotent, keeps scalars, does not empty a string, and gives back nothing foldable when
  applied to a mapped NFC string.
- `UriText.KeepsAscii`, for what ASCII labels fold to: NFC leaves ASCII alone.
- `Ledgers.EncodesContent`: the canonical encoding of two different records differs.
- `Publishing.NamedFields`: no schema field, and no member that is always written, has the empty name.

## Where the code does less than its comments say

The model follows the code. Each point has a lemma.

- ael/ael.go:271-277. A second, different record for a seq that is only staged replaces the first, without an
  equivocation: the fork trap covers applied seqs only (`StagedRecordIsReplaced`, `EquivocationExactlyWhen`).
- ael/ael.go:384-392. On a quarantined chain the reported head is the competing record, not the existing one
  (`HeadReportsCompetingRecord`).
- identity/identity.go:495-497. While the log ends in a deactivation no signature verifies under it
  (`EverySignatureVerifies` says exactly when one does).
- identity/controller.go:285-302 and identity/idfile.go:256-259. An agent may hand its own hot key to `BuildRotation`;
  the pending event it gets is one `Restore` refuses (`HotKeyRotationIsPending`, `HotKeyRotationIsRefused`;
  `ExportRestore` is the exact condition).
- coredet/coredet.go:119-120. A type with its own UnmarshalCBOR is said to be handed a null; the walk refuses it
  (`CustomTypeIsNotHandedNull`). What is inside such a type is not checked for nulls.
- a2acard/publish.go:134. "Every member is a field of its message": inside the card nothing is skipped, but "nothing" is
  spelled as the empty name, so a nested message may hold any value under the empty name, or nothing else at all
  (`EmptyNameIsNotChecked`). A card that passes holds fields only exactly when none of its messages has a member with the
  empty name (`FieldsOnlyExactlyWhen`). The signed payloads still agree.
- agenturi/agenturi.go:173-174. A literal `*` is said to be permitted in a query; it is refused like any other
  character outside the alphabet, agenturi/agenturi.go:195-199 (`OneStar`). Of the text that would be fine with stars
  permitted, exactly what has no star is accepted (`StarsAreRefused`; `AcceptedExactlyWhenSpelled` for all text).

## Model

| member | source | states |
|---|---|---|
| Liabtree.LeafInputInjective | liabtree/liabtree.go:129-142 | the leaf preimage determines account, day, balance and salt |
| Liabtree.NodeInputInjective | liabtree/liabtree.go:145-155 | the node preimage determines both children with their sums |
| Liabtree.InputInjective | liabtree/liabtree.go:129-155 | no leaf preimage equals a node preimage, and each determines what it hashes |
| Liabtree.AddSum | liabtree/liabtree.go:159-164 | two 63-bit sums add to a 63-bit sum or to none |
| Liabtree.Fold | liabtree/liabtree.go:362-384 | the loop up the path ends in the node of the recursive fold, or in its first error |
| Liabtree.Verify | liabtree/liabtree.go:335-359 | accepts exactly the proofs whose fold gives root and outstanding at the asked depth |
| Liabtree.SubtreeBound | liabtree/liabtree.go:362-384 | proofs with distinct AIDs that meet in one node owe at most its sum, unless two of their hashed inputs collide |
| Liabtree.PublisherCannotHideLiabilities | liabtree/liabtree.go:335-384 | whoever published the root: balances of verifying proofs with distinct AIDs sum to at most outstanding, or a collision is exhibited |
| Liabtree.PublisherBoundOverSha | liabtree/liabtree.go:129-164 | the same bound with the exact byte strings: a violation exhibits two different preimages with one SHA-256 |
| Shuffling.Uniform | liabtree/liabtree.go:217-228 | the draw loop returns the first number below the limit, modulo m |
| Shuffling.UniformIsFair | liabtree/liabtree.go:217-228 | the accepted range is a multiple of m, so every residue comes from equally many draws |
| Shuffling.DrawIsFirstTaken | liabtree/liabtree.go:217-228 | a draw is the first block of eight bytes in the accepted range, modulo m, and uses the data up to its end; without one there is no draw |
| Shuffling.EveryOrderOnce | liabtree/liabtree.go:201-207 | of n different elements, each order is made by exactly one list of draws d(i) <= i; with fair draws all orders are equally likely |
| Shuffling.DrawnElementStays | liabtree/liabtree.go:201-207 | position i takes the element its draw names, and no later swap moves it |
| Shuffling.ShuffleIsSwaps | liabtree/liabtree.go:201-207 | the shuffle reads its draws in order and does what they say; it fails exactly when the data run out |
| Shuffling.MovedLikePositions | liabtree/liabtree.go:201-207 | where an element goes depends on the draws alone, not on the accounts |
| Liabtree.Build | liabtree/liabtree.go:178-214 | the array is filled, shuffled and salted in place; the result is the tree of the specified order, or its error |
| Liabtree.BuildExactlyWhen | liabtree/liabtree.go:178-214 | a tree is built exactly for at most 2^32 valid, different, non-empty AIDs whose total fits, given enough random bytes |
| Liabtree.TreeSizeIsLeast | liabtree/liabtree.go:185-188 | the number of places is the least power of two, at least 16, that holds the accounts |
| Liabtree.SaltsAreFresh | liabtree/liabtree.go:208-212 | the salts are consecutive random bytes: none is used twice, nor for a draw |
| Liabtree.Randomize | liabtree/liabtree.go:201-212 | swapping and salting in place is the specified order of the entries, or a failed read |
| Liabtree.ShuffleInPlace | liabtree/liabtree.go:201-207 | the swaps in place give the shuffle the reader's bytes name |
| Liabtree.OrderIsPermutation | liabtree/liabtree.go:178-214 | the shuffled entries are the accounts once each plus zero padding, no AID twice |
| Liabtree.BuildTree | liabtree/liabtree.go:257-285 | the nested level loops build the levels of pairwise sums and hashes |
| Liabtree.RootByHalves | liabtree/liabtree.go:257-297 | root and outstanding are those of the entries taken by halves, recursively, the left half hashed first |
| Liabtree.BuildCountsEveryAccount | liabtree/liabtree.go:178-214 | outstanding is the sum of all balances, at most 2^63-1; depth is in bounds |
| Liabtree.BuildOverflowsExactlyOnTotal | liabtree/liabtree.go:257-285 | overflow is reported exactly when the total does not fit, never for a partial sum |
| Liabtree.Rebuild | liabtree/liabtree.go:235-254 | entries are checked in order and rebuilt, or refused |
| Liabtree.RebuildExactlyWhen | liabtree/liabtree.go:235-254 | rebuilding succeeds exactly for a power of two of entries from 16 to 2^32, padding at 0, different valid AIDs and a total that fits |
| Liabtree.RebuildGivesTheSameTree | liabtree/liabtree.go:235-254 | stored entries of a built tree rebuild to the same tree |
| Liabtree.MakeProof | liabtree/liabtree.go:304-326 | the proof of an AID is the path of its position, none for an unknown one |
| Liabtree.SidesSpellThePosition | liabtree/liabtree.go:313-326 | read as binary digits, the sides of a path are the position of the leaf |
| Liabtree.EveryAccountProves | liabtree/liabtree.go:304-359 | every account of a built tree gets a proof of exactly its balance, and it verifies |
| Kel.Replay | identity/identity.go:238-341 | the loop that threads prior, committed digest and time gives the states, or the first broken rule |
| Kel.ReplaysIsOk | identity/identity.go:238-341 | replay succeeds exactly when every event satisfies its rule in terms of the events before it |
| Kel.ReplaysExactlyLogs | identity/identity.go:238-341 | replay accepts exactly the logs that keep every rule of inception, rotation, deactivation and linking, said without the checks |
| Kel.StatesMean | identity/identity.go:238-455 | each state holds its own event's key and mode, and the time and urgency of the event after it |
| Kel.WitnessIsOfLastRotation | identity/identity.go:317-336 | a state names the witness of the last establishment event up to it |
| Kel.MarkSuperseded | identity/identity.go:446-455 | editing the states in place dates each by the event after it |
| Kel.PrefixReplays | identity/identity.go:238-341 | every prefix of a log that replays does, with the states it had |
| Kel.AppendReplays | identity/identity.go:238-341 | a log with one more event replays exactly when that event fits the last |
| Kel.ForkTheorem | identity/identity.go:289-316 | two logs of one AID: one is a prefix of the other, or the committed next key signed both differing events, or hashed inputs collide |
| Kel.NoForkWithoutTheNextKey | identity/identity.go:289-316 | whatever signatures were made, with one event for each key, two logs of one AID agree as far as both go, or a signature over an event never signed or a hash collision is exhibited |
| Kel.AcceptedMeansVerified | identity/identity.go:482-514 | an object is accepted exactly when the key of its declared event signed it and no later event ended that key by its time |
| Kel.RefusedBecause | identity/identity.go:482-514 | which refusal an object gets: the first of five conditions on the events that applies |
| Kel.ExtendsKel | identity/extend.go:40-65 | the index loop says extends, rollback, a fork or an event that does not encode, each at the first index where the logs part |
| Kel.ExtendsIsPartialOrder | identity/extend.go:40-65 | extension is reflexive on replayable logs, transitive, and antisymmetric up to signature bytes |
| Kel.ExactlyOneOfThree | identity/extend.go:40-65 | of two replayable logs one extends the other, or is a rollback of it, or they fork: exactly one |
| Kel.ExtensionOnlyRevokes | identity/identity.go:482-514 | learning more of a log takes away exactly the acceptances under the old tip that are undated or not before its successor |
| Kel.ExtensionOnlyRetires | identity/identity.go:521-552 | the grace of a retired key only shrinks as the log grows |
| Kel.GraceExactly | identity/identity.go:521-552 | a retired key stands one hour after a planned rotation, and only to the very moment of an emergency or a deactivation; a current one without end |
| Kel.CheckNewEvents | identity/extend.go:89-100 | reports the first new event outside the clock window, none exactly when all are inside |
| Control.InceptionIsComplete | identity/controller.go:89-113 | an inception holds both keys and satisfies the invariant of every later state |
| Control.BuildSucceedsExactlyWhen | identity/controller.go:507-545 | with the committed key, an event is built exactly when its time is later than the last and its witness fits |
| Control.RotationHoldsItsArguments | identity/controller.go:285-302 | the pending rotation reveals the given key, commits the given digest, names the given witness, mode and time, and follows the log |
| Control.DesignationHoldsItsArguments | identity/controller.go:257-274 | the pending designation reveals the hot key, commits the given digest, names the hub, and is no emergency |
| Control.DeactivationHoldsItsArguments | identity/controller.go:307-318 | the pending deactivation reveals the given key and commits nothing |
| Control.InceptionHoldsItsArguments | identity/controller.go:89-113 | the inception shows the first key and commits the digest of the second |
| Control.AdoptionMovesOn | identity/controller.go:357-383 | accepting the pending event adds it to the log and makes its key the current one |
| Control.OnlyTheCommittedKeyComesNext | identity/controller.go:507-545 | once a rotation is adopted, a key is refused as not the committed one exactly when its digest is not the one that rotation was given |
| Control.StepKeepsInv | identity/controller.go:257-456 | every operation keeps the invariant, never takes back an accepted event, never changes the AID |
| Control.RunIsSafe | identity/controller.go:257-456 | the same over every run of operations |
| Control.LogReplays | identity/controller.go:129-171 | the signing log replays to the AID, extends the accepted log by at most one event, and ends at the reported seq |
| Control.EverySignatureVerifies | identity/controller.go:158-183 | in every state from inception a signature verifies under the log at any time exactly when the log does not end in a deactivation |
| Control.DesignateThenDiscard | identity/controller.go:391-405 | designating a witness and discarding it restores the prior state |
| Control.OnlyDesignationsAreDiscarded | identity/controller.go:391-405 | a pending event can be discarded exactly when it is a designation |
| Control.RestampKeepsMaterial | identity/controller.go:325-352 | restamping changes the time of the pending event and nothing else |
| Control.Controller.Sign | identity/controller.go:175-183 | signs with the key of the last event of the signing log and reports its seq |
| Control.Controller.MakePending | identity/controller.go:492-503 | the pending material is stored only with an event that replays |
| Control.Controller.BuildWitnessDesignation | identity/controller.go:257-274 | the fields change as the designation transition says, and not at all when refused |
| Control.Controller.BuildRot | identity/controller.go:285-302 | the same for a rotation |
| Control.Controller.BuildDip | identity/controller.go:307-318 | the same for a deactivation |
| Control.Controller.RestampPending | identity/controller.go:325-352 | the same for a restamp |
| Control.Controller.AdoptPending | identity/controller.go:357-383 | the same for the acceptance of the pending event |
| Control.Controller.Drop | identity/controller.go:391-405 | the same for a discard |
| IdFile.ExportController | identity/idfile.go:91-118 | filling the file field by field exports the controller's whole value |
| IdFile.RestoreController | identity/idfile.go:152-300 | the fields filled between the checks hold the value the specification restores, or the first error |
| IdFile.LoadLog | identity/idfile.go:164-204 | state, log, local commit, witnesses and hot key, checked and stored in the source's order |
| IdFile.LoadPending | identity/idfile.go:239-300 | the pending material is checked against the log and its event built again, or the first error |
| IdFile.LoadCur | identity/idfile.go:210-233 | the current key is set exactly when the file's is the key of the head |
| IdFile.RestoredIsConsistent | identity/idfile.go:164-300 | whatever bytes are restored, the result satisfies the controller invariant |
| IdFile.RestoreExport | identity/idfile.go:91-300 | what was restored is exported as the bytes it came from exactly when its current key was taken over; the one key dropped is that of the pending event |
| IdFile.ExportRestore | identity/idfile.go:91-300 | an identity from inception comes back as it was exactly when its pending event is not an undesignated first rotation of an agent |
| IdFile.RestartsAreInvisible | identity/idfile.go:91-300 | exporting and restoring at any moment leaves every later run the same |
| IdFile.HotKeyRotationIsPending | identity/controller.go:285-302 | handing the hot key to BuildRotation does produce the event Restore refuses |
| IdFile.HotKeyRotationIsRefused | identity/idfile.go:239-300 | and its export is refused with that error |
| ReplayCaching.ReplayCache.ReplayThrough | identity/replaycache.go:68-110 | the answer is that of plain replay, or the log and a cached one collide under the hash; the cache stays valid |
| ReplayCaching.ReplayCache.Lookup | identity/replaycache.go:74-84 | a hit moves its entry to the front, as the one used last, and changes no other |
| ReplayCaching.ReplayCache.Insert | identity/replaycache.go:97-109 | the new entry is in front, after evictions that make room, or not kept when too large; whatever went was used before whatever stays |
| ReplayCaching.ReplayCache.Evict | identity/replaycache.go:102-106 | the loop drops from the back until the entry fits, never from an empty list, and drops only entries used before all that stay |
| ReplayCaching.EvictKeeps | identity/replaycache.go:102-106 | dropping the last entry keeps map, list and byte count in agreement |
| ReplayCaching.FrontIsLatest | identity/replaycache.go:74-84 | moving the entry just used to the front keeps the list in order of last use |
| ReplayCaching.KeepsLatest | identity/replaycache.go:102-106 | when only the front of the list is kept, everything that goes was used before everything that stays |
| ReplayCaching.CompactCost | identity/replaycache.go:116-143 | the nested loops sum the estimated size of all states |
| ReplayCaching.ForKels | identity/replaycache.go:50-52 | the cache for key event logs replays, hashes and sizes as the package does |
| Notices.AcceptedNotice | identity/notice.go:151-219 | an accepted notice names the subject's tip, is signed by the named hub's log, and is at most six hours old |
| Notices.PassesExactlyWhen | identity/notice.go:151-219 | a notice passes exactly when it is one, matches the tip, is vouched for by the hub it names, and is at most six hours old and five minutes ahead |
| Notices.SignsExactlyWhen | identity/notice.go:227-275 | a hub with a signing key signs exactly the notices that encode, are about an AID with a head and a time, and name this hub or nobody |
| Notices.SignedNoticeIsAccepted | identity/notice.go:151-275 | a notice signed for the tip is refused by holders of the hub's log exactly when stale |
| Notices.ImpersonationWindow | identity/notice.go:151-219 | a log ending at seq j passes only at arrivals at most six hours after the honest hub, which serves any number of agents, moved past j, or the notice is one the hub never signed |
| Notices.MergedEmergency | identity/notice.go:283-290 | true exactly when the merge added an emergency rotation |
| Ledgers.Chain.DrainStaged | ael/ael.go:284-297 | the loop splices linking staged records and drops others until a seq is missing |
| Ledgers.Chain.AppendVerified | ael/ael.go:248-279 | a verified record forks, repeats, extends or waits as the value-level rule says |
| Ledgers.Chain.Quarantine | ael/ael.go:302-324 | both records and the anchor are kept and the chain is stuck |
| Ledgers.Ledger.Append | ael/ael.go:215-244 | guards in order, then genesis or the chain rule; every other chain is untouched |
| Ledgers.GateExactly | ael/ael.go:129-180 | a record passes the gate exactly when its id re-derives and its signature is accepted under the log at its own time; and which error each refusal becomes |
| Ledgers.StoredRecordsAreSigned | ael/ael.go:215-324 | every record a good ledger holds, applied, competing or staged, has a log under which its signature is accepted at its own time |
| Ledgers.AppendDecides | ael/ael.go:215-279 | what a record meets, guard by guard and then by its seq, with the whole new state; no other chain is touched |
| Ledgers.DrainKeeps | ael/ael.go:284-297 | draining keeps the chain linked and verified, and what stays staged lies beyond the gap |
| Ledgers.AppendKeepsGood | ael/ael.go:215-324 | every append keeps: seqs are indices, prev-id links from genesis, verified records only, at most 1024 staged beyond head+1 |
| Ledgers.QuarantineSticks | ael/ael.go:216-221 | a quarantined chain never changes again |
| Ledgers.EventsOnlyGrow | ael/ael.go:215-324 | over every series of appends applied events never change |
| Ledgers.EquivocationExactlyWhen | ael/ael.go:251-258 | quarantine exactly when a verified record differs from the applied one at its seq |
| Ledgers.ForkKeepsEvidence | ael/ael.go:300-324 | a fork leaves both records and an unsigned anchor that names the chain, the seq and both ids |
| Ledgers.StagedRecordIsReplaced | ael/ael.go:271-277 | a different record at a staged seq replaces the first, unless the buffer is full |
| Ledgers.HeadFixesHistory | ael/ael.go:82-104 | two chains with one head id have the same content at every seq, or two records exhibit an id collision |
| Ledgers.DeliverOne | ael/ael.go:248-279 | one delivery of an honest record is refused exactly when it would be the 1025th waiting |
| Ledgers.OrderDoesNotMatter | ael/ael.go:215-297 | after any schedule within the buffer the chain depends only on which records arrived |
| Ledgers.AllDeliveredAllApplied | ael/ael.go:215-297 | once every record arrived, in any order and with repeats, exactly the chain is applied and nothing is staged |
| Ledgers.HeadReportsCompetingRecord | ael/ael.go:378-395 | on a quarantined chain the head is the competing record unless that is itself a fork anchor |
| Ledgers.HeadExactly | ael/ael.go:378-395 | the head of an active chain is the event with the highest seq; of a quarantined one the last that is no fork anchor, when there is one |
| Ledgers.Ledger.HeadOf | ael/ael.go:378-395 | the backward search reports the head the value-level rule names |
| Ledgers.AppendCounts | ael/ael.go:344-374 | one append grows the events by what a batch counts for it and never both stages and applies |
| Ledgers.Ledger.ImportBatch | ael/ael.go:344-364 | applied is the growth of the events over the successful appends; a fork stores two more; without an error the ledger is that of the whole batch |
| Globs.GlobMatch | tsir/predicate.go:319-357 | the two-row dynamic program accepts exactly the strings that split into one fitting piece per token |
| Globs.Advance | tsir/predicate.go:324-355 | one turn of the loop reads one token and carries the reachable positions over it |
| Globs.AcceptsSnoc | tsir/predicate.go:319-357 | a string is accepted with one more token exactly when a prefix is accepted without it and the rest fits it |
| Globs.TokensAreWritten | tsir/predicate.go:325-340 | the tokens read from a pattern spell it, each run of stars in full |
| Globs.TokensAreTheReading | tsir/predicate.go:325-340 | and there is no other such reading |
| Globs.PlainPatternIsItself | tsir/predicate.go:319-357 | a pattern without stars matches itself only |
| Globs.TrailingStarStaysInSegment | tsir/predicate.go:336-346 | dir and a star: dir and then no slash |
| Globs.TrailingDoubleStarCrosses | tsir/predicate.go:325-335 | dir, two stars and slashes: dir and then anything |
| Predicates.Validate | tsir/predicate.go:158-208 | accepts exactly the trees whose every node is well formed and whose height fits the depth bound |
| Predicates.Evaluate | tsir/predicate.go:212-255 | on a validated predicate no nil or missing operand is reached, and the verdict is the order-free meaning |
| Predicates.EvalArtifact | tsir/predicate.go:257-275 | some artifact fits the clause |
| Predicates.EvalTest | tsir/predicate.go:225-231 | the first result for the test has the wanted status |
| Predicates.ComparesExactly | tsir/predicate.go:277-292 | the five comparisons by number, with NaN and the infinities; of two numbers one of <, = and > holds |
| Predicates.MatchResource | tsir/predicate.go:294-308 | glob, prefix without its last slash, or a whole comma-separated field |
| Predicates.SplitHoldsExactlyTheFields | tsir/predicate.go:301-306 | a string is a split part exactly when it is a field between commas |
| Predicates.EvaluateScope | tsir/predicate.go:368-376 | a violation exactly when the forbidden pattern is present |
| Predicates.MoreEffectsNeverClear | tsir/predicate.go:212-255 | for a pattern without NOT, a record that reports more never clears a violation |
| Padding.PadmeExactly | seal/fields.go:218-229 | the least length that holds n with the octave's low bits clear; n itself only within one unit of the largest int |
| Padding.PadmeOverhead | seal/fields.go:218-229 | at least n, and less than an eighth of n above it |
| Padding.PadmeIdempotent | seal/fields.go:218-229 | a padded length pads to itself, near the largest int too |
| Padding.PadmeMonotone | seal/fields.go:218-229 | longer inputs do not get shorter padded lengths |
| Padding.PadmeIsLeastFixedPoint | seal/fields.go:218-229 | n is padded to the least Padmé length that holds it |
| Padding.PadLenFor | seal/fields.go:263-274 | sound, and none exactly for negative and the eight unreachable growths |
| Padding.ReachableExactly | seal/fields.go:257-262 | every other growth is that of exactly one length |
| Wraps.EncodedLen | seal/fields.go:249-255 | the sum in any map order is the length of the canonical encoding |
| Wraps.ApplyPad | seal/fields.go:281-293 | ends; the encoded length is the returned target, the least Padmé length any pad reaches |
| Wraps.EncodeMapInjective | seal/fields.go:34-56 | a map of data items is determined by its canonical encoding |
| Wraps.FieldsInKeyOrder | seal/fields.go:34-56 | the canonical encoding lists the fields in ascending key order |
| Wraps.FirstUnknownCritical | seal/fields.go:61-70 | the least key below 64 that is not known, whatever the map order |
| Wraps.DecodeWrap | seal/envelope.go:956-997 | gives the one Wrap the fields carry, an error exactly when they carry none |
| Wraps.PaddedMap | seal/envelope.go:932-950 | the fields of the Wrap and a zero pad, at a Padmé length; refused exactly when one layer value is missing |
| Wraps.PaddedWrapDecodes | seal/envelope.go:932-997 | a padded Wrap decodes to itself exactly when its layer values have the lengths the decoder asks for |
| Wraps.SigPreimage | seal/fields.go:170-207 | copying the fields and stamping the rest gives the covered map, or the error |
| Wraps.CoveredHolds | seal/fields.go:170-207 | what stands under each key of the preimage, and exactly when there is none |
| Wraps.SignatureBindsEverything | seal/fields.go:170-207 | equal preimages: same outer values, same layering, same fields but the signature, same body or a digest collision |
| CborLaws.StandardIsLawful | seal/fields.go:34-56 | well-formed data items satisfy what those results ask of the CBOR library |
| NullWalks.ReadHeadOf | coredet/null.go:111-143 | a head of any width reads as the type and argument it was written with |
| NullWalks.NullWalk.ReadItemHead | coredet/null.go:111-143 | reads a head or says why not, never past the end |
| NullWalks.NullWalk.WalkItem | coredet/null.go:165-222 | on any bytes it stays inside and ends; on a known item its verdict is that of the tree and acceptance consumes exactly the item |
| NullWalks.NullWalk.WalkContent | coredet/null.go:186-222 | the same for an item that is neither null nor undefined |
| NullWalks.NullWalk.SkipChunks | coredet/null.go:195-213 | the chunks of an indefinite string, to their break |
| NullWalks.NullWalk.WalkArray | coredet/null.go:250-289 | the first refusal among the items in order, definite or not |
| NullWalks.NullWalk.WalkMap | coredet/null.go:291-337 | the same for keys and values |
| NullWalks.NullWalk.WalkPair | coredet/null.go:308-335 | the key's own bytes choose the target of its value |
| NullWalks.AcceptedExactlyWhenClean | coredet/null.go:165-222 | accepted exactly when nested at most 64 deep, without undefined, and without null where a value must be |
| NullWalks.OpaqueTakesEveryNull | coredet/null.go:69-77 | under an untyped target only an undefined is refused |
| NullWalks.CustomTypeIsNotHandedNull | coredet/null.go:186-197 | a type with its own decoder is not handed a null, but anything inside it may hold one |
| NullTypes.PointerTakes | coredet/null.go:156-222 | a pointer takes a null, and otherwise what it points to takes |
| NullTypes.UntypedTakes | coredet/null.go:224-242 | an interface and a raw message take everything without undefined |
| NullTypes.ArrayTaken | coredet/null.go:250-289 | an array is judged item by item for slices, arrays and structs written as arrays; for any other type and past the last field nothing in it may be null |
| NullTypes.MapTaken | coredet/null.go:291-337 | a map is judged by key and value type; for a struct by the field each key finds, and nothing may be null where it finds none |
| NullTypes.UnknownTakesNoNull | coredet/null.go:74-76 | where no type can be named, no null is taken at any depth |
| NullTypes.RefusalPointsAtIt | coredet/null.go:97-109 | the path of a refusal leads to the undefined or the null it reports |
| NullWalks.QuietIsClean | coredet/null.go:54-58 | bytes without 0xf6 and 0xf7 spell nothing to refuse |
| NullWalks.RefuseNulls | coredet/null.go:53-67 | scan and walk together: none exactly for a clean tree, and for nesting up to 64 exactly the tree's first refusal |
| NullWalks.SpellingIsUnique | coredet/null.go:165-222 | bytes spell at most one item, and no item begins another |
| JsonText.ParsedStringIsGood | a2acard/jcs.go:293-329 | a parsed string is valid UTF-8 without noncharacters |
| JsonText.StringRoundTrip | a2acard/jcs.go:293-329 | a printed string is read back, whatever follows it |
| JsonText.EscapedByteReads | a2acard/jcs.go:492-523 | every escape the printer writes reads as the byte it stands for |
| JsonSpelling.StringsExactly | a2acard/jcs.go:293-405 | a string is read exactly as far as, and as, a quoted string is spelled there: any mix of raw characters, short escapes and unit escapes, with paired surrogates |
| JsonSpelling.CanonicalIsShortest | a2acard/jcs.go:492-523 | each character is printed in the only spelling of least length that uses small hex letters |
| JsonSpelling.PrintedIsShortest | a2acard/jcs.go:492-523 | no spelling of a string is shorter than the printed one |
| JsonNumbers.LayoutDenotes | a2acard/jcs.go:533-578 | every layout branch denotes the number it lays out |
| JsonNumbers.PointBySize | a2acard/jcs.go:533-578 | the n that chooses the layout is the power of ten just above the number's size |
| JsonNumbers.ExponentBySize | a2acard/jcs.go:533-578 | numbers of at least 10^21 and below 10^-6 are the ones with an exponent |
| JsonNumbers.LayoutHasEcmaForm | a2acard/jcs.go:533-578 | from the value alone: with an exponent, one nonzero digit before the point and no leading zero; without, a fraction exactly when it is no whole number; never a last fraction digit 0 |
| JsonNumbers.FormatShape | a2acard/jcs.go:533-578 | the same of the text: where a minus, a point and an e stand in it |
| JsonNumbers.TokenReads | a2acard/jcs.go:246-281 | a rendered token is read back part by part |
| JsonSpelling.NumberSpelled | a2acard/jcs.go:246-281 | what is taken for a number is spelled as RFC 8259 says |
| JsonSpelling.SpelledNumberReads | a2acard/jcs.go:246-281 | and every such spelling is taken, as that number |
| JsonNumbers.NumberRoundTrip | a2acard/jcs.go:246-281 | a printed number is read as the same decimal, zero without its sign |
| JsonPrint.UnitsInjective | a2acard/jcs.go:471-486 | names are told apart by their UTF-16 units |
| JsonPrint.SortedIsAscending | a2acard/jcs.go:471-486 | the sorted list holds every name once, ascending |
| JsonPrint.AscendingIsSorted | a2acard/jcs.go:471-486 | it is the only such list |
| JsonPrint.OrderedByFirstDifference | a2acard/jcs.go:471-486 | names are ordered by the first character in which they differ; characters past U+FFFF come before U+E000 to U+FFFF |
| JsonParse.ParsedFits | a2acard/jcs.go:110-243 | what is parsed has good strings, binary64 numbers and at most 128 levels |
| JsonGrammar.JsonExactly | a2acard/jcs.go:81-405 | the parser accepts exactly the texts of RFC 8259 with good strings, numbers in range, different names and at most 128 levels, and gives each its value |
| JsonGrammar.CanonicalForm | a2acard/jcs.go:415-466 | the canonical form is the text of a tree with that value, without white space, its names ascending and each leaf in its one spelling |
| JsonParse.PrintReads | a2acard/jcs.go:110-243 | a printed value is read back at any depth, whatever follows, as long as it cannot continue a number |
| JsonParse.PrintedFormParsesBack | a2acard/jcs.go:29-93 | every tree the parser can produce comes back from its canonical form |
| JsonParse.CanonicalizeIsIdempotent | a2acard/jcs.go:29-39 | the canonical form is its own canonical form |
| JsonParse.SameBytesExactlyWhenSameTree | a2acard/jcs.go:29-39 | two accepted inputs share canonical bytes exactly when their trees are equal, zero having one sign |
| Json.StandardIsLawful | a2acard/jcs.go:246-578 | the real escapes, number grammar and layout satisfy what those results ask |
| JsonReader.Parser.SkipWS | a2acard/jcs.go:99-108 | the cursor stops at the first byte that is not white space |
| JsonReader.Parser.ScanString | a2acard/jcs.go:293-329 | the character loop gives the specified string, or an error exactly when there is none |
| JsonReader.Parser.ScanEscape | a2acard/jcs.go:332-383 | the same for one escape |
| JsonReader.Parser.ScanHex4 | a2acard/jcs.go:385-405 | four hex digits, the cursor moving only past good ones |
| JsonReader.Parser.ScanNumber | a2acard/jcs.go:246-281 | the same for a number |
| JsonReader.Parser.ParseValue | a2acard/jcs.go:110-136 | the same for a value; on success the depth is what it was |
| JsonReader.Parser.ParseItems | a2acard/jcs.go:220-242 | the loop over items and commas |
| JsonReader.Parser.ParseMembers | a2acard/jcs.go:166-206 | the loop over members: a repeated name is an error as soon as it is read |
| JsonReader.ParseBytes | a2acard/jcs.go:81-93 | one value, with nothing but white space around it |
| JsonWriter.Writer.WriteString | a2acard/jcs.go:492-523 | appends the printed string |
| JsonWriter.Writer.SortedNames | a2acard/jcs.go:471-486 | the names in UTF-16 order |
| JsonWriter.Writer.WriteCanonical | a2acard/jcs.go:415-466 | appends the canonical form of the value without the skipped top-level member |
| JsonWriter.SkippingPrints | a2acard/jcs.go:440-462 | skipping a name while printing is printing the object without it |
| JsonWriter.CanonicalBytes | a2acard/jcs.go:29-39 | the cursor and the buffer together compute the canonical form |
| Publishing.StripDefaultsIsIdempotent | a2acard/publish.go:45-67 | stripping twice is stripping once; it changes exactly the values that hold something to strip, for every schema |
| Publishing.AddingADefaultChangesNothing | a2acard/publish.go:45-67 | a field without presence at its default, or null where allowed, leaves no trace |
| Publishing.StripIsCongruent | a2acard/publish.go:69-94 | members that strip alike can stand for each other at any depth |
| Publishing.StripIsStripped | a2acard/publish.go:45-94 | nothing that would not be emitted is left in any schema message |
| Publishing.PublishFormHasOnePayload | a2acard/publish.go:242-364 | on a card in publish form stripped and raw payload are the same |
| Publishing.EmptyNameIsNotChecked | a2acard/publish.go:264-267 | a nested message may hold anything under the empty name, even alone when it asks for no member; then it does not hold fields only |
| Publishing.FieldsOnlyExactlyWhen | a2acard/publish.go:134-138 | a card that passes holds fields only, at every depth, exactly when no schema message in it has a member with the empty name |
| Publishing.Strip | a2acard/publish.go:45-67 | the loop that fills a fresh object gives the stripped message |
| Publishing.StripOne | a2acard/publish.go:69-94 | the same inside a field |
| Publishing.CheckMessage | a2acard/publish.go:242-290 | the loops with early return accept exactly the messages in publish form |
| Publishing.CheckField | a2acard/publish.go:292-364 | the same for one field |
| Publishing.CheckStruct | a2acard/publish.go:380-408 | the same for free-form JSON |
| UriText.DecodeLoop | agenturi/agenturi.go:123-171 | the byte loop of both decoders gives the decoded bytes, or the first bad escape or character |
| UriText.Fold | agenturi/agenturi.go:230-250 | the mapping loop between two normalizations gives the folded label |
| UriText.AsciiFoldsToSmallLetters | agenturi/agenturi.go:230-250 | an ASCII label folds to itself with each capital replaced by its small letter |
| UriText.AsciiNamesAgreeUpToCase | agenturi/agenturi.go:230-250 | two ASCII labels fold alike exactly when they differ in letter case only |
| UriText.PlainLabelsParseAlike | agenturi/agenturi.go:230-291 | two accepted labels of unreserved ASCII parse to one name exactly when they differ in letter case only |
| UriText.FoldIdentifies | agenturi/agenturi.go:230-250 | sharp s is one name with ss, final sigma with sigma, a joiner with nothing and a capital with its small letter, wherever they stand in a normalized label |
| UriText.FoldKeepsTheRest | agenturi/agenturi.go:230-250 | a normalized label without any of these folds to itself |
| UriText.Encode | agenturi/agenturi.go:472-484 | the encoding loop |
| UriText.EncodedCharacter | agenturi/agenturi.go:472-484 | an unreserved or ucschar character stands for itself, and of any other each byte is a percent sign and two capital hex digits |
| UriText.LiteralsAre | agenturi/agenturi.go:71-107 | the unreserved characters and the table of ucschar ranges, by number |
| UriText.AcceptedExactlyWhenSpelled | agenturi/agenturi.go:123-218 | both decoders read exactly the text written with escapes, unreserved ASCII and ucschar characters |
| UriText.StarsAreRefused | agenturi/agenturi.go:173-199 | of the text that would be fine with literal stars, a query accepts exactly what has none |
| UriText.OneStar | agenturi/agenturi.go:195-199 | the input: a leading star is an illegal character in a query and a wildcard in a label |
| UriText.OneAlphabet | agenturi/agenturi.go:123-218 | labels and queries accept and read the same text; only a star is refused for different reasons |
| UriText.TextRoundTrip | agenturi/agenturi.go:123-218 | decoding undoes encoding for every text |
| UriText.LabelRoundTrip | agenturi/agenturi.go:230-291 | a folded label is read back as it is: folding it again changes nothing |
| UriText.ParsedLabelIsCanonical | agenturi/agenturi.go:230-291 | every parsed label is folded, normal and not refused |
| AgentUris.SegmentLoop | agenturi/agenturi.go:362-394 | the marker loop fills the positions in ascending order |
| AgentUris.PairLoop | agenturi/agenturi.go:443-468 | the query loop gives the pairs, or the first bad one |
| AgentUris.ParseUri | agenturi/agenturi.go:313-417 | scheme, fragment, path and query in the order of the checks |
| UriGrammar.ParsesExactlyUris | agenturi/agenturi.go:313-468 | the parser accepts exactly the texts of the grammar, in any case of scheme and markers, and gives each its value |
| UriGrammar.FragmentsAreNamed | agenturi/agenturi.go:318-330 | a fragment is reported as such before anything behind the scheme is looked at |
| UriGrammar.EqualFoldExactly | agenturi/agenturi.go:303-311 | scheme and markers match letter by letter, whatever the case |
| AgentUris.ParsedIsCanonical | agenturi/agenturi.go:313-417 | every label and pair of a parsed URI is canonical |
| AgentUris.SortEncoded | agenturi/agenturi.go:506-516 | sorting encoded pairs is encoding sorted pairs |
| UriGrammar.CanonicalQueryAscends | agenturi/agenturi.go:506-516 | the canonical query holds the same pairs, none after the next in byte order |
| AgentUris.SerializeUri | agenturi/agenturi.go:487-518 | the builder emits the serialized form |
| AgentUris.ParseOfSerialize | agenturi/agenturi.go:487-518 | parsing what was serialized gives the value back, its query sorted |
| AgentUris.CanonicalIsFixedPoint | agenturi/agenturi.go:521-527 | the canonical form of an accepted URI is accepted and is its own canonical form |
| AgentUris.EqualExactlyWhenSameParts | agenturi/agenturi.go:530-540 | equal exactly when the labels are the same and the queries are the same pairs in some order |
| Utf8.EncodeAllOfDecode | a2acard/jcs.go:293-329 | decoded UTF-8 encodes back to the same bytes |
| Utf8.DecodeOfEncodeAll | agenturi/agenturi.go:123-171 | encoded scalar values decode back |
| Utf8.FirstExactlyWhen | a2acard/jcs.go:293-329 | the bytes taken as a character are those of Unicode's table of well-formed sequences |
| Utf8.OrderIsPreserved | agenturi/agenturi.go:472-484 | encoded characters compare bytewise as their numbers do, which only this encoding does |

## Left out

- IdFile.RestoreExport: asks that the log in the file is in its canonical encoding; the decoder also takes others.
- Ed25519, SHA-256, HPKE, AEAD, argon2 and the random source: functions and byte sequences that are parameters.
- The CBOR library and Go reflection: codecs are parameters; what a map key finds in a struct is an abstract function.
- Unicode tables: NFC and the refused-label check are parameters; letter case is folded for ASCII as the code does it.
- `strconv`: decimal to binary64 and back is a parameter. A binary64 value is named by its shortest decimal, so NaN and
  the infinities, which the JSON parser never yields, have no name and the error branch for them is not there.
- Error texts, and which of two errors in one JSON text is reported: all carry one code.
- CBOR tags: the strict decoder forbids them, so `NullWalks.Item` has none; the walk over other bytes is only shown to
  stay inside them and to end.
- Reading a Wrap or a signature preimage from bytes: a map is taken exactly when its canonical encoding is the input;
  how the library finds it is not modelled.
- Places where Go updates a caller's map (`applyPad`): the model returns the new map.
- Widths of sequence numbers and times in key event logs and ledgers: naturals. A wrap needs 2^64 events.
- Integer overflow of total encoded lengths: lengths are naturals, and `ApplyPad` asks for at most 2^62 bytes.
- Locks: every method is one step. `ReplayCache.ReplayThrough` is the hit path and the miss path in sequence, without
  another goroutine between them.
- compactStates' copies: outcomes are values, so only the size estimate is modelled, with the keys of every state counted
  (two events that were handed one slice of keys share a copy); its case of no states cannot arise, as replay refuses the
  empty log.
- Dirbox, evidence, payment, delegation, recovery, relayauth, regpow, dack, Seal and Open as a whole, wire, and the hex
  and base64 codecs: linear checks over library calls, or tooling.
- The concrete card schema and the checks of checkPublishForm around publishMessage (case-distinct names, signature
  entries, extendedAgentCard): results are for an arbitrary schema, and those checks only refuse more cards.
- ValidateCapabilityQuery, RequireConcreteLocator and Equals in agenturi: one test after Canonical.
- Sorting: sort.Strings and slices.SortFunc are stood for by an insertion and a selection of the least.
- Float comparison in threshold clauses is over the reals with NaN and the infinities; negative zero equals zero.
