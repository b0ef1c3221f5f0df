# nostr-dag: verified model

A Dafny model of the consensus engine of nostr-dag and of the protocols built on it, with proofs
that hold for every input and every run. `dafny verify dfyconfig.toml` checks the whole project.

## What is modelled

- **The DAG engine** (`Events`, `Graph`, `DagState`, `DagRuns`, `Dag`). `DagEngine.Dag` is an object
  with the eight maps and sets of the source, updated in place by the same worklist loops: buffering of
  events with absent parents, unblocking, marking of ancestors with early stopping, and the depth cache.
  Its invariant `DagState.Consistent` says what each field holds in terms of the stored and buffered
  events. Hash-set iteration is an arbitrary choice. Cycles and self-references are allowed: such events
  stay buffered. The one assumption, made where runs are compared and where a newly built ack meets what
  was received before, is that an id names one event.
  `DagRuns` states each operation as a step on the value of the object and proves what holds over
  whole runs; `DagEngine.Replay` ties runs of the object to runs of the steps, as `Quorum.Replay` and
  `LoggerFooter.Replay` do for theirs.
- **Acknowledgments** (`Acking`): the decision part of `maybe_ack` and `PeerRuntime`.
- **Blob quorums** (`Quorum`, `PipContent`): the attestation, seal and join state machine over a DAG
  object, with the hand-made content scanner and the printers it must invert.
- **Range-based reconciliation** (`Rbsr`): fingerprints, bisection, reports and cost.
- **Packet trees** (`Packets`) and **transfer chains** (`TransferChain`): splitting with parity,
  numbering, reconstruction in any order, recovery, and what becomes of the chained events in a DAG.
- **Clone URLs** (`Nip34`): percent encoding after sections 2.1 and 2.3 of RFC 3986, UTF-8 after
  section 4 of RFC 3629, parsing, printing and conversion.
- **The log queue** (`LoggerState`, `LoggerFooter`): the bounded priority queue, rate limiting,
  coalescing, flushing and retention.

`Ordering` holds sorted listings and the stable sort, `Prelude` optional values and powers of two.

## Where the code and its documentation differ

The model follows the code.

- `src/dag.rs:281-284` says events may become canonical when a participant is added. The bar never
  falls, so none does; `AddParticipantNeverGrants` also says exactly which events lose the status.
- `src/quorum.rs:331` comments that five members need five attestations. Four seal
  (`FirstSealAtFourFifths`).
- `src/p2p.rs:530-531` says the plain encoder does not chain slices. It delegates to the chained one, and
  every slice references its predecessor (`EncodeChained`).
- `src/rbsr.rs:3-6` presents the pass as computing the differences of two sets. What only the local side
  has is always listed in full. What only the remote side has, and what the sides hold different
  versions of, is listed in full exactly when no compared range is a collision, one whose fingerprints
  agree although the sides differ in it (`ExactWithoutCollisions`). Fingerprints do not cover keys: when
  the sides differ only in one item that is filed under another key, neither the remote copy nor a
  mismatch is reported; only the local key appears, under `remote_missing` (`MovedItemIsSkipped`). Next
  to other differences the remote copy may be reported too (`MovedItemMayShow`).

## Model

| member | source | states |
|---|---|---|
| DagEngine.Dag.constructor | src/dag.rs:33-51 | a new engine is consistent and empty |
| DagEngine.Dag.Insert | src/dag.rs:58-103 | keeps the invariant, receives the event unless its id is known, and reports duplicate, inserted, or buffered with exactly the absent parents in tag order; a duplicate changes nothing, a buffered event leaves the stored events alone |
| DagEngine.AbsentInOrder | src/dag.rs:68-72 | what is reported missing is every absent parent, in tag order and as often as it is named |
| DagEngine.Dag.InsertReady | src/dag.rs:105-133 | storing an event whose parents are stored keeps children, depths and seen_by exact |
| DagEngine.Dag.ProcessUnblocked | src/dag.rs:135-167 | the unblocking loop terminates, loses nothing received, and ends with nothing ready left in the buffer, whatever the pop order |
| DagEngine.Dag.TakeWaiting | src/dag.rs:136-141 | removes one waiting row and returns its ids in some order |
| DagEngine.Dag.MarkSeenByAncestors | src/dag.rs:169-180 | despite early stopping, marks exactly the event and all its ancestors and creates no entry |
| DagEngine.Dag.AddParticipant | src/dag.rs:281-297 | adds the key, recomputes the threshold, changes nothing else |
| DagEngine.Dag.ListTips | src/dag.rs:215-221 | lists each stored event without stored children once |
| DagEngine.Dag.CanonicalEvents | src/dag.rs:207-213 | lists each canonical event once |
| DagEngine.Dag.CanonicalOrder | src/dag.rs:223-238 | the canonical events, those of smaller depth first and of equal depth those with the smaller id |
| DagEngine.Replay | src/dag.rs:58-103 | an engine handling any operations passes through a run of the step relation |
| DagEngine.MarkEnds | src/dag.rs:169-180 | when the stack is empty the marks are the old ones plus all ancestors of the start |
| DagEngine.BufferAfterStoring | src/dag.rs:135-167 | after an event is stored, the waiting lists without its row are exact and only that row can have become ready |
| DagEngine.SeenAfterMarking | src/dag.rs:128-129 | marking a participant's event makes seen_by exact for it and every ancestor |
| DagState.StoredIsLeast | src/dag.rs:58-103 | the stored ids are the least set closed under "received, with all parents in the set" |
| DagState.MissingParentsExact | src/dag.rs:276-279 | the ids asked for are exactly the absent parents of buffered events |
| DagState.ReceivedAndReadyIsStored | src/dag.rs:135-167 | a received event whose parents are all stored is stored |
| DagState.StateDetermined | src/dag.rs:58-189 | two consistent engines that received the same events agree on every field |
| DagState.SeenByExact | src/dag.rs:128-180 | with fixed membership, seen_by holds exactly the participants that wrote the event or a stored descendant |
| DagState.SeenGrowsTowardsAncestors | src/dag.rs:169-180 | whoever has seen an event has seen all its ancestors, also when members join during the run |
| DagState.SeenByWithinParticipants | src/dag.rs:128-132 | seen_by stays within the participants |
| DagState.CanonicalMeansFourFifths | src/dag.rs:197-205 | canonical iff at least 4/5 of the participants have seen the event; never without participants |
| DagState.ThresholdIsBelowFourFifths | src/dag.rs:53-56 | the threshold is the largest count short of 4n/5, and 0 without participants |
| DagState.CanonicalEventsOverlap | src/dag.rs:53-56 | two canonical events share at least 2*ceil(4n/5) - n, so 3n/5, participants |
| DagState.AncestorsAreCanonical | src/dag.rs:197-205 | ancestors of canonical events are canonical |
| DagState.CanonicalOrderUnique | src/dag.rs:223-238 | a state has one canonical order |
| DagState.CanonicalOrderPositions | src/dag.rs:232-235 | of two listed events the earlier has the smaller depth, or the same depth and the smaller id |
| DagState.CanonicalOrderIsLinearExtension | src/dag.rs:223-238 | every ancestor of a listed event is listed, earlier, and no event is listed twice |
| DagState.TipIffNoChild | src/dag.rs:215-221 | tips are the stored events no stored event has as a parent |
| Graph.DepthIsLongestChain | src/dag.rs:182-189 | a cached depth is the length of the longest parent path |
| Graph.ProperAncestorIsShallower | src/dag.rs:182-189 | proper ancestors have smaller depth |
| Graph.DepthsUnique | src/dag.rs:182-189 | the stored events determine the depth cache |
| Graph.DepthBelowCount | src/dag.rs:182-189 | a depth is less than the number of stored events, so `d + 1` stays in range |
| DagRuns.OrderIndependence | src/dag.rs:58-189 | runs that insert the same events in any order, with any repetitions, end in the same state |
| DagRuns.StructureIndependence | src/dag.rs:58-189 | runs that insert the same events agree on stored and buffered events, waiting lists, children, depths and tips, whatever the initial members and whoever joins in between |
| DagRuns.CanonicalOrderIndependent | src/dag.rs:223-238 | such runs list the same canonical order |
| DagRuns.CanonicalOrderStays | src/dag.rs:223-238 | the canonical order of an engine that is behind is that of one ahead of it, restricted to what the former holds canonical |
| DagRuns.CanonicalOrderOnlyGrows | src/dag.rs:58-238 | so with a fixed membership, a run that inserted more events lists the canonical order of one that inserted fewer, with further events in between |
| DagRuns.DepthStays | src/dag.rs:182-189 | storing more events never changes a depth |
| DagRuns.InsertDetermined | src/dag.rs:58-103 | an insertion has one outcome |
| DagRuns.StoredGrows | src/dag.rs:58-103 | receiving more never unstores an event |
| DagRuns.InsertKeepsCanonical | src/dag.rs:58-103 | an insertion only adds to seen_by and never revokes canonical status |
| DagRuns.AddParticipantNeverGrants | src/dag.rs:281-297 | a new member makes nothing canonical, and takes the status away exactly from events just at a bar that rises |
| DagRuns.RunOnlyGrows | src/dag.rs:58-297 | over runs with members joining, stored stays stored, seen stays seen, and canonical stays canonical while the membership stands |
| Events.AckParents | src/event.rs:56-66 | an ack references the ids it was built from, in order, and has no other tag, no content, and kind 21000 |
| Acking.TipsCover | src/dag.rs:215-221 | every stored event is a tip or an ancestor of one |
| Acking.SeenTipsMeanSeenAll | src/native_cli.rs:199-215 | a key that has seen all tips has seen everything |
| Acking.MaybeAck | src/native_cli.rs:187-223 | an ack is built exactly when this node is a participant and some stored event is unseen by it; it references all tips and inserts as new |
| Acking.AckIsFresh | src/p2p_node.rs:1306-1316 | an ack over nonempty tips was never received before and is inserted at once |
| Acking.AckCovers | src/p2p_node.rs:1306-1316 | once inserted, then or later, a participant's ack marks everything stored when it was built |
| Acking.AckRoundMakesCanonical | src/dag.rs:197-205 | acks over the same tips by more than `threshold` participants make everything under those tips canonical |
| Acking.SoleParticipantDecides | src/p2p_node.rs:1262-1265 | for a node that is its own only participant, seen means canonical |
| Acking.ProtocolKindsAreNotAcked | src/p2p_node.rs:1537-1544 | exactly the six protocol kinds get no ack; in particular acks are never acked |
| Acking.PeerRuntime.constructor | src/p2p_node.rs:1252-1260 | an empty engine over the given participants |
| Acking.PeerRuntime.WithSelfParticipation | src/p2p_node.rs:1262-1265 | an empty engine whose only participant is the node |
| Acking.PeerRuntime.ProcessInboundMessage | src/p2p_node.rs:1287-1325 | the message is inserted; an ack goes out exactly for ack-worthy kinds over a nonempty DAG, is inserted as new, marks all that was stored, and decides it when the node is alone; both counts are right |
| Quorum.BlobQuorum.constructor | src/quorum.rs:92-106 | an unsealed quorum without attestations |
| Quorum.BlobQuorum.Threshold | src/quorum.rs:291-297 | the recomputed threshold equals the one cached in the DAG |
| Quorum.BlobQuorum.Attest | src/quorum.rs:113-195 | rejects without effect exactly what is not attestable, naming a check that fails; otherwise records the attestation and seals over all recorded ones, under the given key, exactly above the threshold; a failed signature leaves the seal |
| Quorum.BlobQuorum.AddMember | src/quorum.rs:201-268 | admits exactly joins of kind 39082 that name the blob and the current seal from a key that is not a member, and otherwise names a check that fails |
| Quorum.SealIsOver | src/event.rs:108-141 | a seal references the attestations it is built from, after the three topics, and its content lists their hexadecimal ids in quotes, with commas between |
| Quorum.AttestEventShape | src/event.rs:75-100 | the attestation event, written out: kind, topics, references to manifest and slices, content |
| Quorum.JoinEventShape | src/event.rs:149-170 | the join event, written out |
| Quorum.HonestAttestation | src/event.rs:75-100 | the event printed by an attester is recorded iff the attester is a member that has not attested and neither root id nor digest has a quote in it |
| Quorum.HonestJoin | src/event.rs:149-170 | the printed join is accepted iff it references the current seal, its author is new, and neither root id nor digest has a quote in it |
| Quorum.TypesAreSeparate | src/quorum.rs:132-155 | attestations, seals and joins never pass for one another, whatever is printed into them |
| Quorum.Replay | src/quorum.rs:113-268 | a quorum handling any attestations and joins passes through a run of the step relation |
| Quorum.StepKeepsInvariant | src/quorum.rs:113-268 | attesters are members, members change only once sealed, a seal stays, a new seal covers the attestations recorded so far |
| Quorum.FirstSealAtFourFifths | src/quorum.rs:163-191 | the first seal comes at exactly ceil(4n/5) attestations by initial members |
| Quorum.RunAccumulates | src/quorum.rs:113-268 | over runs, sealed stays sealed, attestations and members only accumulate, and members are the initial ones until sealed |
| Quorum.SealListsItsMoment | src/quorum.rs:176-188 | whatever seal is held lists exactly the attestations recorded when it was made |
| Quorum.SealedIffEnoughVoters | src/quorum.rs:113-191 | a run ends sealed iff ceil(4n/5) of its n initial members, and at least one, handed in an attestation of the blob, in any order and whatever else happened |
| PipContent.FieldIsSegment | src/quorum.rs:57-62 | on any text the scanner finds the value after the first segment pair `key`, `:` between quotes |
| PipContent.ScanAttest | src/event.rs:83-88 | scanning printed attest content returns the type, root id and digest written, and no seal id, iff root id and digest are quote-free |
| PipContent.ScanJoin | src/event.rs:156-161 | scanning printed join content returns all four fields iff root id and digest are quote-free |
| PipContent.ScanSeal | src/event.rs:119-129 | scanning printed seal content, with any list of ids, returns the three fields and no seal id iff root id and digest are quote-free |
| PipContent.PrintedTypeIsRead | src/quorum.rs:57-64 | the type is read back whatever follows it, quotes included |
| PipContent.ParsedIsQuoteFree | src/quorum.rs:57-62 | accepted fields have no quote in them |
| PipContent.AttestText | src/event.rs:83-88 | attest content, written out |
| PipContent.JoinText | src/event.rs:156-161 | join content, written out |
| PipContent.SealText | src/event.rs:119-129 | seal content, written out around the list of ids |
| PipContent.IdListReadsBack | src/event.rs:119-123 | id i of the printed list stands in quotes at place 67i, with a comma between any two |
| PipContent.ToHexDigits | src/event.rs:87 | an id prints as its 64 lower-case hexadecimal digits, the highest first |
| PipContent.ToHexInjective | src/quorum.rs:237-249 | different 32-byte ids have different hexadecimal forms |
| Rbsr.Compute | src/rbsr.rs:46-59 | counts the items in range; a bit of the checksum is set iff an odd number of them have it set |
| Rbsr.FingerprintMeans | src/rbsr.rs:46-59 | the same of the fingerprint that the comparisons use |
| Rbsr.DiscoversUnpruned | src/rbsr.rs:133-166 | a pass returns, ascending by key, exactly the remote items outside ranges skipped for equal fingerprints |
| Rbsr.DiffAndReconcile | src/rbsr.rs:91-125 | the three reports are ascending listings of exactly the unskipped remote-only keys, the unskipped mismatches, and all local-only keys |
| Rbsr.Classify | src/rbsr.rs:98-110 | splits discovered items into missing and mismatched keys |
| Rbsr.KeysMissingFrom | src/rbsr.rs:112-117 | lists exactly the local-only keys |
| Rbsr.SkippedIffCollision | src/rbsr.rs:143-146 | a difference is skipped, and so left out of the report if the remote side holds it, iff it lies in a compared range whose fingerprints agree |
| Rbsr.ExactWithoutCollisions | src/rbsr.rs:91-166 | the remote-only keys and the mismatches are all reported iff no compared range is a collision |
| Rbsr.CollisionHidesRemoteKey | src/rbsr.rs:46-59 | a range over which the sides collide holds a difference on the remote side, since equal counts rule out purely local ones |
| Rbsr.MovedItemIsSkipped | src/rbsr.rs:46-59 | for any maps that differ only in one item filed under two keys, every key is skipped at every threshold, and all that is reported is the local key |
| Rbsr.MovedItemMayShow | src/rbsr.rs:148-158 | a concrete pair of maps where a moved item collides over a range that is not compared, and is reported |
| Rbsr.LoneDifferenceIsReported | src/rbsr.rs:91-166 | a single difference between the sides is always reported, at every threshold |
| Rbsr.SameContentSameFingerprint | src/rbsr.rs:46-59 | ranges without differences have equal fingerprints |
| Rbsr.StepsBounded | src/rbsr.rs:133-166 | with d differences in at most 2^h keys, at most 1 + 2hd ranges are compared |
| Rbsr.StepsCountRanges | src/rbsr.rs:133-166 | the reported round trips are the number of distinct compared ranges |
| Rbsr.OneComparison | src/rbsr.rs:133-149 | a range takes a single comparison iff it is one key, looks the same from both sides, or holds at most `threshold` items on either side |
| Rbsr.ItemsBounded | src/rbsr.rs:148-158 | at most max(threshold, 1) items are returned per difference |
| Rbsr.PassBounded | src/rbsr.rs:95-96 | both bounds for a full pass over 64-bit keys |
| Packets.CalculateParity | src/p2p.rs:378-387 | each byte is the exclusive or of the two operands, the shorter one padded with zeros |
| Packets.ParityGivesHalves | src/p2p.rs:378-387 | the parity of two halves and either half give back the other |
| Packets.RecursivePacketize | src/p2p.rs:389-436 | produces the packet tree, advances the sequence number by the slice count and records the largest dot count |
| Packets.PacketizePayload | src/p2p.rs:445-465 | guards the threshold and writes the slice count into every header |
| Packets.TreeNumbering | src/p2p.rs:399-434 | slice i carries sequence number first + i and the total |
| Packets.TreeIdsDistinct | src/p2p.rs:417-426 | slice ids are pairwise distinct |
| Packets.ParityComesLast | src/p2p.rs:417-434 | the parity slice of a node comes after all slices below the node |
| Packets.TreeHoldsData | src/p2p.rs:389-436 | the data slices in order hold the payload |
| Packets.TreeShape | src/p2p.rs:389-436 | L data slices make 2L - 1 slices |
| Packets.LeavesFit | src/p2p.rs:396-409 | no data slice exceeds the threshold |
| Packets.SlicesHalfFull | src/p2p.rs:412-414 | L * floor((t+1)/2) <= length once the payload is at least that long |
| Packets.LevelsIsLeast | src/p2p.rs:396-414 | the number of levels is the least d with length <= t * 2^d |
| Packets.LeafDotsAreLevels | src/p2p.rs:407-408 | the recorded depth is the dots of the root id plus the number of levels |
| Packets.DotsCount | src/p2p.rs:407 | the dots of an id are counted one by one |
| Packets.PacketsShape | src/p2p.rs:445-465 | of a packetized payload with L data slices, slice i carries number i, total 2L - 1 and an id at or under the root id, and data slices are bounded in size and number |
| Packets.RootIsFirstSegment | src/p2p.rs:705-715 | the root of an id is its text before the first dot, or all of it |
| Packets.SortedInSequence | src/p2p.rs:729-730 | filtering and sorting lists the data slices by number, those with the same number in order of arrival |
| Ordering.StableSort | src/p2p.rs:730 | the sort keeps equal elements in their order |
| Packets.ReconstructPayload | src/p2p.rs:700-733 | joins the data slices by number, those with the same number in order of arrival, iff all have the root and total of the first slice, and otherwise says which differs in the first that does not |
| Packets.ReceivedRebuilds | src/p2p.rs:389-465 | for any permutation of the data slices with any parity slices, the slices fit and join to the payload |
| Packets.RoundTrip | src/p2p.rs:700-733 | reconstruction of such slices returns the payload, for every root id, payload and threshold |
| Packets.EveryParityRecovers | src/p2p.rs:412-436 | every parity slice sits at an internal node X and recovers either half reassembled under X.0 and X.1 |
| TransferChain.StampKeepsParents | src/bridge_roundtrip.rs:5-13 | stamping a round-trip time leaves the parents alone |
| TransferChain.LastStampStays | src/bridge_roundtrip.rs:5-13 | a stamped event carries one round-trip time, the last, at the end, and all its other tags; an unstamped one keeps its tags |
| TransferChain.EncodeChained | src/p2p.rs:550-632 | the manifest and slice events, written out: kinds, topics, parent, stamp, packets in order, size, count and depth; they are linked in a chain and signed as built |
| TransferChain.ChainSettles | src/p2p.rs:586-631 | inserted in any order, and whoever joins in between, a chain with distinct ids leaves nothing pending, has depths 0, 1, 2, ..., and the last event as only tip |
| Nip34.PercentEncodeLoop | src/nip34.rs:194-210 | the push loop computes the encoding |
| Nip34.PercentDecodeLoop | src/nip34.rs:164-183 | the index loop computes the decoding, with the same errors |
| Nip34.ValidUtf8Exactly | src/nip34.rs:182 | the validity check accepts exactly the encodings of sequences of Unicode scalar values |
| Nip34.DecodedExactly | src/nip34.rs:164-192 | decoding gives a value iff the text spells it: each byte as itself, or as `%` and its two digits in either case |
| Nip34.DecodableExactly | src/nip34.rs:168-176 | decoding fails iff some `%` is not followed by two hexadecimal digits |
| Nip34.CaseDoesNotMatter | src/nip34.rs:185-192 | encoded text decodes to the same value with its escapes in either case |
| Nip34.DecodeInvertsEncode | src/nip34.rs:164-210 | decoding inverts encoding on every byte string |
| Nip34.PercentRoundTrip | src/nip34.rs:164-210 | and on every UTF-8 string as text |
| Nip34.EncodedCharacters | src/nip34.rs:196-208 | encoded text has only unreserved characters and `%` |
| Nip34.EncodedEscapes | src/nip34.rs:201-206 | each `%` in encoded text is followed by two upper-case hexadecimal digits |
| Nip34.UnreservedStays | src/nip34.rs:196-208 | encoding changes nothing iff every byte is unreserved, and never shortens |
| Nip34.UnreservedListed | src/nip34.rs:198 | the characters that are not escaped, listed |
| Nip34.FormatThenParse | src/nip34.rs:85-162 | parsing a printed well-formed remote gives it back |
| Nip34.ParsedIsWellFormed | src/nip34.rs:85-133 | parsing yields only well-formed remotes |
| Nip34.AcceptedExactly | src/nip34.rs:85-133 | a URL is accepted iff it is the scheme and one to three nonempty segments free of delimiters with slashes between, those after the first decodable |
| Nip34.ParsedExactly | src/nip34.rs:85-133 | every outcome of parsing, with the error in each case, read off the segments between the slashes |
| Nip34.OtherSchemesRejected | src/nip34.rs:86-88 | the scheme is reported as wrong iff it does not start the input |
| Nip34.WrittenForm | src/nip34.rs:145-162 | how the two kinds of remote are written: owner, hint and identifier in that order |
| Nip34.SchemesKept | src/nip34.rs:53-66 | which scheme each conversion reads and which it writes |
| Nip34.RoundTripsExactlyWellFormed | src/nip34.rs:85-162 | a remote survives printing and parsing iff it is well formed |
| Nip34.ConversionsCompose | src/nip34.rs:53-66 | converting via a scheme is converting directly, errors included |
| Nip34.NormalizeIsIdempotent | src/nip34.rs:135-138 | normalizing twice is normalizing once, for both schemes |
| Nip34.ThereAndBackNormalizes | src/nip34.rs:58-66 | nostr to p2p and back is normalization, and the other way round |
| LoggerState.EvictAccounts | demo/shared/logger-footer.js:820-840 | an eviction drops one queued record, or else the incoming one, which is then trace or debug |
| LoggerState.PriorityOrder | demo/shared/logger-footer.js:26-33 | trace, debug, info, warn and error are in ascending order of priority |
| LoggerState.EvictedRecord | demo/shared/logger-footer.js:820-840 | which record an eviction takes, and at which level it is counted |
| LoggerState.MakeRoomEvictsOnce | demo/shared/logger-footer.js:861-868 | a call evicts at most once, and does so iff the level has reached its cap or the queue its capacity |
| LoggerState.AppendedRecord | demo/shared/logger-footer.js:870-888 | which record is merged into the last one, how, and what is queued otherwise |
| LoggerState.LevelCapIsShare | demo/shared/logger-footer.js:245-254 | the caps in whole numbers |
| LoggerState.LevelQuotaIsShare | demo/shared/logger-footer.js:234-243 | the quotas in whole numbers |
| LoggerState.QuotasFit | demo/shared/logger-footer.js:234-243 | from twenty entries on, the quotas of the five levels fit into the limit together |
| LoggerState.EnqueueAccounts | demo/shared/logger-footer.js:858-890 | one call accounts for one more record, keeps the queue within capacity, and never turns away info, warn or error |
| LoggerState.EnqueueAddsUp | demo/shared/logger-footer.js:806-811 | a drop is counted once overall and once for its level, so the level counters sum up to the total |
| LoggerState.BurstIsLimited | demo/shared/logger-footer.js:842-856 | among records of any keys, those of one key are held back within its window exactly from the one beyond the limit; other keys do not matter |
| LoggerState.FreshWindowIsLimited | demo/shared/logger-footer.js:842-856 | the same from the record on that opens the window, which itself always passes |
| LoggerState.LimitedIsCounted | demo/shared/logger-footer.js:842-856 | what is held back is counted as rate-limited and as dropped at its level; info, warn and error records are never held back |
| LoggerState.TrimKeepsNewest | demo/shared/logger-footer.js:631-658 | trimming a level keeps its newest entries, as many as the quota allows, and the other levels |
| LoggerState.AppendLogRetains | demo/shared/logger-footer.js:641-658 | accepting an entry keeps every level a suffix of its flushed entries within quota, ending with the entry |
| LoggerState.AppendLogKeeps | demo/shared/logger-footer.js:641-658 | accepting an entry drops only the oldest one for the limit and the oldest of its level beyond its quota |
| LoggerState.FlushKeepsHealthy | demo/shared/logger-footer.js:956-990 | a flush moves the oldest records and keeps conservation and retention |
| LoggerState.FlushedEntries | demo/shared/logger-footer.js:617-629 | flushed entries carry label, text, level and repeats of the oldest records, in order |
| LoggerState.RunConserves | demo/shared/logger-footer.js:858-990 | over any run, calls = queued + flushed + coalesced + dropped, within capacity, with retention, and the drop counters of the levels sum up to the total |
| LoggerState.PeakIsGreatest | demo/shared/logger-footer.js:885-888 | over any run the recorded peak is the greatest length of the queue |
| LoggerFooter.LoggerFooter.constructor | demo/shared/logger-footer.js:384-416 | empty queue and logs with exact counters |
| LoggerFooter.LoggerFooter.IncrementDropped | demo/shared/logger-footer.js:806-811 | counts one dropped record, overall and for its level |
| LoggerFooter.LoggerFooter.DequeueRecordAt | demo/shared/logger-footer.js:813-818 | removes one record and keeps the counters exact |
| LoggerFooter.LoggerFooter.TryEvictForIncoming | demo/shared/logger-footer.js:820-840 | evicts the first record of lower priority, else drops a trace or debug arrival, else the oldest record |
| LoggerFooter.LoggerFooter.IsRateLimited | demo/shared/logger-footer.js:842-856 | window counting for trace and debug records |
| LoggerFooter.LoggerFooter.EnqueueRawRecord | demo/shared/logger-footer.js:858-890 | the whole new state, with both counters exact |
| LoggerFooter.LoggerFooter.RemoveOldestLogByLevel | demo/shared/logger-footer.js:631-639 | removes the first entry of the level, if any |
| LoggerFooter.LoggerFooter.AppendAcceptedLog | demo/shared/logger-footer.js:641-658 | shifts to the total limit, then trims the level to its quota, counters exact |
| LoggerFooter.LoggerFooter.FlushQueue | demo/shared/logger-footer.js:974-986 | staging and committing a batch equals moving its records one by one |
| LoggerFooter.LoggerFooter.CommitBatch | demo/shared/logger-footer.js:901-924 | appends the entries in order and counts them |
| LoggerFooter.LoggerFooter.Log | demo/shared/logger-footer.js:1003-1019 | one call, one record accounted for; a record above debug level ends up last in the queue or merged into the last one |
| LoggerFooter.FlushIsBatch | demo/shared/logger-footer.js:974-986 | the batched flush refines the one-by-one flush |
| LoggerFooter.Replay | demo/shared/logger-footer.js:858-990 | a logger handling any calls and flushes passes through a run of the step relation |

## Left out

- Signing, SHA-256 and JSON: events are records and ids are numbers; that an id names one event is a stated assumption of the theorems that compare runs and of `Acking.AckIsFresh`, `Acking.MaybeAck` and `Acking.PeerRuntime.ProcessInboundMessage`.
- The tag parser of the nostr crate: a tag is an event reference, a topic or a round-trip stamp.
- libp2p, relays, tokio tasks, delays, publishing, decoding of messages, git and HTTP: input and output around the modelled decisions.
- `src/store.rs`, `src/db_viewer.rs`, `src/bft_time.rs`, relay-hint handling and `round_robin_order`: storage, interface code, or easy next to the rest.
- `git_remote_transport_url` and `git_remote_helper_url`: prefix tests in front of the modelled normalization.
- Machine widths of counts, depths and sequence numbers: unbounded here. 64-bit keys, whose bounds matter, are modelled as such.
- Log messages and rejection texts: rejections carry a reason instead.
- Rbsr.DiffAndReconcile: reports keys as numbers, where the source prints them as text; items keep only key and fingerprint.
- Packets.RoundTrip: covers every arrival of the full set of data slices; with a data slice missing or repeated the source returns other bytes without noticing.
- Quorum.BlobQuorum.Attest: `AttestStep` is promised when signing a due seal succeeds; the contract also says what a failed signature leaves behind, but the run theorems assume success.
- LoggerFooter.LoggerFooter.FlushQueue: the clock is a number of records reached in time, and the dynamic batch limit a parameter.
- LoggerFooter.LoggerFooter.Log: the `none` level, the fields `state` and `source`, the worker path, rendering and mirroring are not modelled; caps and quotas use exact arithmetic in place of floating point.
- Per-level queue caps as an invariant: the cap check may evict a record of another level, so only the total capacity is kept.
