/** Quorum signing of blobs (src/quorum.rs). */
module Quorum {
  import opened Prelude
  import opened Events
  import opened Ordering
  import opened DagState
  import opened DagRuns
  import opened DagEngine
  import opened PipContent

  /** The part of a `BlobQuorum` that its operations change. */
  datatype QuorumState = QuorumState(
    participants: set<PublicKey>,
    attestations: map<PublicKey, EventId>,
    seal: Option<Event>)

  datatype Reason =
    | WrongKind | NotAParticipant | Unparsable | WrongType | WrongRoot | WrongDigest | DuplicateAttestation
    | SealBuildError | NotSealed | MissingSealId | WrongSealId | AlreadyParticipant

  datatype AttestResult =
    | Recorded(count: nat, threshold: nat)
    | ThresholdReached(count: nat, seal: Event)
    | AttestRejected(reason: Reason)

  datatype JoinResult = Joined(memberCount: nat) | JoinRejected(reason: Reason)

  datatype Blob = Blob(rootId: string, sha256: string)

  /** The content names this blob under the given type. */
  predicate Names(raw: string, pipType: string, blob: Blob) {
    match ParsePipContent(raw)
    case None => false
    case Some(pip) => pip.pipType == pipType && pip.rootId == blob.rootId && pip.sha256 == blob.sha256
  }

  /** The attestations that `attest` records. */
  predicate Attestable(q: QuorumState, blob: Blob, event: Event) {
    && event.kind == PIP_ATTEST_KIND
    && event.pubkey in q.participants
    && Names(event.content, "attest", blob)
    && event.pubkey !in q.attestations
  }

  /** The joins that `add_member` accepts. */
  predicate Joinable(q: QuorumState, blob: Blob, event: Event) {
    && event.kind == PIP_JOIN_KIND
    && q.seal.Some?
    && Names(event.content, "join", blob)
    && ParsePipContent(event.content).value.sealId == Some(ToHex(q.seal.value.id))
    && event.pubkey !in q.participants
  }

  function HexIds(ids: seq<EventId>): seq<string> {
    seq(|ids|, i requires 0 <= i < |ids| => ToHex(ids[i]))
  }

  function SealTags(ids: seq<EventId>): seq<Tag> {
    PipTopicTags() + EventTags(ids)
  }

  /** `keys` lists the attesters and `ids` their attestations in that order. */
  ghost predicate ListsAttestations(keys: seq<PublicKey>, ids: seq<EventId>, attestations: map<PublicKey, EventId>) {
    && NoDuplicates(keys) && (forall k :: k in keys <==> k in attestations)
    && |ids| == |keys| && forall i | 0 <= i < |keys| :: ids[i] == attestations[keys[i]]
  }

  /** The content of a seal with `list` between the brackets. */
  function SealWith(blob: Blob, list: string): string {
    "{\"protocol\":\"nostr-dag-transfer\",\"version\":1,\"type\":\"" + "seal"
    + "\",\"root_id\":\"" + blob.rootId + "\",\"sha256\":\"" + blob.sha256 + "\",\"attest_ids\":[" + list + "]}"
  }

  /** The content is that of a seal which lists the hexadecimal forms of `ids`, each in quotes, with
      commas between. */
  ghost predicate ListsIds(content: string, blob: Blob, ids: seq<EventId>) {
    exists list: string ::
      && content == SealWith(blob, list)
      && |list| == (if ids == [] then 0 else 67 * |ids| - 1)
      && (forall i | 0 <= i < |ids| :: list[67 * i..67 * i + 66] == "\"" + ToHex(ids[i]) + "\"")
      && forall i | 0 <= i < |ids| - 1 :: list[67 * i + 66] == ','
  }

  /** The tags are the three topics of a PIP event and then references to `ids`. */
  ghost predicate TagsReference(tags: seq<Tag>, ids: seq<EventId>) {
    && |tags| == 3 + |ids|
    && tags[0] == Hashtag("nostr-dag") && tags[1] == Hashtag("nip-pip") && tags[2] == Hashtag("transfer")
    && forall i | 0 <= i < |ids| :: tags[3 + i] == EventTag(ids[i])
  }

  /** `seal` seals the blob over exactly these attestations: it references them and lists their ids. */
  ghost predicate IsSealOver(seal: Event, blob: Blob, attestations: map<PublicKey, EventId>) {
    && seal.kind == 39081
    && exists keys, ids ::
         && ListsAttestations(keys, ids, attestations)
         && TagsReference(seal.tags, ids) && ParentsOf(seal) == ids
         && ListsIds(seal.content, blob, ids)
  }

  // ---- steps ----

  /** `attest` when signing a due seal succeeds. */
  ghost predicate AttestStep(q: QuorumState, blob: Blob, event: Event, r: QuorumState) {
    if !Attestable(q, blob, event) then r == q
    else
      && r.participants == q.participants
      && r.attestations == q.attestations[event.pubkey := event.id]
      && if |r.attestations| > QuorumThreshold(|q.participants|)
         then r.seal.Some? && IsSealOver(r.seal.value, blob, r.attestations)
         else r.seal == q.seal
  }

  ghost predicate JoinStep(q: QuorumState, blob: Blob, event: Event, r: QuorumState) {
    r == if Joinable(q, blob, event) then q.(participants := q.participants + {event.pubkey}) else q
  }

  lemma HexIdsReadBack(ids: seq<EventId>)
    ensures ListsQuoted(IdList(HexIds(ids), ""), HexIds(ids))
  {
    forall i | 0 <= i < |ids| ensures |HexIds(ids)[i]| == 64 {
      ToHexDigits(ids[i], 0);
    }
    hide ToHex, IdList;
    IdListReadsBack(HexIds(ids));
  }

  lemma SealContentIsSealWith(blob: Blob, ids: seq<EventId>)
    ensures SealContent(blob.rootId, blob.sha256, HexIds(ids)) == SealWith(blob, IdList(HexIds(ids), ""))
  {
    hide SealContent, IdList, HexIds;
    SealText(blob.rootId, blob.sha256, HexIds(ids));
  }

  lemma SealListsIds(blob: Blob, ids: seq<EventId>)
    ensures ListsIds(SealContent(blob.rootId, blob.sha256, HexIds(ids)), blob, ids)
  {
    hide SealContent, SealWith, IdList, ToHex;
    SealContentIsSealWith(blob, ids);
    HexIdsReadBack(ids);
    var list := IdList(HexIds(ids), "");
    forall i | 0 <= i < |ids| ensures list[67 * i..67 * i + 66] == "\"" + ToHex(ids[i]) + "\"" {
      assert HexIds(ids)[i] == ToHex(ids[i]);
    }
  }

  lemma TopicsThenIds(ids: seq<EventId>)
    ensures var tags := PipTopicTags() + EventTags(ids); TagsReference(tags, ids) && EventIds(tags) == ids
  {
    TopicTagsHaveNoParents(ids);
  }

  lemma SealIsOver(seal: Event, blob: Blob, keys: seq<PublicKey>, ids: seq<EventId>, attestations: map<PublicKey, EventId>)
    requires ListsAttestations(keys, ids, attestations)
    requires seal.kind == PIP_SEAL_KIND && seal.tags == SealTags(ids)
    requires seal.content == SealContent(blob.rootId, blob.sha256, HexIds(ids))
    ensures IsSealOver(seal, blob, attestations)
  {
    hide ListsIds, TagsReference, SealContent, HexIds, EventIds, PipTopicTags;
    TopicsThenIds(ids);
    SealListsIds(blob, ids);
  }

  class BlobQuorum {
    const blob: Blob
    const dag: Dag
    var attestations: map<PublicKey, EventId>
    var seal: Option<Event>

    ghost function View(): QuorumState
      reads this, dag
    {
      QuorumState(dag.participants, attestations, seal)
    }

    /** Attesters are participants. */
    ghost predicate Valid()
      reads this, dag
    {
      dag.Valid() && attestations.Keys <= dag.participants
    }

    constructor (participants: set<PublicKey>, rootId: string, sha256: string)
      ensures Valid() && fresh(dag) && blob == Blob(rootId, sha256)
      ensures View() == QuorumState(participants, map[], None)
    {
      blob := Blob(rootId, sha256);
      dag := new Dag(participants);
      attestations := map[];
      seal := None;
    }

    /** `threshold()` recomputes what the inner DAG caches. */
    function Threshold(): (t: nat)
      requires Valid()
      reads this, dag
      ensures t == dag.threshold
    {
      var required := (|dag.participants| * 4 + 4) / 5;
      if required == 0 then 0 else required - 1
    }

    /** `signSeal` gives the id of a seal with these tags and content, or fails. */
    method Attest(event: Event, sealKey: PublicKey, signSeal: (seq<Tag>, string) -> Option<EventId>)
      returns (result: AttestResult)
      requires Valid()
      modifies this
      ensures Valid() && dag.View() == old(dag.View())
      ensures (forall tags, content :: signSeal(tags, content).Some?) ==> AttestStep(old(View()), blob, event, View())
      ensures !Attestable(old(View()), blob, event) ==>
                result.AttestRejected? && result.reason != SealBuildError && View() == old(View())
      ensures Attestable(old(View()), blob, event) ==> attestations == old(attestations)[event.pubkey := event.id]
      ensures result.Recorded? ==>
                result.count == |attestations| <= result.threshold == dag.threshold && seal == old(seal)
      ensures result.ThresholdReached? ==>
                result.count == |attestations| > dag.threshold && seal == Some(result.seal)
      ensures result == AttestRejected(SealBuildError) ==> |attestations| > dag.threshold && seal == old(seal)
      ensures result.ThresholdReached? ==>
                && result.seal.pubkey == sealKey && IsSealOver(result.seal, blob, attestations)
                && signSeal(result.seal.tags, result.seal.content) == Some(result.seal.id)
      ensures attestations != old(attestations) ==>
                event.kind == 39080 && event.pubkey in dag.participants && event.pubkey !in old(attestations)
      ensures result.AttestRejected? ==>
                match result.reason
                case WrongKind => event.kind != 39080
                case NotAParticipant => event.pubkey !in dag.participants
                case Unparsable => ParsePipContent(event.content) == None
                case WrongType => ParsePipContent(event.content).Some?
                                  && ParsePipContent(event.content).value.pipType != "attest"
                case WrongRoot => ParsePipContent(event.content).Some?
                                  && ParsePipContent(event.content).value.rootId != blob.rootId
                case WrongDigest => ParsePipContent(event.content).Some?
                                    && ParsePipContent(event.content).value.sha256 != blob.sha256
                case DuplicateAttestation => event.pubkey in old(attestations)
                case SealBuildError => Attestable(old(View()), blob, event)
                case _ => false
    {
      hide Consistent, IsSealOver, ParsePipContent, SealContent, HexIds, SealTags, ParentsOf;
      if event.kind != PIP_ATTEST_KIND {
        return AttestRejected(WrongKind);
      }
      if event.pubkey !in dag.participants {
        return AttestRejected(NotAParticipant);
      }
      var parsed := ParsePipContent(event.content);
      if parsed == None {
        return AttestRejected(Unparsable);
      }
      var pip := parsed.value;
      if pip.pipType != "attest" {
        return AttestRejected(WrongType);
      }
      if pip.rootId != blob.rootId {
        return AttestRejected(WrongRoot);
      }
      if pip.sha256 != blob.sha256 {
        return AttestRejected(WrongDigest);
      }
      if event.pubkey in attestations {
        return AttestRejected(DuplicateAttestation);
      }
      attestations := attestations[event.pubkey := event.id];
      var count := |attestations|;
      var threshold := Threshold();
      if count > threshold {
        var keys := ListInAnyOrder(attestations.Keys);
        var attestIds := seq(|keys|, i requires 0 <= i < |keys| && keys[i] in attestations reads this => attestations[keys[i]]);
        var tags := SealTags(attestIds);
        var content := SealContent(blob.rootId, blob.sha256, HexIds(attestIds));
        match signSeal(tags, content) {
          case None =>
            result := AttestRejected(SealBuildError);
          case Some(id) =>
            var newSeal := Event(id, sealKey, PIP_SEAL_KIND, tags, content);
            SealIsOver(newSeal, blob, keys, attestIds, attestations);
            seal := Some(newSeal);
            result := ThresholdReached(count, newSeal);
        }
      } else {
        result := Recorded(count, threshold);
      }
    }

    method AddMember(event: Event) returns (result: JoinResult)
      requires Valid()
      modifies this, dag
      ensures Valid() && JoinStep(old(View()), blob, event, View())
      ensures result.Joined? <==> Joinable(old(View()), blob, event)
      ensures result.Joined? ==> AddParticipantStep(old(dag.View()), event.pubkey, dag.View())
      ensures result.Joined? ==> result.memberCount == |dag.participants| == old(|dag.participants|) + 1
      ensures result.JoinRejected? ==> dag.View() == old(dag.View())
      ensures result.Joined? ==> event.kind == 39082 && event.pubkey !in old(dag.participants) && seal.Some?
      ensures result.JoinRejected? ==>
                match result.reason
                case WrongKind => event.kind != 39082
                case NotSealed => seal == None
                case Unparsable => ParsePipContent(event.content) == None
                case WrongType => ParsePipContent(event.content).Some?
                                  && ParsePipContent(event.content).value.pipType != "join"
                case WrongRoot => ParsePipContent(event.content).Some?
                                  && ParsePipContent(event.content).value.rootId != blob.rootId
                case WrongDigest => ParsePipContent(event.content).Some?
                                    && ParsePipContent(event.content).value.sha256 != blob.sha256
                case MissingSealId => ParsePipContent(event.content).Some?
                                      && ParsePipContent(event.content).value.sealId == None
                case WrongSealId => ParsePipContent(event.content).Some? && seal.Some?
                                    && ParsePipContent(event.content).value.sealId != Some(ToHex(seal.value.id))
                case AlreadyParticipant => event.pubkey in dag.participants
                case _ => false
    {
      hide Consistent, ParsePipContent, ToHex;
      if event.kind != PIP_JOIN_KIND {
        return JoinRejected(WrongKind);
      }
      if seal == None {
        return JoinRejected(NotSealed);
      }
      var parsed := ParsePipContent(event.content);
      if parsed == None {
        return JoinRejected(Unparsable);
      }
      var pip := parsed.value;
      if pip.pipType != "join" {
        return JoinRejected(WrongType);
      }
      if pip.rootId != blob.rootId {
        return JoinRejected(WrongRoot);
      }
      if pip.sha256 != blob.sha256 {
        return JoinRejected(WrongDigest);
      }
      var sealHex := ToHex(seal.value.id);
      if pip.sealId == None {
        return JoinRejected(MissingSealId);
      }
      if pip.sealId.value != sealHex {
        return JoinRejected(WrongSealId);
      }
      if event.pubkey in dag.participants {
        return JoinRejected(AlreadyParticipant);
      }
      dag.AddParticipant(event.pubkey);
      result := Joined(|dag.participants|);
    }
  }

  // ---- honest events ----

  /** `create_attest_event`; `id` is the id that signing yields. */
  function AttestEvent(key: PublicKey, blob: Blob, manifestId: EventId, sliceIds: seq<EventId>, id: EventId): Event {
    Event(id, key, PIP_ATTEST_KIND,
          PipTopicTags() + [EventTag(manifestId)] + EventTags(sliceIds),
          AttestContent(blob.rootId, blob.sha256, ToHex(manifestId)))
  }

  /** `create_join_event` */
  function JoinEvent(key: PublicKey, blob: Blob, sealId: EventId, id: EventId): Event {
    Event(id, key, PIP_JOIN_KIND,
          PipTopicTags() + [EventTag(sealId)],
          JoinContent(blob.rootId, blob.sha256, ToHex(sealId)))
  }

  predicate QuoteFreeBlob(blob: Blob) {
    QuoteFree(blob.rootId) && QuoteFree(blob.sha256)
  }

  lemma AttestEventReferences(key: PublicKey, blob: Blob, manifestId: EventId, sliceIds: seq<EventId>, id: EventId)
    ensures var e := AttestEvent(key, blob, manifestId, sliceIds, id);
            ParentsOf(e) == [manifestId] + sliceIds && TagsReference(e.tags, [manifestId] + sliceIds)
  {
    assert EventTags([manifestId] + sliceIds) == [EventTag(manifestId)] + EventTags(sliceIds);
    hide ToHex, AttestContent, EventIds, TagsReference, PipTopicTags, EventTags;
    TopicsThenIds([manifestId] + sliceIds);
    Associates(PipTopicTags(), [EventTag(manifestId)], EventTags(sliceIds));
  }

  /** What an attester publishes: a reference to the manifest and then to the slices, under kind 39080,
      and a content that names the blob and the manifest. */
  lemma AttestEventShape(key: PublicKey, blob: Blob, manifestId: EventId, sliceIds: seq<EventId>, id: EventId)
    ensures var e := AttestEvent(key, blob, manifestId, sliceIds, id);
            && e.id == id && e.pubkey == key && e.kind == 39080
            && ParentsOf(e) == [manifestId] + sliceIds && TagsReference(e.tags, [manifestId] + sliceIds)
    ensures AttestEvent(key, blob, manifestId, sliceIds, id).content
         == "{\"protocol\":\"nostr-dag-transfer\",\"version\":1,\"type\":\"" + "attest"
            + "\",\"root_id\":\"" + blob.rootId + "\",\"sha256\":\"" + blob.sha256
            + "\",\"manifest_id\":\"" + ToHex(manifestId) + "\"}"
  {
    AttestEventReferences(key, blob, manifestId, sliceIds, id);
    hide ToHex, AttestContent, ParentsOf, TagsReference, EventTags;
    AttestText(blob.rootId, blob.sha256, ToHex(manifestId));
  }

  /** What a joiner publishes: a reference to the seal, under kind 39082, and a content that names the
      blob and the seal. */
  lemma JoinEventShape(key: PublicKey, blob: Blob, sealId: EventId, id: EventId)
    ensures var e := JoinEvent(key, blob, sealId, id);
            && e.id == id && e.pubkey == key && e.kind == 39082
            && ParentsOf(e) == [sealId] && TagsReference(e.tags, [sealId])
            && e.content == "{\"protocol\":\"nostr-dag-transfer\",\"version\":1,\"type\":\"" + "join"
                            + "\",\"root_id\":\"" + blob.rootId + "\",\"sha256\":\"" + blob.sha256
                            + "\",\"seal_id\":\"" + ToHex(sealId) + "\"}"
  {
    hide ToHex, JoinContent, EventIds, TagsReference, PipTopicTags;
    TopicsThenIds([sealId]);
    assert EventTags([sealId]) == [EventTag(sealId)];
    JoinText(blob.rootId, blob.sha256, ToHex(sealId));
  }

  /** Only blobs with quote-free root id and digest can be named. */
  lemma NamedIsQuoteFree(raw: string, pipType: string, blob: Blob)
    requires Names(raw, pipType, blob)
    ensures QuoteFreeBlob(blob)
  {
    hide ParsePipContent, QuoteFree;
    ParsedIsQuoteFree(raw);
  }

  lemma AttestNames(blob: Blob, manifestId: string)
    requires QuoteFree(manifestId)
    ensures Names(AttestContent(blob.rootId, blob.sha256, manifestId), "attest", blob) <==> QuoteFreeBlob(blob)
  {
    var raw := AttestContent(blob.rootId, blob.sha256, manifestId);
    hide ParsePipContent, AttestContent, QuoteFree;
    ScanAttest(blob.rootId, blob.sha256, manifestId);
    if Names(raw, "attest", blob) { NamedIsQuoteFree(raw, "attest", blob); }
  }

  lemma JoinNames(blob: Blob, sealId: string)
    requires QuoteFree(sealId)
    ensures var raw := JoinContent(blob.rootId, blob.sha256, sealId);
            && (Names(raw, "join", blob) <==> QuoteFreeBlob(blob))
            && (QuoteFreeBlob(blob) ==> ParsePipContent(raw).value.sealId == Some(sealId))
  {
    var raw := JoinContent(blob.rootId, blob.sha256, sealId);
    hide ParsePipContent, JoinContent, QuoteFree;
    ScanJoin(blob.rootId, blob.sha256, sealId);
    if Names(raw, "join", blob) { NamedIsQuoteFree(raw, "join", blob); }
  }

  /** A participant's attestation of the blob is recorded exactly once, provided the blob can be
      named at all: with a quote in its root id or digest, it can never be attested. */
  lemma HonestAttestation(q: QuorumState, blob: Blob, key: PublicKey, manifestId: EventId, sliceIds: seq<EventId>,
                          id: EventId)
    ensures Attestable(q, blob, AttestEvent(key, blob, manifestId, sliceIds, id)) <==>
            key in q.participants && key !in q.attestations && QuoteFreeBlob(blob)
  {
    HexIsQuoteFree(manifestId, 64);
    hide Names, AttestContent, ToHex, EventTags;
    AttestNames(blob, ToHex(manifestId));
  }

  /** A join event admits its author exactly when it references the current seal, the author is new,
      and the blob can be named. */
  lemma HonestJoin(q: QuorumState, blob: Blob, key: PublicKey, sealId: EventId, id: EventId)
    ensures Joinable(q, blob, JoinEvent(key, blob, sealId, id)) <==>
            q.seal.Some? && ToHex(sealId) == ToHex(q.seal.value.id) && key !in q.participants && QuoteFreeBlob(blob)
    ensures Is32Bytes(sealId) && (q.seal.Some? ==> Is32Bytes(q.seal.value.id)) ==>
              (Joinable(q, blob, JoinEvent(key, blob, sealId, id)) <==>
               q.seal.Some? && sealId == q.seal.value.id && key !in q.participants && QuoteFreeBlob(blob))
  {
    HexIsQuoteFree(sealId, 64);
    hide Names, ParsePipContent, JoinContent, ToHex, Is32Bytes, QuoteFreeBlob;
    JoinNames(blob, ToHex(sealId));
    if q.seal.Some? && Is32Bytes(sealId) && Is32Bytes(q.seal.value.id) && ToHex(sealId) == ToHex(q.seal.value.id) {
      ToHexInjective(sealId, q.seal.value.id);
    }
  }

  /** Attestations, seals and joins do not pass for one another, for any blob and whatever the root
      id and digest printed into them. */
  lemma TypesAreSeparate(rootId: string, sha256: string, id: EventId, ids: seq<EventId>, blob: Blob)
    ensures !Names(AttestContent(rootId, sha256, ToHex(id)), "join", blob)
    ensures !Names(JoinContent(rootId, sha256, ToHex(id)), "attest", blob)
    ensures !Names(SealContent(rootId, sha256, HexIds(ids)), "attest", blob)
    ensures !Names(SealContent(rootId, sha256, HexIds(ids)), "join", blob)
  {
    var attest, join, seal := AttestContent(rootId, sha256, ToHex(id)), JoinContent(rootId, sha256, ToHex(id)),
        SealContent(rootId, sha256, HexIds(ids));
    hide Field, Shared, Pair, Quoted, IdList;
    PrintedTypeIsRead("attest", rootId, sha256, "," + Pair("manifest_id", ToHex(id)) + "}");
    PrintedTypeIsRead("join", rootId, sha256, "," + Pair("seal_id", ToHex(id)) + "}");
    PrintedTypeIsRead("seal", rootId, sha256, "," + Quoted("attest_ids") + (":[" + IdList(HexIds(ids), "]}")));
    assert Field(attest, "type") == Some("attest");
    assert Field(join, "type") == Some("join");
    assert Field(seal, "type") == Some("seal");
    hide AttestContent, JoinContent, SealContent;
  }

  // ---- runs ----

  datatype QuorumOp = AttestOp(event: Event) | JoinOp(event: Event)

  ghost predicate QuorumStep(q: QuorumState, blob: Blob, op: QuorumOp, r: QuorumState) {
    match op
    case AttestOp(e) => AttestStep(q, blob, e, r)
    case JoinOp(e) => JoinStep(q, blob, e, r)
  }

  ghost predicate IsQuorumRun(members: set<PublicKey>, blob: Blob, ops: seq<QuorumOp>, run: seq<QuorumState>) {
    && |run| == |ops| + 1
    && run[0] == QuorumState(members, map[], None)
    && forall i | 0 <= i < |ops| :: QuorumStep(run[i], blob, ops[i], run[i + 1])
  }

  lemma RunExtended(members: set<PublicKey>, blob: Blob, ops: seq<QuorumOp>, run: seq<QuorumState>, op: QuorumOp,
                    r: QuorumState)
    requires IsQuorumRun(members, blob, ops, run) && QuorumStep(run[|ops|], blob, op, r)
    ensures |run| == |ops| + 1 && IsQuorumRun(members, blob, ops + [op], run + [r])
  {
    hide QuorumStep;
    var ops', run' := ops + [op], run + [r];
    forall i | 0 <= i < |ops'| ensures QuorumStep(run'[i], blob, ops'[i], run'[i + 1]) {
    }
  }

  lemma RunStarts(members: set<PublicKey>, blob: Blob)
    ensures IsQuorumRun(members, blob, [], [QuorumState(members, map[], None)])
  {
  }

  /** A new quorum that handles `ops` in turn, signing succeeding, passes through a run in the sense
      of the theorems below. */
  method Replay(members: set<PublicKey>, blob: Blob, ops: seq<QuorumOp>, sealKey: PublicKey,
                signSeal: (seq<Tag>, string) -> Option<EventId>)
    returns (quorum: BlobQuorum, ghost run: seq<QuorumState>)
    requires forall tags, content :: signSeal(tags, content).Some?
    ensures fresh(quorum) && fresh(quorum.dag) && quorum.Valid()
    ensures |run| == |ops| + 1 && IsQuorumRun(members, blob, ops, run) && quorum.View() == run[|ops|]
  {
    hide Consistent, AttestStep, JoinStep, Attestable, Joinable, IsSealOver, ParsePipContent, ToHex, IsQuorumRun, QuorumThreshold;
    RunStarts(members, blob);
    quorum := new BlobQuorum(members, blob.rootId, blob.sha256);
    run := [quorum.View()];
    for i := 0 to |ops|
      invariant fresh(quorum) && fresh(quorum.dag) && quorum.Valid() && quorum.blob == blob
      invariant |run| == i + 1 && IsQuorumRun(members, blob, ops[..i], run) && quorum.View() == run[i]
    {
      match ops[i] {
        case AttestOp(event) => var _ := quorum.Attest(event, sealKey, signSeal);
        case JoinOp(event) => var _ := quorum.AddMember(event);
      }
      RunExtended(members, blob, ops[..i], run, ops[i], quorum.View());
      assert ops[..i + 1] == ops[..i] + [ops[i]];
      run := run + [quorum.View()];
    }
    assert ops[..|ops|] == ops;
  }

  /** Attesters are participants; without a seal the membership is the initial one and the
      attestations are below the bar. */
  ghost predicate QuorumInvariant(members: set<PublicKey>, q: QuorumState) {
    && q.attestations.Keys <= q.participants
    && members <= q.participants
    && (q.seal == None ==> q.participants == members && |q.attestations| <= QuorumThreshold(|members|))
  }

  lemma StepKeepsInvariant(members: set<PublicKey>, q: QuorumState, blob: Blob, op: QuorumOp, r: QuorumState)
    requires QuorumInvariant(members, q) && QuorumStep(q, blob, op, r)
    ensures QuorumInvariant(members, r)
    ensures q.seal.Some? ==> r.seal.Some?
    ensures r.seal != q.seal ==> r.seal.Some? && IsSealOver(r.seal.value, blob, r.attestations)
    ensures forall k | k in q.attestations :: k in r.attestations && r.attestations[k] == q.attestations[k]
    ensures q.participants <= r.participants && (r.participants != q.participants ==> q.seal.Some?)
  {
    hide Names, ParsePipContent, ToHex, IsSealOver;
  }

  /** A quorum is first sealed by exactly `ceil(4n/5)` of its `n` initial members. */
  lemma FirstSealAtFourFifths(members: set<PublicKey>, q: QuorumState, blob: Blob, op: QuorumOp, r: QuorumState)
    requires QuorumInvariant(members, q) && QuorumStep(q, blob, op, r) && q.seal == None && r.seal.Some?
    ensures |r.attestations| == Required(|members|) && r.attestations.Keys <= members && |members| > 0
  {
    hide Joinable, IsSealOver, Names;
    assert op.AttestOp? && Attestable(q, blob, op.event);
    assert op.event.pubkey in members;
    assert r.attestations.Keys == q.attestations.Keys + {op.event.pubkey};
    assert |r.attestations.Keys| == |q.attestations.Keys| + 1;
    assert |q.attestations.Keys| == |q.attestations| && |r.attestations.Keys| == |r.attestations|;
    SubsetIsSmaller({op.event.pubkey}, members);
  }

  lemma {:induction false} RunInvariant(members: set<PublicKey>, blob: Blob, ops: seq<QuorumOp>, run: seq<QuorumState>, i: nat)
    requires IsQuorumRun(members, blob, ops, run) && i < |run|
    ensures QuorumInvariant(members, run[i])
  {
    hide QuorumStep;
    if i == 0 {
    } else {
      hide QuorumInvariant;
      RunInvariant(members, blob, ops, run, i - 1);
      StepKeepsInvariant(members, run[i - 1], blob, ops[i - 1], run[i]);
    }
  }

  /** Between any two moments of a run, a sealed quorum stays sealed, attestations and participants
      only accumulate, and new participants appear only once a seal exists. */
  lemma {:induction false} RunAccumulates(members: set<PublicKey>, blob: Blob, ops: seq<QuorumOp>, run: seq<QuorumState>, i: nat, j: nat)
    requires IsQuorumRun(members, blob, ops, run) && i <= j < |run|
    ensures run[i].seal.Some? ==> run[j].seal.Some?
    ensures forall k | k in run[i].attestations :: k in run[j].attestations && run[j].attestations[k] == run[i].attestations[k]
    ensures run[i].participants <= run[j].participants
    ensures run[j].seal == None ==> run[j].participants == members
    decreases j - i
  {
    hide QuorumStep;
    RunInvariant(members, blob, ops, run, j);
    if i == j {
    } else {
      RunInvariant(members, blob, ops, run, i);
      StepKeepsInvariant(members, run[i], blob, ops[i], run[i + 1]);
      hide QuorumInvariant;
      RunAccumulates(members, blob, ops, run, i + 1, j);
    }
  }

  /** Whatever seal a quorum holds lists exactly the attestations recorded at the moment it was made. */
  lemma {:induction false} SealListsItsMoment(members: set<PublicKey>, blob: Blob, ops: seq<QuorumOp>, run: seq<QuorumState>, j: nat)
    returns (i: nat)
    requires IsQuorumRun(members, blob, ops, run) && j < |run| && run[j].seal.Some?
    ensures 0 < i <= j && run[i].seal == run[j].seal && run[i - 1].seal != run[i].seal
    ensures IsSealOver(run[i].seal.value, blob, run[i].attestations)
    ensures run[i - 1].seal == None ==> |run[i].attestations| == Required(|members|) && run[i].attestations.Keys <= members
  {
    hide QuorumStep, QuorumInvariant, IsSealOver;
    RunInvariant(members, blob, ops, run, j - 1);
    StepKeepsInvariant(members, run[j - 1], blob, ops[j - 1], run[j]);
    if run[j - 1].seal == run[j].seal {
      i := SealListsItsMoment(members, blob, ops, run, j - 1);
    } else {
      i := j;
      if run[j - 1].seal == None {
        FirstSealAtFourFifths(members, run[j - 1], blob, ops[j - 1], run[j]);
      }
    }
  }

  // ---- progress ----

  /** The attestations that an initial member may hand in. */
  predicate IsBallot(members: set<PublicKey>, blob: Blob, op: QuorumOp) {
    && op.AttestOp? && op.event.kind == PIP_ATTEST_KIND
    && op.event.pubkey in members
    && Names(op.event.content, "attest", blob)
  }

  /** The initial members that have handed in an attestation of the blob. */
  ghost function Voters(members: set<PublicKey>, blob: Blob, ops: seq<QuorumOp>): set<PublicKey> {
    set op | op in ops && IsBallot(members, blob, op) :: op.event.pubkey
  }

  lemma VotersSnoc(members: set<PublicKey>, blob: Blob, ops: seq<QuorumOp>, op: QuorumOp)
    ensures Voters(members, blob, ops + [op])
         == Voters(members, blob, ops) + if IsBallot(members, blob, op) then {op.event.pubkey} else {}
  {
    hide IsBallot;
    assert forall o | o in ops :: o in ops + [op];
    assert op in ops + [op];
  }

  /** All voters are recorded; before a seal nobody else is, and a seal takes enough voters. */
  ghost predicate VotesCounted(members: set<PublicKey>, voters: set<PublicKey>, q: QuorumState) {
    && voters <= q.attestations.Keys
    && (q.seal == None ==> voters == q.attestations.Keys)
    && (q.seal.Some? ==> |voters| >= Required(|members|) && members != {})
  }

  lemma StepCountsVotes(members: set<PublicKey>, blob: Blob, voters: set<PublicKey>, q: QuorumState, op: QuorumOp,
                        r: QuorumState)
    requires QuorumInvariant(members, q) && QuorumStep(q, blob, op, r) && VotesCounted(members, voters, q)
    ensures VotesCounted(members, voters + if IsBallot(members, blob, op) then {op.event.pubkey} else {}, r)
  {
    hide Names, Joinable, IsSealOver, Required;
    var voters' := voters + if IsBallot(members, blob, op) then {op.event.pubkey} else {};
    StepKeepsInvariant(members, q, blob, op, r);
    SubsetIsSmaller(voters, voters');
    if q.seal == None && r.seal.Some? {
      FirstSealAtFourFifths(members, q, blob, op, r);
      assert voters' == r.attestations.Keys;
      assert |r.attestations.Keys| == |r.attestations|;
    }
  }

  lemma {:induction false} RunCountsVotes(members: set<PublicKey>, blob: Blob, ops: seq<QuorumOp>, run: seq<QuorumState>,
                                          i: nat)
    requires IsQuorumRun(members, blob, ops, run) && i < |run|
    ensures VotesCounted(members, Voters(members, blob, ops[..i]), run[i])
  {
    hide QuorumStep, IsBallot;
    if i == 0 {
      assert Voters(members, blob, ops[..0]) == {};
    } else {
      RunCountsVotes(members, blob, ops, run, i - 1);
      RunInvariant(members, blob, ops, run, i - 1);
      assert ops[..i] == ops[..i - 1] + [ops[i - 1]];
      hide VotesCounted, QuorumInvariant;
      VotersSnoc(members, blob, ops[..i - 1], ops[i - 1]);
      StepCountsVotes(members, blob, Voters(members, blob, ops[..i - 1]), run[i - 1], ops[i - 1], run[i]);
    }
  }

  /** A run ends sealed exactly when at least `ceil(4n/5)` of its `n` initial members, and at least one,
      have handed in an attestation of the blob, in whatever order and whatever else happened. */
  lemma SealedIffEnoughVoters(members: set<PublicKey>, blob: Blob, ops: seq<QuorumOp>, run: seq<QuorumState>)
    requires IsQuorumRun(members, blob, ops, run)
    ensures run[|ops|].seal.Some? <==>
            members != {} && |Voters(members, blob, ops)| >= Required(|members|)
  {
    var last := run[|ops|];
    hide QuorumStep, Voters;
    RunCountsVotes(members, blob, ops, run, |ops|);
    RunInvariant(members, blob, ops, run, |ops|);
    assert ops[..|ops|] == ops;
    assert |last.attestations.Keys| == |last.attestations|;
  }
}
