/** Nostr events as the DAG sees them (src/event.rs). An event is a record; signing,
    hashing and JSON are outside the model, so an id is an arbitrary number. */
module Events {
  /** Ids are 32-byte strings in the source; only equality and their order matter. */
  type EventId = nat

  datatype PublicKey = PublicKey(bits: nat)

  datatype Tag =
    | EventTag(id: EventId)
    | Hashtag(topic: string)
    | RttTag(startedAtMs: int)

  datatype Event = Event(id: EventId, pubkey: PublicKey, kind: nat, tags: seq<Tag>, content: string)

  const DAG_EVENT_KIND: nat := 21000
  const TRANSFER_MANIFEST_KIND: nat := 39078
  const TRANSFER_SLICE_KIND: nat := 39079
  const PIP_ATTEST_KIND: nat := 39080
  const PIP_SEAL_KIND: nat := 39081
  const PIP_JOIN_KIND: nat := 39082

  function EventIds(tags: seq<Tag>): seq<EventId> {
    if tags == [] then []
    else match tags[0]
      case EventTag(id) => [id] + EventIds(tags[1..])
      case _ => EventIds(tags[1..])
  }

  function ParentsOf(e: Event): seq<EventId> {
    EventIds(e.tags)
  }

  function EventTags(ids: seq<EventId>): (tags: seq<Tag>)
    ensures |tags| == |ids| && forall i | 0 <= i < |ids| :: tags[i] == EventTag(ids[i])
  {
    seq(|ids|, i requires 0 <= i < |ids| => EventTag(ids[i]))
  }

  /** The topics of every PIP event. */
  function PipTopicTags(): (tags: seq<Tag>)
    ensures |tags| == 3
  {
    [Hashtag("nostr-dag"), Hashtag("nip-pip"), Hashtag("transfer")]
  }

  /** `create_ack_event`; `id` is the id that signing yields. */
  function AckEvent(key: PublicKey, parents: seq<EventId>, id: EventId): Event {
    Event(id, key, DAG_EVENT_KIND, EventTags(parents), "")
  }

  lemma {:induction false} EventIdsOfTags(ids: seq<EventId>)
    ensures EventIds(EventTags(ids)) == ids
  {
    if ids == [] {
    } else {
      assert EventTags(ids)[1..] == EventTags(ids[1..]);
      EventIdsOfTags(ids[1..]);
    }
  }

  lemma {:induction false} EventIdsConcat(a: seq<Tag>, b: seq<Tag>)
    ensures EventIds(a + b) == EventIds(a) + EventIds(b)
  {
    if a == [] {
      assert a + b == b;
    } else {
      assert (a + b)[1..] == a[1..] + b;
      EventIdsConcat(a[1..], b);
    }
  }

  /** The parents of an ack are the ids it was built from, in order; it has no other tags, no content,
      and is of the ephemeral kind 21000. */
  lemma AckParents(key: PublicKey, parents: seq<EventId>, id: EventId)
    ensures var ack := AckEvent(key, parents, id);
            && ParentsOf(ack) == parents && |ack.tags| == |parents|
            && ack.id == id && ack.pubkey == key && ack.kind == 21000 && ack.content == ""
  {
    EventIdsOfTags(parents);
  }

  lemma Associates<T>(a: seq<T>, b: seq<T>, c: seq<T>)
    ensures a + b + c == a + (b + c)
  {
  }

  /** The topics name no parents; the tags after them do. */
  lemma TopicTagsHaveNoParents(parents: seq<EventId>)
    ensures EventIds(PipTopicTags() + EventTags(parents)) == parents
  {
    var tags := PipTopicTags();
    assert tags[1..] == [Hashtag("nip-pip"), Hashtag("transfer")];
    assert tags[1..][1..] == [Hashtag("transfer")];
    assert tags[1..][1..][1..] == [];
    EventIdsConcat(tags, EventTags(parents));
    EventIdsOfTags(parents);
  }
}
