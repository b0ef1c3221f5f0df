/** Chained transfer events (src/p2p.rs) and what becomes of them in the DAG. */
module TransferChain {
  import opened Prelude
  import opened Events
  import opened Graph
  import opened DagState
  import opened DagRuns
  import opened Packets

  datatype PacketManifest = PacketManifest(
    root: string, sha256: string, size: nat, packets: nat, depth: nat, mtu: nat, encoding: string, path: string)

  /** What the JSON content of a transfer event is printed from. */
  datatype TransferContent = ManifestContent(manifest: PacketManifest) | SliceContent(slice: ProtocolSlice)

  function WithoutRtt(tags: seq<Tag>): seq<Tag> {
    if tags == [] then []
    else (if tags[0].RttTag? then [] else [tags[0]]) + WithoutRtt(tags[1..])
  }

  /** `stamp_bridge_round_trip_tag`, when a start time is given. */
  function Stamped(tags: seq<Tag>, rtt: Option<int>): seq<Tag> {
    match rtt
    case None => tags
    case Some(startedAtMs) => WithoutRtt(tags) + [RttTag(startedAtMs)]
  }

  lemma {:induction false} WithoutRttKeepsParents(tags: seq<Tag>)
    ensures EventIds(WithoutRtt(tags)) == EventIds(tags)
  {
    if tags == [] {
    } else {
      WithoutRttKeepsParents(tags[1..]);
      if !tags[0].RttTag? {
        assert WithoutRtt(tags)[1..] == WithoutRtt(tags[1..]);
      } else {
        assert WithoutRtt(tags) == WithoutRtt(tags[1..]);
      }
    }
  }

  /** Stamping a round-trip time leaves the parents of an event alone. */
  lemma StampKeepsParents(tags: seq<Tag>, rtt: Option<int>)
    ensures EventIds(Stamped(tags, rtt)) == EventIds(tags)
  {
    match rtt
    case None =>
    case Some(startedAtMs) =>
      WithoutRttKeepsParents(tags);
      EventIdsConcat(WithoutRtt(tags), [RttTag(startedAtMs)]);
      assert [RttTag(startedAtMs)][1..] == [];
      assert EventIds([RttTag(startedAtMs)]) == [];
  }

  lemma {:induction false} WithoutRttConcat(a: seq<Tag>, b: seq<Tag>)
    ensures WithoutRtt(a + b) == WithoutRtt(a) + WithoutRtt(b)
  {
    if a == [] {
      assert a + b == b;
    } else {
      assert (a + b)[1..] == a[1..] + b;
      WithoutRttConcat(a[1..], b);
    }
  }

  lemma {:induction false} WithoutRttElements(tags: seq<Tag>)
    ensures forall tag :: tag in WithoutRtt(tags) <==> tag in tags && !tag.RttTag?
  {
    if tags == [] {
    } else {
      WithoutRttElements(tags[1..]);
      assert tags == [tags[0]] + tags[1..];
    }
  }

  lemma {:induction false} WithoutRttUnchanged(tags: seq<Tag>)
    requires forall tag | tag in tags :: !tag.RttTag?
    ensures WithoutRtt(tags) == tags
  {
    if tags == [] {
    } else {
      WithoutRttUnchanged(tags[1..]);
      assert tags == [tags[0]] + tags[1..];
    }
  }

  /** Tags without a stamp stay as they are, with the stamp after them. */
  lemma StampedPlain(tags: seq<Tag>, rtt: Option<int>)
    requires forall tag | tag in tags :: !tag.RttTag?
    ensures Stamped(tags, rtt) == tags + (match rtt case None => [] case Some(startedAtMs) => [RttTag(startedAtMs)])
  {
    WithoutRttUnchanged(tags);
    hide WithoutRtt;
  }

  /** However often an event is stamped, it carries one round-trip time, the last, and all its other tags. */
  lemma LastStampStays(tags: seq<Tag>, first: Option<int>, last: int)
    ensures Stamped(Stamped(tags, first), Some(last)) == Stamped(tags, Some(last))
    ensures Stamped(tags, None) == tags
    ensures var stamped := Stamped(tags, Some(last)); |stamped| > 0 && stamped[|stamped| - 1] == RttTag(last)
    ensures forall tag :: tag in Stamped(tags, Some(last)) <==>
                          tag == RttTag(last) || (tag in tags && !tag.RttTag?)
  {
    WithoutRttElements(tags);
    WithoutRttUnchanged(WithoutRtt(tags));
    match first
    case None =>
    case Some(startedAtMs) =>
      var stamp := [RttTag(startedAtMs)];
      assert stamp[1..] == [];
      assert WithoutRtt(stamp) == [];
      WithoutRttConcat(WithoutRtt(tags), stamp);
      assert WithoutRtt(Stamped(tags, first)) == WithoutRtt(tags) + [];
  }

  /** Each event has the one before it as its only parent; the first has none. */
  ghost predicate IsLinked(chain: seq<Event>) {
    && chain != [] && ParentsOf(chain[0]) == []
    && forall i | 0 < i < |chain| :: ParentsOf(chain[i]) == [chain[i - 1].id]
  }

  ghost predicate DistinctIds(chain: seq<Event>) {
    forall i, j | 0 <= i < j < |chain| :: chain[i].id != chain[j].id
  }

  lemma PacketsFromTree(rootId: string, payload: Bytes, threshold: nat, depth: nat, packets: seq<ProtocolSlice>)
    requires var tree := Tree(rootId, payload, Max(threshold, 1), 0, 0); packets == WithTotal(tree, |tree|)
    requires depth == Max(0, LeafDots(rootId, payload, Max(threshold, 1)))
    ensures packets == PacketsOf(rootId, payload, threshold)
    ensures depth == Dots(rootId) + Levels(|payload|, Max(threshold, 1))
  {
    var t := Max(threshold, 1);
    hide Tree, WithTotal, LeafDots, Dots, Levels;
    TreeHasSize(rootId, payload, t, 0, 0);
    TreeWithTotal(rootId, payload, t, 0, 0, |packets|);
    LeafDotsAreLevels(rootId, payload, t);
  }

  lemma FirstLink(manifest: Event, rtt: Option<int>)
    requires manifest.tags == Stamped(PipTopicTags(), rtt)
    ensures IsLinked([manifest])
  {
    StampKeepsParents(PipTopicTags(), rtt);
    TopicTagsHaveNoParents([]);
    assert PipTopicTags() + EventTags([]) == PipTopicTags();
  }

  lemma NextLink(chain: seq<Event>, e: Event, rtt: Option<int>)
    requires IsLinked(chain) && e.tags == Stamped(PipTopicTags() + EventTags([chain[|chain| - 1].id]), rtt)
    ensures IsLinked(chain + [e])
  {
    var parents := [chain[|chain| - 1].id];
    StampKeepsParents(PipTopicTags() + EventTags(parents), rtt);
    TopicTagsHaveNoParents(parents);
    hide PipTopicTags, Stamped, EventTags, EventIds;
  }

  /** A manifest event, as the encoder publishes it. */
  ghost predicate IsManifestEvent(e: Event, key: PublicKey, manifest: PacketManifest, rtt: Option<int>,
                                  json: TransferContent -> string, sign: (nat, seq<Tag>, string) -> EventId)
  {
    && e.kind == 39078 && e.pubkey == key && e.content == json(ManifestContent(manifest))
    && e.tags == [Hashtag("nostr-dag"), Hashtag("nip-pip"), Hashtag("transfer")]
                 + (match rtt case None => [] case Some(startedAtMs) => [RttTag(startedAtMs)])
    && e.id == sign(e.kind, e.tags, e.content)
  }

  /** A slice event that references `parentId`. */
  ghost predicate IsSliceEvent(e: Event, key: PublicKey, slice: ProtocolSlice, parentId: EventId, rtt: Option<int>,
                               json: TransferContent -> string, sign: (nat, seq<Tag>, string) -> EventId)
  {
    && e.kind == 39079 && e.pubkey == key && e.content == json(SliceContent(slice))
    && e.tags == [Hashtag("nostr-dag"), Hashtag("nip-pip"), Hashtag("transfer"), EventTag(parentId)]
                 + (match rtt case None => [] case Some(startedAtMs) => [RttTag(startedAtMs)])
    && e.id == sign(e.kind, e.tags, e.content)
  }

  lemma ManifestEventBuilt(e: Event, key: PublicKey, manifest: PacketManifest, rtt: Option<int>,
                           json: TransferContent -> string, sign: (nat, seq<Tag>, string) -> EventId)
    requires e.kind == TRANSFER_MANIFEST_KIND && e.pubkey == key && e.content == json(ManifestContent(manifest))
    requires e.tags == Stamped(PipTopicTags(), rtt) && e.id == sign(e.kind, e.tags, e.content)
    ensures IsManifestEvent(e, key, manifest, rtt, json, sign)
  {
    StampedPlain(PipTopicTags(), rtt);
    hide Stamped;
  }

  lemma SliceTags(parentId: EventId)
    ensures PipTopicTags() + EventTags([parentId])
         == [Hashtag("nostr-dag"), Hashtag("nip-pip"), Hashtag("transfer"), EventTag(parentId)]
  {
  }

  lemma SliceEventBuilt(e: Event, key: PublicKey, slice: ProtocolSlice, parentId: EventId, rtt: Option<int>,
                        json: TransferContent -> string, sign: (nat, seq<Tag>, string) -> EventId)
    requires e.kind == TRANSFER_SLICE_KIND && e.pubkey == key && e.content == json(SliceContent(slice))
    requires e.tags == Stamped(PipTopicTags() + EventTags([parentId]), rtt) && e.id == sign(e.kind, e.tags, e.content)
    ensures IsSliceEvent(e, key, slice, parentId, rtt, json, sign)
  {
    SliceTags(parentId);
    hide PipTopicTags, EventTags;
    StampedPlain([Hashtag("nostr-dag"), Hashtag("nip-pip"), Hashtag("transfer"), EventTag(parentId)], rtt);
    hide Stamped;
  }

  /** `json` prints contents and `sign` gives the id of what is signed. */
  method EncodeChained(key: PublicKey, rootId: string, payload: Bytes, threshold: nat, rtt: Option<int>, path: string,
                       sha256: string, json: TransferContent -> string, sign: (nat, seq<Tag>, string) -> EventId)
    returns (manifest: Event, slices: seq<Event>)
    ensures IsLinked([manifest] + slices)
    ensures IsManifestEvent(manifest, key,
                            PacketManifest(rootId, sha256, |payload|, |slices|,
                                           multiset(rootId)['.'] + Levels(|payload|, if threshold == 0 then 1 else threshold),
                                           threshold, "json", path),
                            rtt, json, sign)
    ensures |slices| == |PacketsOf(rootId, payload, threshold)|
    ensures forall i | 0 <= i < |slices| ::
              IsSliceEvent(slices[i], key, PacketsOf(rootId, payload, threshold)[i], ([manifest] + slices)[i].id, rtt, json, sign)
  {
    DotsCount(rootId);
    hide IsSliceEvent, IsManifestEvent, PacketsOf, WithTotal, Tree, LeafDots, PipTopicTags, Stamped, EventTags, IsLinked, ParentsOf, Levels, Dots;
    var t := Max(threshold, 1);
    var packets, nextSeq, depth := RecursivePacketize(rootId, payload, t, 0, 0);
    var total := |packets|;
    packets := WithTotal(packets, total);
    PacketsFromTree(rootId, payload, threshold, depth, packets);
    var content := json(ManifestContent(PacketManifest(rootId, sha256, |payload|, total, depth, threshold, "json", path)));
    var tags := Stamped(PipTopicTags(), rtt);
    manifest := Event(sign(TRANSFER_MANIFEST_KIND, tags, content), key, TRANSFER_MANIFEST_KIND, tags, content);
    FirstLink(manifest, rtt);
    ManifestEventBuilt(manifest, key, PacketManifest(rootId, sha256, |payload|, total, depth, threshold, "json", path), rtt, json, sign);
    slices := [];
    ghost var chain := [manifest];
    var parentId := manifest.id;
    for i := 0 to total
      invariant |slices| == i && chain == [manifest] + slices
      invariant IsLinked(chain) && parentId == chain[i].id
      invariant forall j | 0 <= j < i :: IsSliceEvent(slices[j], key, packets[j], chain[j].id, rtt, json, sign)
    {
      tags := Stamped(PipTopicTags() + EventTags([parentId]), rtt);
      content := json(SliceContent(packets[i]));
      var slice := Event(sign(TRANSFER_SLICE_KIND, tags, content), key, TRANSFER_SLICE_KIND, tags, content);
      NextLink(chain, slice, rtt);
      SliceEventBuilt(slice, key, packets[i], parentId, rtt, json, sign);
      Associates([manifest], slices, [slice]);
      parentId := slice.id;
      slices := slices + [slice];
      chain := chain + [slice];
    }
  }

  // ---- the chain in the DAG ----

  ghost function EventsOf(chain: seq<Event>): set<Event> {
    set e | e in chain
  }

  lemma {:induction false} LinkIsStored(s: State, chain: seq<Event>, i: nat)
    requires Consistent(s) && IsLinked(chain) && Files(Received(s), EventsOf(chain)) && i < |chain|
    ensures chain[i].id in s.events && s.events[chain[i].id] == chain[i]
  {
    hide Consistent, Received;
    if i == 0 {
    } else {
      LinkIsStored(s, chain, i - 1);
    }
    assert chain[i] in EventsOf(chain);
    assert AllParentsIn(chain[i], s.events.Keys);
    ReceivedAndReadyIsStored(s, chain[i]);
  }

  lemma DepthFromParents(s: State, id: EventId)
    requires Consistent(s) && id in s.events
    ensures id in s.depthCache && s.depthCache[id] == DepthOver(ParentsOf(s.events[id]), s.depthCache)
  {
  }

  lemma {:induction false} LinkHasDepth(s: State, chain: seq<Event>, i: nat)
    requires Consistent(s) && IsLinked(chain) && Files(Received(s), EventsOf(chain)) && i < |chain|
    ensures chain[i].id in s.depthCache && s.depthCache[chain[i].id] == i
  {
    hide Consistent, Files, Received, EventsOf, ParentsOf;
    LinkIsStored(s, chain, i);
    DepthFromParents(s, chain[i].id);
    if i == 0 {
    } else {
      LinkHasDepth(s, chain, i - 1);
      assert [chain[i - 1].id][1..] == [];
    }
  }

  lemma StoredIsLink(s: State, chain: seq<Event>, id: EventId) returns (i: nat)
    requires Consistent(s) && Files(Received(s), EventsOf(chain)) && id in Received(s)
    ensures i < |chain| && chain[i].id == id && Received(s)[id] == chain[i]
  {
    assert Received(s)[id] in EventsOf(chain);
    i :| 0 <= i < |chain| && chain[i] == Received(s)[id];
  }

  lemma NothingPending(s: State, chain: seq<Event>)
    requires Consistent(s) && IsLinked(chain) && Files(Received(s), EventsOf(chain))
    ensures s.pending == map[]
  {
    if id :| id in s.pending {
      var i := StoredIsLink(s, chain, id);
      LinkIsStored(s, chain, i);
    }
  }

  lemma InnerLinkHasChild(s: State, chain: seq<Event>, i: nat)
    requires Consistent(s) && IsLinked(chain) && Files(Received(s), EventsOf(chain)) && i < |chain| - 1
    ensures chain[i].id !in Tips(s)
  {
    hide Consistent, Files, Tips;
    LinkIsStored(s, chain, i + 1);
    TipIffNoChild(s, chain[i].id);
    assert ParentsOf(chain[i + 1]) == [chain[i].id];
    assert chain[i + 1].id in ChildrenIn(s.events, chain[i].id);
  }

  lemma StoredIsReceived(s: State, id: EventId)
    requires id in s.events
    ensures id in Received(s)
  {
  }

  lemma LastLinkHasNoChild(s: State, chain: seq<Event>)
    requires Consistent(s) && IsLinked(chain) && DistinctIds(chain) && Files(Received(s), EventsOf(chain))
    ensures chain[|chain| - 1].id in Tips(s)
  {
    hide Consistent, Files, Tips, Received, ParentsOf;
    var last := chain[|chain| - 1].id;
    LinkIsStored(s, chain, |chain| - 1);
    TipIffNoChild(s, last);
    forall id | id in s.events ensures last !in ParentsOf(s.events[id]) {
      StoredIsReceived(s, id);
      var i := StoredIsLink(s, chain, id);
      LinkIsStored(s, chain, i);
      assert ParentsOf(chain[i]) == if i == 0 then [] else [chain[i - 1].id];
      assert i > 0 ==> chain[i - 1].id != last;
    }
  }

  lemma OnlyLastIsTip(s: State, chain: seq<Event>)
    requires Consistent(s) && IsLinked(chain) && DistinctIds(chain) && Files(Received(s), EventsOf(chain))
    ensures Tips(s) == {chain[|chain| - 1].id}
  {
    assert chain != [];
    hide Consistent, Files, Tips, IsLinked, Received, EventsOf;
    LastLinkHasNoChild(s, chain);
    forall id | id in Tips(s) ensures id == chain[|chain| - 1].id {
      TipIffNoChild(s, id);
      StoredIsReceived(s, id);
      var i := StoredIsLink(s, chain, id);
      if i < |chain| - 1 { InnerLinkHasChild(s, chain, i); }
    }
  }

  /** Inserting a manifest and its slice events into an empty DAG, in any order, with any repetitions
      and whoever joins in between, leaves nothing pending, gives the manifest depth 0 and slice `i` depth `i + 1`,
      and leaves the last event as the only tip. */
  lemma ChainSettles(participants: set<PublicKey>, ops: seq<Op>, run: seq<State>, manifest: Event, slices: seq<Event>)
    requires IsRun(participants, ops, run)
    requires IsLinked([manifest] + slices) && DistinctIds([manifest] + slices)
    requires InsertedEvents(ops) == EventsOf([manifest] + slices)
    ensures var s, chain := run[|ops|], [manifest] + slices;
            && s.pending == map[]
            && (forall i | 0 <= i < |chain| :: chain[i].id in s.depthCache && s.depthCache[chain[i].id] == i)
            && s.events.Keys == (set e | e in chain :: e.id)
            && Tips(s) == {chain[|chain| - 1].id}
  {
    var chain := [manifest] + slices;
    hide IsLinked, Consistent, Files, Tips;
    assert IdsNameEvents(EventsOf(chain));
    RunReceives(participants, ops, run);
    var s := run[|ops|];
    hide IsRun, InsertedEvents;
    NothingPending(s, chain);
    OnlyLastIsTip(s, chain);
    forall i | 0 <= i < |chain| ensures chain[i].id in s.depthCache && s.depthCache[chain[i].id] == i {
      LinkHasDepth(s, chain, i);
    }
    forall e | e in chain ensures e.id in s.events {
      var i :| 0 <= i < |chain| && chain[i] == e;
      LinkIsStored(s, chain, i);
    }
    forall id | id in s.events ensures id in (set e | e in chain :: e.id) {
      var i := StoredIsLink(s, chain, id);
    }
  }
}
