/** Acknowledging the tips: `maybe_ack` of src/native_cli.rs and `PeerRuntime` of src/p2p_node.rs. */
module Acking {
  import opened Prelude
  import opened Events
  import opened Graph
  import opened Ordering
  import opened DagState
  import opened DagRuns
  import opened DagEngine

  /** `ack` is an acknowledgment by `key` whose parents are exactly the tips of `s`. */
  ghost predicate IsAckOver(s: State, key: PublicKey, ack: Event) {
    && ack.pubkey == key && ack.kind == DAG_EVENT_KIND
    && forall p :: p in ParentsOf(ack) <==> p in Tips(s)
  }

  /** Ids are content hashes: if the id of `e` is already filed, it files `e`. */
  ghost predicate IdNames(received: Store, e: Event) {
    e.id in received ==> received[e.id] == e
  }

  /** The same for an ack over any list of tips; `idOf` is what signing such an ack yields. */
  ghost predicate AckIdsName(received: Store, key: PublicKey, idOf: seq<EventId> -> EventId) {
    forall tips :: IdNames(received, AckEvent(key, tips, idOf(tips)))
  }

  // ---- tips ----

  lemma NotATip(s: State, e: EventId)
    requires Consistent(s) && e in s.events && e !in Tips(s)
    ensures exists c :: c in s.events && e in ParentsOf(s.events[c]) && s.depthCache[c] > s.depthCache[e]
  {
    var c :| c in ChildrenIn(s.events, e);
    DepthOverIsLargest(ParentsOf(s.events[c]), s.depthCache);
  }

  /** Every stored event is a tip or an ancestor of one. */
  lemma {:induction false} TipsCover(s: State, e: EventId) returns (tip: EventId)
    requires Consistent(s) && e in s.events
    ensures tip in Tips(s) && Reaches(s.events, tip, e)
    decreases set x | x in s.events && x in s.depthCache && s.depthCache[x] > s.depthCache[e]
  {
    assert s.depthCache.Keys == s.events.Keys;
    if e in Tips(s) {
      ReachesSelf(s.events, e);
      tip := e;
    } else {
      NotATip(s, e);
      hide Consistent, Reaches, Tips;
      var c :| c in s.events && e in ParentsOf(s.events[c]) && s.depthCache[c] > s.depthCache[e];
      var above := set x | x in s.events && x in s.depthCache && s.depthCache[x] > s.depthCache[e];
      assert c in above;
      tip := TipsCover(s, c);
      ReachesFurther(s.events, tip, c, e);
    }
  }

  lemma TipIsStored(s: State, tip: EventId)
    requires Consistent(s) && tip in Tips(s)
    ensures tip in s.events && tip in s.seenBy
  {
  }

  /** All tips seen means everything seen. */
  lemma SeenTipsMeanSeenAll(s: State, key: PublicKey)
    requires Consistent(s)
    requires forall tip | tip in Tips(s) :: key in s.seenBy[tip]
    ensures forall e | e in s.events :: e in s.seenBy && key in s.seenBy[e]
  {
    hide Consistent, Reaches, Tips;
    forall e | e in s.events ensures e in s.seenBy && key in s.seenBy[e] {
      StoredIsSeen(s, e);
      var tip := TipsCover(s, e);
      TipIsStored(s, tip);
      SeenGrowsTowardsAncestors(s, tip, e);
    }
  }

  lemma TipsEmpty(s: State)
    requires Consistent(s)
    ensures Tips(s) == {} <==> s.events == map[]
  {
    if e :| e in s.events {
      var tip := TipsCover(s, e);
    }
  }

  lemma ParentsAreNoTips(s: State)
    requires Consistent(s)
    ensures forall id, p | id in s.events && p in ParentsOf(s.events[id]) :: p !in Tips(s)
  {
    forall id, p | id in s.events && p in ParentsOf(s.events[id]) ensures p !in Tips(s) {
      assert id in ChildrenIn(s.events, p);
    }
  }

  // ---- inserting an ack ----

  /** An ack over nonempty tips cannot have been received before. */
  lemma AckIsFresh(s: State, key: PublicKey, ack: Event)
    requires Consistent(s) && Tips(s) != {} && IsAckOver(s, key, ack) && IdNames(Received(s), ack)
    ensures ack.id !in Received(s)
    ensures InsertOutcome(s, ack) == Inserted(ack.id)
  {
    var tip :| tip in Tips(s);
    assert tip in ParentsOf(ack);
    TipIsStored(s, tip);
    ParentsAreNoTips(s);
    assert AllParentsIn(ack, s.events.Keys);
  }

  lemma AckOverListedTips(s: State, key: PublicKey, tips: seq<EventId>, id: EventId)
    requires Consistent(s) && tips != [] && forall tip :: tip in tips <==> tip in Tips(s)
    ensures var ack := AckEvent(key, tips, id);
            && IsAckOver(s, key, ack) && Tips(s) != {}
            && (IdNames(Received(s), ack) ==>
                  ack.id !in Received(s) && InsertOutcome(s, ack) == Inserted(id))
  {
    hide Consistent, Tips, InsertOutcome, Received;
    var ack := AckEvent(key, tips, id);
    AckParents(key, tips, id);
    assert tips[0] in Tips(s);
    if IdNames(Received(s), ack) {
      AckIsFresh(s, key, ack);
    }
  }

  /** Once an ack over the tips of `s` counts in a later state `u`, its author has seen there
      everything that was stored in `s`. */
  lemma CountedAckCovers(s: State, key: PublicKey, ack: Event, u: State)
    requires Consistent(s) && Consistent(u) && Extends(u.events, s.events)
    requires IsAckOver(s, key, ack) && ack.id in u.counted && u.events[ack.id] == ack
    ensures forall e | e in s.events :: e in u.seenBy && key in u.seenBy[e]
  {
    assert ack.id in u.events && SeenExact(u.events, u.counted, u.seenBy) && ParentsStored(s.events);
    hide Consistent, Tips, Reaches, ParentsOf;
    forall e | e in s.events ensures e in u.seenBy && key in u.seenBy[e] {
      var tip := TipsCover(s, e);
      TipIsStored(s, tip);
      ReachesStable(u.events, s.events, tip, e);
      ReachesFromChild(u.events, ack.id, tip, e);
    }
  }

  lemma ReadyIsStored(s: State, ack: Event, t: State, u: State)
    requires Consistent(s) && Extends(t.events, s.events) && ack.id !in Received(t)
    requires forall p | p in ParentsOf(ack) :: p in Tips(s)
    requires InsertStep(t, ack, u) && Extends(u.events, t.events)
    ensures ack.id in u.events
  {
    StoredIsLeast(u);
    assert Absorbs(Received(u), u.events.Keys);
    assert Received(u)[ack.id] == ack;
    assert AllParentsIn(ack, u.events.Keys);
  }

  /** Inserting the ack, possibly after other events have arrived, stores it; if its author is a
      participant, that participant has then seen all that was stored when the ack was built. */
  lemma AckCovers(s: State, key: PublicKey, ack: Event, t: State, u: State)
    requires Consistent(s) && IsAckOver(s, key, ack)
    requires Consistent(t) && Extends(t.events, s.events) && ack.id !in Received(t)
    requires InsertStep(t, ack, u)
    ensures ack.id in u.events && Extends(u.events, t.events)
    ensures key in t.participants ==> forall e | e in s.events :: e in u.seenBy && key in u.seenBy[e]
  {
    InsertExtends(t, ack, u);
    ReadyIsStored(s, ack, t, u);
    assert u.events[ack.id] == Received(u)[ack.id] == ack;
    if key in t.participants {
      assert ack.id in NewlyCounted(t.events, u.events, t.participants);
      hide Consistent, Tips;
      CountedAckCovers(s, key, ack, u);
    }
  }

  /** An ack round: once more than `threshold` participants have counted acks over the tips of
      `s`, everything stored in `s` is canonical. */
  lemma AckRoundMakesCanonical(s: State, u: State, ackers: map<PublicKey, Event>, e: EventId)
    requires Consistent(s) && Consistent(u) && Extends(u.events, s.events)
    requires forall k | k in ackers ::
               IsAckOver(s, k, ackers[k]) && ackers[k].id in u.counted && u.events[ackers[k].id] == ackers[k]
    requires |ackers| > u.threshold && e in s.events
    ensures IsCanonical(u, e)
  {
    hide Consistent, IsAckOver, Extends;
    forall k | k in ackers.Keys ensures e in u.seenBy && k in u.seenBy[e] {
      CountedAckCovers(s, k, ackers[k], u);
    }
    assert |ackers.Keys| == |ackers| > 0;
    var k :| k in ackers.Keys;
    SubsetIsSmaller(ackers.Keys, u.seenBy[e]);
  }

  // ---- src/native_cli.rs ----

  lemma EventsAreSeen(s: State)
    requires Consistent(s)
    ensures forall e | e in s.events :: e in s.seenBy
    ensures forall tip | tip in Tips(s) :: tip in s.events
  {
  }

  /** `maybe_ack` up to publishing: an ack is built exactly when this node is a participant and
      has not yet seen some stored event, and it references all tips. */
  method MaybeAck(dag: Dag, own: PublicKey, idOf: seq<EventId> -> EventId) returns (ack: Option<Event>)
    requires dag.Valid()
    ensures ack.Some? <==> own in dag.participants && exists e :: e in dag.events && own !in dag.seenBy[e]
    ensures ack.Some? ==> IsAckOver(dag.View(), own, ack.value) && Tips(dag.View()) != {}
    ensures ack.Some? && IdNames(Received(dag.View()), ack.value) ==>
              InsertOutcome(dag.View(), ack.value) == Inserted(ack.value.id)
  {
    ghost var s := dag.View();
    EventsAreSeen(s);
    hide Consistent, Tips, IsAckOver, InsertOutcome, Received, IdNames;
    if own !in dag.participants {
      return None;
    }
    var tips := dag.ListTips();
    var unacked := [];
    for i := 0 to |tips|
      invariant forall id :: id in unacked <==> id in tips[..i] && (id in dag.seenBy ==> own !in dag.seenBy[id])
    {
      if tips[i] !in dag.seenBy || own !in dag.seenBy[tips[i]] {
        unacked := unacked + [tips[i]];
      }
    }
    assert tips[..|tips|] == tips;
    if unacked == [] {
      assert forall tip | tip in Tips(s) :: tip in tips && tip !in unacked;
      SeenTipsMeanSeenAll(s, own);
      return None;
    }
    assert unacked[0] in unacked;
    assert unacked[0] in tips && unacked[0] in dag.events;
    ack := Some(AckEvent(own, tips, idOf(tips)));
    AckOverListedTips(s, own, tips, idOf(tips));
  }

  /** For a node that is its own only participant, seen means canonical. */
  lemma SoleParticipantDecides(s: State, key: PublicKey, u: State)
    requires Consistent(u)
    requires u.participants == {key} ==> forall e | e in s.events :: e in u.seenBy && key in u.seenBy[e]
    ensures u.participants == {key} ==> forall e | e in s.events :: IsCanonical(u, e)
  {
    assert u.threshold == QuorumThreshold(|u.participants|);
    hide Consistent;
    forall e | e in s.events && u.participants == {key} ensures IsCanonical(u, e) {
      SubsetIsSmaller({key}, u.seenBy[e]);
    }
  }

  // ---- src/p2p_node.rs ----

  predicate ShouldAck(e: Event) {
    && e.kind != DAG_EVENT_KIND
    && e.kind != PIP_ATTEST_KIND
    && e.kind != PIP_SEAL_KIND
    && e.kind != PIP_JOIN_KIND
    && e.kind != TRANSFER_MANIFEST_KIND
    && e.kind != TRANSFER_SLICE_KIND
  }

  /** Acks and PIP events are never acknowledged, so acks do not provoke acks. */
  lemma ProtocolKindsAreNotAcked(e: Event)
    ensures ShouldAck(e) <==> e.kind != 21000 && !(39078 <= e.kind <= 39082)
    ensures forall key, tips, id :: !ShouldAck(AckEvent(key, tips, id))
  {
  }

  datatype PeerReaction = PeerReaction(
    outbound: seq<Event>,
    insertedEventId: Option<EventId>,
    canonicalCount: nat,
    tipCount: nat)

  class PeerRuntime {
    const key: PublicKey
    const participants: set<PublicKey>
    const dag: Dag

    ghost predicate Valid()
      reads this, dag
    {
      dag.Valid()
    }

    constructor (key: PublicKey, participants: set<PublicKey>)
      ensures this.key == key && this.participants == participants
      ensures fresh(dag) && Valid() && dag.View() == EmptyState(participants)
    {
      this.key := key;
      this.participants := participants;
      dag := new Dag(participants);
    }

    constructor WithSelfParticipation(key: PublicKey)
      ensures this.key == key && this.participants == {key}
      ensures fresh(dag) && Valid() && dag.View() == EmptyState({key})
    {
      this.key := key;
      participants := {key};
      dag := new Dag({key});
    }

    /** `message` is the decoded event, if the text decodes. `mid` is the state between the two
        insertions. */
    method ProcessInboundMessage(message: Option<Event>, idOf: seq<EventId> -> EventId)
      returns (reaction: PeerReaction, ghost mid: State)
      requires Valid()
      requires message.Some? ==> AckIdsName(ReceivedWith(dag.View(), message.value), key, idOf)
      modifies dag
      ensures Valid()
      ensures message == None ==> reaction.outbound == [] && mid == dag.View() == old(dag.View())
      ensures message.Some? ==> InsertStep(old(dag.View()), message.value, mid)
      ensures reaction.insertedEventId ==
              if message == None || message.value.id in Received(old(dag.View())) then None else Some(message.value.id)
      ensures reaction.outbound == [] ==> dag.View() == mid
      ensures reaction.outbound != [] <==> message.Some? && ShouldAck(message.value) && mid.events != map[]
      ensures reaction.outbound != [] ==>
                && |reaction.outbound| == 1
                && IsAckOver(mid, key, reaction.outbound[0])
                && InsertOutcome(mid, reaction.outbound[0]) == Inserted(reaction.outbound[0].id)
                && InsertStep(mid, reaction.outbound[0], dag.View())
      ensures reaction.outbound != [] && key in dag.participants ==>
                forall e | e in mid.events :: e in dag.seenBy && key in dag.seenBy[e]
      ensures reaction.outbound != [] && dag.participants == {key} ==>
                forall e | e in mid.events :: IsCanonical(dag.View(), e)
      ensures reaction.canonicalCount == |CanonicalIds(dag.View())|
      ensures reaction.tipCount == |Tips(dag.View())|
    {
      hide Consistent, InsertStep, IsCanonical, Tips, CanonicalIds, IsAckOver, ParentsOf, Received, EventIds, Absent;
      mid := dag.View();
      var outbound := [];
      var insertedEventId := None;
      if message.Some? {
        var event := message.value;
        ghost var before := dag.View();
        var result := dag.Insert(event);
        mid := dag.View();
        insertedEventId := match result
          case Inserted(id) => Some(id)
          case Buffered(id, _) => Some(id)
          case Duplicate => None;
        InsertReceives(before, event, mid);
        assert Received(mid) == ReceivedWith(before, event);
        TipsEmpty(mid);
        if ShouldAck(event) {
          var tips := dag.ListTips();
          if tips != [] {
            var ack := AckEvent(key, tips, idOf(tips));
            AckOverListedTips(mid, key, tips, idOf(tips));
            assert IdNames(Received(mid), ack);
            var _ := dag.Insert(ack);
            AckCovers(mid, key, ack, mid, dag.View());
            InsertReceives(mid, ack, dag.View());
            SoleParticipantDecides(mid, key, dag.View());
            outbound := [ack];
          } else {
            assert forall tip | tip in Tips(mid) :: tip in tips;
          }
        }
      }
      var canonical := dag.CanonicalEvents();
      var tips := dag.ListTips();
      ListingSize(canonical, CanonicalIds(dag.View()));
      ListingSize(tips, Tips(dag.View()));
      reaction := PeerReaction(outbound, insertedEventId, |canonical|, |tips|);
    }
  }
}
