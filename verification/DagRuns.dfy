/** What the steps of the DAG engine do to its state, and what holds over whole runs. */
module DagRuns {
  import opened Events
  import opened Graph
  import opened Ordering
  import opened DagState

  /** The events stored between `before` and `after` whose author is a participant. */
  ghost function NewlyCounted(before: Store, after: Store, participants: set<PublicKey>): set<EventId> {
    set id | id in after && id !in before && after[id].pubkey in participants
  }

  /** What is received once `e` has been handed in: of two events with one id, the first. */
  ghost function ReceivedWith(s: State, e: Event): Store {
    if e.id in Received(s) then Received(s) else Received(s)[e.id := e]
  }

  /** The contract of `insert`: the first event with an id is received, the state is the
      consistent one for what is now received, and newly stored events of participants count. */
  ghost predicate InsertStep(s: State, e: Event, t: State) {
    && Consistent(t)
    && t.participants == s.participants
    && Received(t) == ReceivedWith(s, e)
    && t.counted == s.counted + NewlyCounted(s.events, t.events, s.participants)
  }

  ghost predicate AddParticipantStep(s: State, key: PublicKey, t: State) {
    t == s.(participants := s.participants + {key},
            threshold := QuorumThreshold(|s.participants + {key}|))
  }

  /** `insert` has at most one outcome. */
  lemma InsertDetermined(s: State, e: Event, t: State, u: State)
    requires InsertStep(s, e, t) && InsertStep(s, e, u)
    ensures t == u
  {
    StoredDetermined(t, u);
    StateDetermined(t, u);
  }

  /** Receiving more never unstores an event. */
  lemma StoredGrows(s: State, t: State)
    requires Consistent(s) && Consistent(t) && Extends(Received(t), Received(s))
    ensures Extends(t.events, s.events)
  {
    StoredIsLeast(t);
    assert Absorbs(Received(s), t.events.Keys) by {
      forall id | id in Received(s) && AllParentsIn(Received(s)[id], t.events.Keys) ensures id in t.events {
        assert Received(t)[id] == Received(s)[id];
      }
    }
    StoredIsLeast(s);
    forall id | id in s.events ensures id in t.events && t.events[id] == s.events[id] {
      assert Received(t)[id] == t.events[id];
      assert Received(s)[id] == s.events[id];
    }
  }

  lemma InsertExtends(s: State, e: Event, t: State)
    requires Consistent(s) && InsertStep(s, e, t)
    ensures Extends(t.events, s.events)
  {
    hide Consistent;
    assert Extends(Received(t), Received(s));
    StoredGrows(s, t);
  }

  /** An insertion only adds to `seen_by`, so no event loses its canonical status. */
  lemma InsertKeepsCanonical(s: State, e: Event, t: State, id: EventId)
    requires Consistent(s) && InsertStep(s, e, t) && id in s.events
    ensures id in t.events && s.seenBy[id] <= t.seenBy[id]
    ensures IsCanonical(s, id) ==> IsCanonical(t, id)
  {
    InsertExtends(s, e, t);
    forall d | d in s.counted && Reaches(s.events, d, id) ensures Reaches(t.events, d, id) {
      ReachesStable(t.events, s.events, d, id);
    }
    SubsetIsSmaller(s.seenBy[id], t.seenBy[id]);
  }

  lemma InsertKeepsFixedMembership(s: State, e: Event, t: State)
    requires Consistent(s) && FixedMembership(s) && InsertStep(s, e, t)
    ensures FixedMembership(t) && Consistent(t) && t.participants == s.participants
  {
    InsertExtends(s, e, t);
  }

  // ---- add_participant ----

  lemma AddParticipantKeepsConsistent(s: State, key: PublicKey, t: State)
    requires Consistent(s) && AddParticipantStep(s, key, t)
    ensures Consistent(t)
  {
  }

  lemma BarRises(n: nat, seen: nat)
    requires seen <= n
    ensures seen > QuorumThreshold(n + 1) ==> seen > QuorumThreshold(n)
    ensures seen > QuorumThreshold(n) && !(seen > QuorumThreshold(n + 1)) <==>
            n > 0 && n % 5 != 4 && seen == Required(n)
  {
  }

  /** A new participant never makes an event canonical. It takes the status away exactly when the
      event was just at the bar and the bar rises. */
  lemma AddParticipantNeverGrants(s: State, key: PublicKey, t: State, id: EventId)
    requires Consistent(s) && AddParticipantStep(s, key, t) && key !in s.participants && id in s.events
    ensures IsCanonical(t, id) ==> IsCanonical(s, id)
    ensures var n := |s.participants|;
            IsCanonical(s, id) && !IsCanonical(t, id) <==>
            n > 0 && n % 5 != 4 && |s.seenBy[id]| == Required(n)
  {
    hide Consistent, QuorumThreshold, Required, IsCanonical;
    CanonicalBar(s, id);
    AddParticipantKeepsConsistent(s, key, t);
    CanonicalBar(t, id);
    assert |t.participants| == |s.participants| + 1;
    BarRises(|s.participants|, |s.seenBy[id]|);
  }

  // ---- runs ----

  datatype Op = InsertOp(event: Event) | AddOp(key: PublicKey)

  ghost predicate Step(s: State, op: Op, t: State) {
    match op
    case InsertOp(e) => InsertStep(s, e, t)
    case AddOp(k) => AddParticipantStep(s, k, t)
  }

  /** `run` lists the states an engine passes through while it handles `ops`. */
  ghost predicate IsRun(participants: set<PublicKey>, ops: seq<Op>, run: seq<State>) {
    && |run| == |ops| + 1
    && run[0] == EmptyState(participants)
    && forall i | 0 <= i < |ops| :: Step(run[i], ops[i], run[i + 1])
  }

  ghost predicate OnlyInserts(ops: seq<Op>) {
    forall i | 0 <= i < |ops| :: ops[i].InsertOp?
  }

  ghost function InsertedEvents(ops: seq<Op>): set<Event> {
    set op | op in ops && op.InsertOp? :: op.event
  }

  /** Ids are content hashes: within `events`, one id names one event. */
  ghost predicate IdsNameEvents(events: set<Event>) {
    forall e, f | e in events && f in events && e.id == f.id :: e == f
  }

  /** `received` files exactly the events of `events`, each under its id. */
  ghost predicate Files(received: Store, events: set<Event>) {
    && (forall id | id in received :: received[id] in events && received[id].id == id)
    && (forall e | e in events :: e.id in received && received[e.id] == e)
  }

  lemma {:induction false} RunConsistent(participants: set<PublicKey>, ops: seq<Op>, run: seq<State>)
    requires IsRun(participants, ops, run)
    ensures forall i | 0 <= i < |run| :: Consistent(run[i])
  {
    EmptyIsConsistent(participants);
    if |ops| == 0 {
    } else {
      var n := |ops| - 1;
      RunConsistent(participants, ops[..n], run[..n + 1]);
      assert Consistent(run[..n + 1][n]);
      assert Step(run[n], ops[n], run[n + 1]);
      if ops[n].AddOp? {
        AddParticipantKeepsConsistent(run[n], ops[n].key, run[n + 1]);
      }
      forall i | 0 <= i < |run| ensures Consistent(run[i]) {
        if i <= n { assert run[..n + 1][i] == run[i]; }
      }
    }
  }

  lemma InsertedEventsSnoc(ops: seq<Op>, op: Op)
    ensures InsertedEvents(ops + [op]) == InsertedEvents(ops) + if op.InsertOp? then {op.event} else {}
  {
    var all := ops + [op];
    assert forall o | o in ops :: o in all;
    assert op in all;
  }

  lemma AddParticipantReceivesNothing(s: State, key: PublicKey, t: State)
    requires Consistent(s) && AddParticipantStep(s, key, t)
    ensures Consistent(t) && Received(t) == Received(s)
  {
    AddParticipantKeepsConsistent(s, key, t);
  }

  lemma FilesOneMore(received: Store, events: set<Event>, e: Event)
    requires Files(received, events) && IdsNameEvents(events + {e})
    ensures Files(if e.id in received then received else received[e.id := e], events + {e})
  {
    if e.id in received {
      assert received[e.id] in events + {e};
    }
  }

  lemma InsertReceives(s: State, e: Event, t: State)
    requires InsertStep(s, e, t)
    ensures Consistent(t) && t.participants == s.participants
    ensures Received(t) == ReceivedWith(s, e)
  {
  }

  /** After any run the received events are those inserted, whoever joined in between. */
  lemma {:induction false} RunReceives(participants: set<PublicKey>, ops: seq<Op>, run: seq<State>)
    requires IsRun(participants, ops, run) && IdsNameEvents(InsertedEvents(ops))
    ensures Consistent(run[|ops|])
    ensures Files(Received(run[|ops|]), InsertedEvents(ops))
  {
    EmptyIsConsistent(participants);
    assert Files(Received(EmptyState(participants)), {});
    assert ops == [] ==> InsertedEvents(ops) == {};
    hide Consistent, Files, InsertStep, AddParticipantStep;
    if ops == [] {
    } else {
      var n := |ops| - 1;
      var earlier := InsertedEvents(ops[..n]);
      InsertedEventsSnoc(ops[..n], ops[n]);
      assert ops[..n] + [ops[n]] == ops;
      hide InsertedEvents;
      assert IsRun(participants, ops[..n], run[..n + 1]);
      RunReceives(participants, ops[..n], run[..n + 1]);
      var s, t := run[n], run[n + 1];
      assert Step(s, ops[n], t);
      match ops[n]
      case InsertOp(e) =>
        FilesOneMore(Received(s), earlier, e);
        InsertReceives(s, e, t);
      case AddOp(key) =>
        AddParticipantReceivesNothing(s, key, t);
    }
  }

  /** Insertions leave the membership as it was at the start. */
  lemma {:induction false} InsertionsFixMembership(participants: set<PublicKey>, ops: seq<Op>, run: seq<State>)
    requires IsRun(participants, ops, run) && OnlyInserts(ops)
    ensures Consistent(run[|ops|]) && FixedMembership(run[|ops|])
    ensures run[|ops|].participants == participants
  {
    EmptyIsConsistent(participants);
    hide Consistent, FixedMembership, InsertStep;
    if ops == [] {
    } else {
      var n := |ops| - 1;
      InsertionsFixMembership(participants, ops[..n], run[..n + 1]);
      assert Step(run[n], ops[n], run[n + 1]);
      InsertKeepsFixedMembership(run[n], ops[n].event, run[n + 1]);
    }
  }

  lemma FilesUnique(received: Store, other: Store, events: set<Event>)
    requires Files(received, events) && Files(other, events)
    ensures received == other
  {
  }

  /** What two states agree on when they received the same events: all but who has seen what. */
  ghost predicate SameStructure(s: State, t: State) {
    && s.events == t.events && s.pending == t.pending && s.waitingFor == t.waitingFor
    && s.children == t.children && s.depthCache == t.depthCache && Tips(s) == Tips(t)
  }

  lemma StructureDetermined(s: State, t: State)
    requires Consistent(s) && Consistent(t) && Received(s) == Received(t)
    ensures SameStructure(s, t)
  {
    StoredDetermined(s, t);
    hide WellKeyed, ParentsStored, DepthsExact, ChildrenExact, SeenExact, WaitingExact, AllParentsIn;
    DepthsUnique(s.events, s.depthCache, t.depthCache);
    ChildrenUnique(s.events, s.children, t.children);
    WaitingUnique(s.events, s.pending, s.waitingFor, t.waitingFor);
  }

  /** Two runs that insert the same events agree on the whole graph and the buffer, whatever the
      order, the repetitions, the initial members, and the members that join in between. */
  lemma StructureIndependence(participants1: set<PublicKey>, ops1: seq<Op>, run1: seq<State>,
                              participants2: set<PublicKey>, ops2: seq<Op>, run2: seq<State>)
    requires IsRun(participants1, ops1, run1) && IsRun(participants2, ops2, run2)
    requires InsertedEvents(ops1) == InsertedEvents(ops2) && IdsNameEvents(InsertedEvents(ops1))
    ensures SameStructure(run1[|ops1|], run2[|ops2|])
  {
    hide Consistent, IdsNameEvents, Files, SameStructure, Step;
    RunReceives(participants1, ops1, run1);
    RunReceives(participants2, ops2, run2);
    FilesUnique(Received(run1[|ops1|]), Received(run2[|ops2|]), InsertedEvents(ops1));
    StructureDetermined(run1[|ops1|], run2[|ops2|]);
  }

  /** Order independence: with a fixed membership, two runs that insert the same events, in any order
      and with any repetitions, end in the same state. */
  lemma OrderIndependence(participants: set<PublicKey>, ops1: seq<Op>, run1: seq<State>, ops2: seq<Op>, run2: seq<State>)
    requires IsRun(participants, ops1, run1) && OnlyInserts(ops1)
    requires IsRun(participants, ops2, run2) && OnlyInserts(ops2)
    requires InsertedEvents(ops1) == InsertedEvents(ops2) && IdsNameEvents(InsertedEvents(ops1))
    ensures run1[|ops1|] == run2[|ops2|]
  {
    hide Consistent, FixedMembership, IdsNameEvents, Files, Step;
    RunReceives(participants, ops1, run1);
    RunReceives(participants, ops2, run2);
    InsertionsFixMembership(participants, ops1, run1);
    InsertionsFixMembership(participants, ops2, run2);
    FilesUnique(Received(run1[|ops1|]), Received(run2[|ops2|]), InsertedEvents(ops1));
    StateDetermined(run1[|ops1|], run2[|ops2|]);
  }

  /** Hence any two peers that received the same events list the same canonical order. */
  lemma CanonicalOrderIndependent(participants: set<PublicKey>, ops1: seq<Op>, run1: seq<State>, ops2: seq<Op>, run2: seq<State>,
                                  order1: seq<EventId>, order2: seq<EventId>)
    requires IsRun(participants, ops1, run1) && OnlyInserts(ops1)
    requires IsRun(participants, ops2, run2) && OnlyInserts(ops2)
    requires InsertedEvents(ops1) == InsertedEvents(ops2) && IdsNameEvents(InsertedEvents(ops1))
    requires IsCanonicalOrder(run1[|ops1|], order1) && IsCanonicalOrder(run2[|ops2|], order2)
    ensures order1 == order2
  {
    hide IsCanonicalOrder, InsertedEvents, IdsNameEvents, Step;
    OrderIndependence(participants, ops1, run1, ops2, run2);
    CanonicalOrderUnique(run1[|ops1|], order1, order2);
  }

  // ---- one peer ahead of another ----

  /** `t` has stored and counted all that `s` has, under the same membership. */
  ghost predicate IsAhead(s: State, t: State) {
    && Consistent(s) && Consistent(t)
    && Extends(t.events, s.events) && s.counted <= t.counted
    && s.participants == t.participants
  }

  lemma {:induction false} DepthStays(s: State, t: State, id: EventId)
    requires IsAhead(s, t) && id in s.events
    ensures id in t.events && s.depthCache[id] == t.depthCache[id]
    decreases s.depthCache[id]
  {
    var parents := ParentsOf(s.events[id]);
    DepthOverIsLargest(parents, s.depthCache);
    assert id in t.events;
    assert ParentsStored(s.events);
    assert forall p | p in parents :: p in s.events && s.depthCache[p] < s.depthCache[id];
    assert s.depthCache[id] == DepthOver(parents, s.depthCache) && t.depthCache[id] == DepthOver(parents, t.depthCache);
    hide DepthOver, ParentsOf;
    forall p | p in parents ensures p in t.depthCache && s.depthCache[p] == t.depthCache[p] {
      DepthStays(s, t, p);
    }
    DepthOverIgnoresOthers(parents, s.depthCache, t.depthCache);
  }

  lemma CanonicalStays(s: State, t: State, id: EventId)
    requires IsAhead(s, t) && id in CanonicalIds(s)
    ensures id in CanonicalIds(t)
  {
    assert s.threshold == t.threshold == QuorumThreshold(|s.participants|);
    forall d | d in s.counted && Reaches(s.events, d, id) ensures Reaches(t.events, d, id) {
      ReachesStable(t.events, s.events, d, id);
    }
    assert s.seenBy[id] <= t.seenBy[id];
    SubsetIsSmaller(s.seenBy[id], t.seenBy[id]);
  }

  lemma StoredHasDepth(s: State, id: EventId)
    requires Consistent(s) && id in CanonicalIds(s)
    ensures id in s.events && id in s.depthCache
  {
  }

  /** The canonical order of a peer that is behind is that of the peer ahead, restricted to what is
      canonical for the former: being ahead inserts events, but never swaps or drops any. */
  lemma CanonicalOrderStays(s: State, t: State, shorter: seq<EventId>, longer: seq<EventId>)
    requires IsAhead(s, t) && IsCanonicalOrder(s, shorter) && IsCanonicalOrder(t, longer)
    ensures shorter == Restrict(longer, CanonicalIds(s))
  {
    var before := Before(t.depthCache);
    hide Restrict, IsCanonical, CanonicalIds, Consistent;
    forall id | id in CanonicalIds(s)
      ensures id in CanonicalIds(t) && SortDepth(s.depthCache, id) == SortDepth(t.depthCache, id)
    {
      CanonicalStays(s, t, id);
      StoredHasDepth(s, id);
      StoredHasDepth(t, id);
      DepthStays(s, t, id);
    }
    hide IsAhead, SortDepth;
    BeforeIsStrictOrder(t.depthCache);
    RestrictAscending(before, longer, CanonicalIds(s));
    forall i, j | 0 <= i < j < |shorter| ensures before(shorter[i], shorter[j]) {
      assert shorter[i] in shorter && shorter[j] in shorter;
      assert Before(s.depthCache)(shorter[i], shorter[j]);
    }
    AscendingUnique(before, shorter, Restrict(longer, CanonicalIds(s)));
  }

  lemma FilesExtend(received: Store, more: Store, events: set<Event>, moreEvents: set<Event>)
    requires Files(received, events) && Files(more, moreEvents) && events <= moreEvents
    ensures Extends(more, received)
  {
  }

  lemma AheadOfFixed(s: State, t: State)
    requires Consistent(s) && Consistent(t) && FixedMembership(s) && FixedMembership(t)
    requires s.participants == t.participants && Extends(Received(t), Received(s))
    ensures IsAhead(s, t)
  {
    StoredGrows(s, t);
    hide Consistent;
  }

  /** With a fixed membership, a peer that has inserted more events lists the canonical order of one
      that has inserted fewer with further events in between. */
  lemma CanonicalOrderOnlyGrows(participants: set<PublicKey>, ops1: seq<Op>, run1: seq<State>, ops2: seq<Op>,
                                run2: seq<State>, order1: seq<EventId>, order2: seq<EventId>)
    requires IsRun(participants, ops1, run1) && OnlyInserts(ops1)
    requires IsRun(participants, ops2, run2) && OnlyInserts(ops2)
    requires InsertedEvents(ops1) <= InsertedEvents(ops2) && IdsNameEvents(InsertedEvents(ops2))
    requires IsCanonicalOrder(run1[|ops1|], order1) && IsCanonicalOrder(run2[|ops2|], order2)
    ensures IsAhead(run1[|ops1|], run2[|ops2|])
    ensures order1 == Restrict(order2, CanonicalIds(run1[|ops1|]))
  {
    var s, t := run1[|ops1|], run2[|ops2|];
    assert IdsNameEvents(InsertedEvents(ops1));
    hide Consistent, FixedMembership, IdsNameEvents, Files, Step, IsCanonicalOrder, Restrict, CanonicalIds, IsAhead, Extends;
    RunReceives(participants, ops1, run1);
    RunReceives(participants, ops2, run2);
    InsertionsFixMembership(participants, ops1, run1);
    InsertionsFixMembership(participants, ops2, run2);
    FilesExtend(Received(s), Received(t), InsertedEvents(ops1), InsertedEvents(ops2));
    AheadOfFixed(s, t);
    CanonicalOrderStays(s, t, order1, order2);
  }

  // ---- growth along a run ----

  lemma RunExtended(participants: set<PublicKey>, ops: seq<Op>, run: seq<State>, op: Op, t: State)
    requires IsRun(participants, ops, run) && Step(run[|ops|], op, t)
    ensures IsRun(participants, ops + [op], run + [t])
  {
    hide Step;
    var ops', run' := ops + [op], run + [t];
    forall i | 0 <= i < |ops'| ensures Step(run'[i], ops'[i], run'[i + 1]) {
    }
  }

  lemma StepOnlyGrows(s: State, op: Op, t: State, id: EventId)
    requires Consistent(s) && Step(s, op, t) && id in s.events
    ensures id in t.events && id in s.seenBy && id in t.seenBy && s.seenBy[id] <= t.seenBy[id]
    ensures s.participants <= t.participants
    ensures IsCanonical(s, id) && t.participants == s.participants ==> IsCanonical(t, id)
  {
    assert s.threshold == QuorumThreshold(|s.participants|);
    if op.InsertOp? {
      InsertKeepsCanonical(s, op.event, t, id);
    }
  }

  /** Over any run, with members joining at any point, what was stored stays stored and what was
      seen stays seen; canonical status is only ever lost to a growing membership. */
  lemma {:induction false} RunOnlyGrows(participants: set<PublicKey>, ops: seq<Op>, run: seq<State>, i: nat, j: nat, id: EventId)
    requires IsRun(participants, ops, run) && i <= j < |run| && id in run[i].events
    ensures id in run[j].events && id in run[i].seenBy && id in run[j].seenBy
    ensures run[i].seenBy[id] <= run[j].seenBy[id] <= run[j].participants
    ensures run[i].participants <= run[j].participants
    ensures IsCanonical(run[i], id) && run[j].participants == run[i].participants ==> IsCanonical(run[j], id)
    decreases j - i
  {
    hide Consistent, Step, IsCanonical;
    RunConsistent(participants, ops, run);
    if i < j {
      assert Step(run[i], ops[i], run[i + 1]);
      StepOnlyGrows(run[i], ops[i], run[i + 1], id);
      RunOnlyGrows(participants, ops, run, i + 1, j, id);
    } else {
      StoredIsSeen(run[i], id);
      SeenByWithinParticipants(run[i], id);
    }
  }
}
