/** The state of the DAG engine (src/dag.rs) as a value, its invariant, and what follows
    from the invariant alone. The engine itself is the class in Dag.dfy. */
module DagState {
  import opened Events
  import opened Graph
  import opened Ordering

  datatype State = State(
    events: Store,
    seenBy: map<EventId, set<PublicKey>>,
    participants: set<PublicKey>,
    threshold: nat,
    depthCache: map<EventId, nat>,
    children: map<EventId, set<EventId>>,
    pending: Store,
    waitingFor: map<EventId, set<EventId>>,
    // Not in the source: the stored events whose author was a participant on arrival.
    counted: set<EventId>)

  /** `div_ceil(4n, 5)` */
  function Required(n: nat): nat {
    (n * 4 + 4) / 5
  }

  function QuorumThreshold(n: nat): nat {
    if Required(n) == 0 then 0 else Required(n) - 1
  }

  /** Everything handed to `insert` so far, duplicates dropped. */
  ghost function Received(s: State): Store {
    s.events + s.pending
  }

  // ---- the invariant, field by field ----

  /** The events of `store` that have `p` as a parent. */
  ghost function ChildrenIn(store: Store, p: EventId): set<EventId> {
    set id | id in store && p in ParentsOf(store[id])
  }

  ghost predicate ChildrenExact(store: Store, children: map<EventId, set<EventId>>) {
    && (forall p :: p in children <==> ChildrenIn(store, p) != {})
    && forall p | p in children :: children[p] == ChildrenIn(store, p)
  }

  /** The authors of counted events that are `e` or descend from it. */
  ghost function Witnesses(store: Store, counted: set<EventId>, e: EventId): set<PublicKey> {
    set d | d in counted && d in store && Reaches(store, d, e) :: store[d].pubkey
  }

  ghost predicate SeenExact(store: Store, counted: set<EventId>, seenBy: map<EventId, set<PublicKey>>) {
    && counted <= store.Keys
    && seenBy.Keys == store.Keys
    && forall e | e in store :: seenBy[e] == Witnesses(store, counted, e)
  }

  ghost predicate WaitingExact(store: Store, pending: Store, waitingFor: map<EventId, set<EventId>>) {
    && (forall p :: p in waitingFor <==> p !in store && ChildrenIn(pending, p) != {})
    && forall p | p in waitingFor :: waitingFor[p] == ChildrenIn(pending, p)
  }

  ghost predicate AllParentsIn(e: Event, ids: set<EventId>) {
    forall p | p in ParentsOf(e) :: p in ids
  }

  /** The part of the invariant that storing one ready event keeps. */
  ghost predicate StoredPart(s: State) {
    && WellKeyed(s.events) && ParentsStored(s.events)
    && DepthsExact(s.events, s.depthCache)
    && ChildrenExact(s.events, s.children)
    && SeenExact(s.events, s.counted, s.seenBy)
    && (forall d | d in s.counted :: s.events[d].pubkey in s.participants)
    && s.threshold == QuorumThreshold(|s.participants|)
  }

  /** The buffer; a pending event may have all its parents stored only while it is in `todo`. */
  ghost predicate BufferExact(store: Store, pending: Store, waitingFor: map<EventId, set<EventId>>, todo: seq<EventId>) {
    && WellKeyed(pending)
    && store.Keys !! pending.Keys
    && WaitingExact(store, pending, waitingFor)
    && forall id | id in pending && AllParentsIn(pending[id], store.Keys) :: id in todo
  }

  ghost predicate Consistent(s: State) {
    StoredPart(s) && BufferExact(s.events, s.pending, s.waitingFor, [])
  }

  /** No event was stored before its author became a participant. */
  ghost predicate FixedMembership(s: State) {
    s.counted == set id | id in s.events && s.events[id].pubkey in s.participants
  }

  ghost function EmptyState(participants: set<PublicKey>): State {
    State(map[], map[], participants, QuorumThreshold(|participants|), map[], map[], map[], map[], {})
  }

  lemma EmptyIsConsistent(participants: set<PublicKey>)
    ensures Consistent(EmptyState(participants)) && FixedMembership(EmptyState(participants))
  {
  }

  // ---- queries ----

  predicate IsCanonical(s: State, id: EventId) {
    id in s.seenBy && |s.seenBy[id]| > s.threshold
  }

  function CanonicalIds(s: State): set<EventId> {
    set id | id in s.events && IsCanonical(s, id)
  }

  function Tips(s: State): set<EventId> {
    set id | id in s.events && (id !in s.children || s.children[id] == {})
  }

  function SortDepth(cache: map<EventId, nat>, id: EventId): nat {
    if id in cache then cache[id] else 0
  }

  /** The order on ids that `canonical_order` sorts by. */
  function Before(cache: map<EventId, nat>): (EventId, EventId) -> bool {
    (a: EventId, b: EventId) =>
      SortDepth(cache, a) < SortDepth(cache, b) || (SortDepth(cache, a) == SortDepth(cache, b) && a < b)
  }

  ghost predicate IsCanonicalOrder(s: State, order: seq<EventId>) {
    && Ascending(Before(s.depthCache), order)
    && forall id :: id in order <==> id in CanonicalIds(s)
  }

  // ---- buffering: exactly the least closed set is stored ----

  /** `ids` contains every received event whose parents it contains. */
  ghost predicate Absorbs(received: Store, ids: set<EventId>) {
    forall id | id in received && AllParentsIn(received[id], ids) :: id in ids
  }

  ghost predicate IsLeastAbsorbing(received: Store, ids: set<EventId>) {
    && ids <= received.Keys
    && Absorbs(received, ids)
    && forall other: set<EventId> | Absorbs(received, other) :: ids <= other
  }

  lemma {:induction false} StoredIsAbsorbed(s: State, other: set<EventId>, id: EventId)
    requires Consistent(s) && Absorbs(Received(s), other) && id in s.events
    ensures id in other
    decreases s.depthCache[id]
  {
    DepthOverIsLargest(ParentsOf(s.events[id]), s.depthCache);
    forall p | p in ParentsOf(s.events[id]) ensures p in other {
      assert p in s.events;
      StoredIsAbsorbed(s, other, p);
    }
    assert Received(s)[id] == s.events[id];
    assert AllParentsIn(Received(s)[id], other);
  }

  /** The stored ids are the least set closed under "received, with all parents in the set". */
  lemma StoredIsLeast(s: State)
    requires Consistent(s)
    ensures IsLeastAbsorbing(Received(s), s.events.Keys)
  {
    forall other: set<EventId> | Absorbs(Received(s), other) ensures s.events.Keys <= other {
      forall id | id in s.events ensures id in other { StoredIsAbsorbed(s, other, id); }
    }
    forall id | id in Received(s) && AllParentsIn(Received(s)[id], s.events.Keys) ensures id in s.events {
      assert id in s.events || id in s.pending;
    }
  }

  lemma StoredAndPendingApart(s: State)
    requires Consistent(s)
    ensures s.events.Keys !! s.pending.Keys
  {
  }

  lemma LeastAbsorbs(s: State)
    requires Consistent(s)
    ensures Absorbs(Received(s), s.events.Keys)
  {
    StoredIsLeast(s);
  }

  /** A received event whose parents are all stored is stored itself. */
  lemma ReceivedAndReadyIsStored(s: State, e: Event)
    requires Consistent(s) && e.id in Received(s) && Received(s)[e.id] == e
    requires AllParentsIn(e, s.events.Keys)
    ensures e.id in s.events && s.events[e.id] == e
  {
    hide Consistent, AllParentsIn;
    LeastAbsorbs(s);
    StoredAndPendingApart(s);
  }

  /** Tips are the stored events that no stored event has as a parent. */
  lemma TipIffNoChild(s: State, id: EventId)
    requires Consistent(s)
    ensures id in Tips(s) <==> id in s.events && ChildrenIn(s.events, id) == {}
    ensures id in Tips(s) <==> id in s.events && forall c | c in s.events :: id !in ParentsOf(s.events[c])
  {
    if id in s.events && (forall c | c in s.events :: id !in ParentsOf(s.events[c])) {
      assert ChildrenIn(s.events, id) == {};
    }
    if c :| c in s.events && id in ParentsOf(s.events[c]) {
      assert c in ChildrenIn(s.events, id);
    }
  }

  /** What is requested from peers is exactly the absent parents of buffered events. */
  lemma MissingParentsExact(s: State, p: EventId)
    requires Consistent(s)
    ensures p in s.waitingFor.Keys <==>
            p !in s.events && exists id :: id in s.pending && p in ParentsOf(s.pending[id])
  {
    if p in s.waitingFor.Keys {
      var id :| id in ChildrenIn(s.pending, p);
    }
    if id :| id in s.pending && p in ParentsOf(s.pending[id]) {
      assert id in ChildrenIn(s.pending, p);
    }
  }

  // ---- seen_by ----

  /** Whoever has seen an event has seen all its ancestors. */
  lemma SeenGrowsTowardsAncestors(s: State, child: EventId, ancestor: EventId)
    requires Consistent(s) && child in s.events && ancestor in s.events
    requires Reaches(s.events, child, ancestor)
    ensures s.seenBy[child] <= s.seenBy[ancestor]
  {
    forall d | d in s.counted && Reaches(s.events, d, child) ensures Reaches(s.events, d, ancestor) {
      ReachesTransitive(s.events, d, child, ancestor);
    }
  }

  /** With fixed membership, an event is seen by exactly the participants that wrote it or a
      stored descendant of it. */
  lemma SeenByExact(s: State, e: EventId, k: PublicKey)
    requires Consistent(s) && FixedMembership(s) && e in s.events
    ensures k in s.seenBy[e] <==>
            k in s.participants && exists d :: d in s.events && Reaches(s.events, d, e) && s.events[d].pubkey == k
  {
  }

  lemma StoredIsSeen(s: State, e: EventId)
    requires Consistent(s) && e in s.events
    ensures e in s.seenBy
  {
  }

  lemma SeenByWithinParticipants(s: State, e: EventId)
    requires Consistent(s) && e in s.seenBy
    ensures s.seenBy[e] <= s.participants
  {
  }

  // ---- the state is a function of what was received ----

  lemma LeastUnique(received: Store, a: set<EventId>, b: set<EventId>)
    requires IsLeastAbsorbing(received, a) && IsLeastAbsorbing(received, b)
    ensures a == b
  {
  }

  lemma SplitUnique(store: Store, pending: Store, store': Store, pending': Store)
    requires store.Keys !! pending.Keys && store'.Keys !! pending'.Keys
    requires store + pending == store' + pending' && store.Keys == store'.Keys
    ensures store == store' && pending == pending'
  {
    var received := store + pending;
    assert pending.Keys == received.Keys - store.Keys == pending'.Keys;
    assert forall id | id in store :: store[id] == received[id] == (store' + pending')[id] == store'[id];
    assert forall id | id in pending :: pending[id] == received[id] == (store' + pending')[id] == pending'[id];
  }

  /** What is stored and what is buffered depend only on what was received. */
  lemma StoredDetermined(s: State, t: State)
    requires Consistent(s) && Consistent(t) && Received(s) == Received(t)
    ensures s.events == t.events && s.pending == t.pending
  {
    StoredIsLeast(s);
    StoredIsLeast(t);
    LeastUnique(Received(s), s.events.Keys, t.events.Keys);
    hide IsLeastAbsorbing, StoredPart, WaitingExact, AllParentsIn, WellKeyed;
    SplitUnique(s.events, s.pending, t.events, t.pending);
  }

  lemma ChildrenUnique(store: Store, a: map<EventId, set<EventId>>, b: map<EventId, set<EventId>>)
    requires ChildrenExact(store, a) && ChildrenExact(store, b)
    ensures a == b
  {
    hide ChildrenIn;
    assert a.Keys == b.Keys;
  }

  lemma WaitingUnique(store: Store, pending: Store, a: map<EventId, set<EventId>>, b: map<EventId, set<EventId>>)
    requires WaitingExact(store, pending, a) && WaitingExact(store, pending, b)
    ensures a == b
  {
    hide ChildrenIn;
    assert a.Keys == b.Keys;
  }

  lemma SeenUnique(store: Store, counted: set<EventId>, a: map<EventId, set<PublicKey>>, b: map<EventId, set<PublicKey>>)
    requires SeenExact(store, counted, a) && SeenExact(store, counted, b)
    ensures a == b
  {
    hide Witnesses;
  }

  /** Two consistent engines that received the same events agree on every field. */
  lemma StateDetermined(s: State, t: State)
    requires Consistent(s) && Consistent(t)
    requires Received(s) == Received(t) && s.participants == t.participants
    requires s.counted == t.counted || (FixedMembership(s) && FixedMembership(t))
    ensures s == t
  {
    hide WellKeyed, ParentsStored, DepthsExact, ChildrenExact, SeenExact, WaitingExact, AllParentsIn;
    StoredDetermined(s, t);
    DepthsUnique(s.events, s.depthCache, t.depthCache);
    ChildrenUnique(s.events, s.children, t.children);
    WaitingUnique(s.events, s.pending, s.waitingFor, t.waitingFor);
    SeenUnique(s.events, s.counted, s.seenBy, t.seenBy);
  }

  // ---- canonical order ----

  lemma BeforeIsStrictOrder(cache: map<EventId, nat>)
    ensures Asymmetric(Before(cache)) && Transitive(Before(cache))
  {
  }

  lemma CanonicalOrderUnique(s: State, a: seq<EventId>, b: seq<EventId>)
    requires IsCanonicalOrder(s, a) && IsCanonicalOrder(s, b)
    ensures a == b
  {
    BeforeIsStrictOrder(s.depthCache);
    AscendingUnique(Before(s.depthCache), a, b);
  }

  /** In a canonical order, of any two events the one of smaller depth comes first, and of two of equal
      depth the one with the smaller id. */
  lemma CanonicalOrderPositions(s: State, order: seq<EventId>)
    requires Consistent(s) && IsCanonicalOrder(s, order)
    ensures forall i | 0 <= i < |order| :: order[i] in s.depthCache
    ensures forall i, j | 0 <= i < j < |order| && order[i] in s.depthCache && order[j] in s.depthCache ::
              || s.depthCache[order[i]] < s.depthCache[order[j]]
              || (s.depthCache[order[i]] == s.depthCache[order[j]] && order[i] < order[j])
  {
    assert s.depthCache.Keys == s.events.Keys;
    hide Consistent, IsCanonical;
    forall i | 0 <= i < |order| ensures order[i] in s.depthCache {
      assert order[i] in order;
    }
  }

  lemma SubsetIsSmaller<T>(a: set<T>, b: set<T>)
    requires a <= b
    ensures |a| <= |b|
  {
    assert b == a + (b - a);
  }

  lemma AncestorsAreCanonical(s: State, e: EventId, ancestor: EventId)
    requires Consistent(s) && e in CanonicalIds(s) && Reaches(s.events, e, ancestor)
    ensures ancestor in CanonicalIds(s)
  {
    SeenGrowsTowardsAncestors(s, e, ancestor);
    SubsetIsSmaller(s.seenBy[e], s.seenBy[ancestor]);
  }

  lemma AncestorIsBefore(s: State, e: EventId, ancestor: EventId)
    requires Consistent(s) && e in s.events && ancestor != e && Reaches(s.events, e, ancestor)
    ensures Before(s.depthCache)(ancestor, e)
  {
    hide ChildrenExact, SeenExact, BufferExact, WellKeyed;
    ProperAncestorIsShallower(s.events, s.depthCache, e, ancestor);
  }

  /** Every ancestor of a listed event is listed, and earlier. */
  lemma CanonicalOrderIsLinearExtension(s: State, order: seq<EventId>, j: nat, ancestor: EventId)
    requires Consistent(s) && IsCanonicalOrder(s, order)
    requires j < |order| && ancestor != order[j] && Reaches(s.events, order[j], ancestor)
    ensures exists i :: 0 <= i < j && order[i] == ancestor
    ensures forall i | 0 <= i < |order| && i != j :: order[i] != order[j]
  {
    hide Consistent, Reaches, Before, IsCanonical;
    assert order[j] in CanonicalIds(s);
    AncestorsAreCanonical(s, order[j], ancestor);
    AncestorIsBefore(s, order[j], ancestor);
    BeforeIsStrictOrder(s.depthCache);
    AscendingPosition(Before(s.depthCache), order, ancestor, j);
  }

  // ---- quorum arithmetic ----

  /** The threshold is the largest count short of 4/5, and 0 without participants. */
  lemma ThresholdIsBelowFourFifths(n: nat, k: nat)
    ensures n > 0 ==> (k > QuorumThreshold(n) <==> 5 * k >= 4 * n)
    ensures QuorumThreshold(0) == 0
    ensures Required(n) == QuorumThreshold(n) + if n == 0 then 0 else 1
  {
  }

  lemma CanonicalBar(s: State, e: EventId)
    requires Consistent(s) && e in s.events
    ensures e in s.seenBy && |s.seenBy[e]| <= |s.participants|
    ensures IsCanonical(s, e) <==> |s.seenBy[e]| > QuorumThreshold(|s.participants|)
  {
    StoredIsSeen(s, e);
    SeenByWithinParticipants(s, e);
    SubsetIsSmaller(s.seenBy[e], s.participants);
    hide DepthsExact, ChildrenExact, SeenExact, ParentsStored, WellKeyed, BufferExact;
  }

  /** Canonical means seen by at least 4/5 of the participants; without participants, nothing is. */
  lemma CanonicalMeansFourFifths(s: State, e: EventId)
    requires Consistent(s) && e in s.events
    ensures s.participants == {} ==> !IsCanonical(s, e)
    ensures s.participants != {} ==>
            (IsCanonical(s, e) <==> 5 * |s.seenBy[e]| >= 4 * |s.participants|)
  {
    hide Consistent, IsCanonical;
    CanonicalBar(s, e);
  }

  lemma OverlapAtLeast<T>(a: set<T>, b: set<T>, whole: set<T>)
    requires a <= whole && b <= whole
    ensures |a * b| >= |a| + |b| - |whole|
  {
    assert |a + b| == |a| + |b| - |a * b|;
    SubsetIsSmaller(a + b, whole);
  }

  lemma RequiredIsFourFifths(n: nat, k: nat)
    requires QuorumThreshold(n) < k <= n
    ensures k >= Required(n) && n > 0 && 5 * Required(n) >= 4 * n
  {
  }

  /** Any two canonical events were seen by a common 3/5 of the participants. */
  lemma CanonicalEventsOverlap(s: State, e: EventId, f: EventId)
    requires Consistent(s) && e in CanonicalIds(s) && f in CanonicalIds(s)
    ensures var n := |s.participants|;
            && |s.seenBy[e] * s.seenBy[f]| >= 2 * Required(n) - n
            && 5 * (2 * Required(n) - n) >= 3 * n
            && n > 0
  {
    hide Consistent, IsCanonical, Required, QuorumThreshold;
    CanonicalBar(s, e);
    CanonicalBar(s, f);
    SeenByWithinParticipants(s, e);
    SeenByWithinParticipants(s, f);
    OverlapAtLeast(s.seenBy[e], s.seenBy[f], s.participants);
    RequiredIsFourFifths(|s.participants|, |s.seenBy[e]|);
    RequiredIsFourFifths(|s.participants|, |s.seenBy[f]|);
  }
}
