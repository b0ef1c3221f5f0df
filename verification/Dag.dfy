/** The DAG engine of src/dag.rs: an object whose methods update eight maps and sets. */
module DagEngine {
  import opened Events
  import opened Graph
  import opened Ordering
  import opened DagState
  import opened DagRuns

  datatype InsertResult =
    | Inserted(id: EventId)
    | Buffered(eventId: EventId, missing: seq<EventId>)
    | Duplicate

  /** The parents that are not stored, in tag order, repetitions included. */
  function Absent(parents: seq<EventId>, store: Store): (missing: seq<EventId>)
    ensures missing == [] <==> forall p | p in parents :: p in store
    ensures forall p :: p in missing <==> p in parents && p !in store
  {
    if parents == [] then []
    else
      var rest := Absent(parents[1..], store);
      if parents[0] in store then rest else [parents[0]] + rest
  }

  /** `at` lists the places in tag order where `parents` names an event that is not stored. */
  ghost predicate ListsAbsent(parents: seq<EventId>, store: Store, at: seq<nat>) {
    && Positions(parents, at)
    && (forall i, j | 0 <= i < j < |at| :: at[i] < at[j])
    && forall p: nat | p < |parents| :: p in at <==> parents[p] !in store
  }

  lemma ListsAbsentFront(parents: seq<EventId>, store: Store, rest: seq<nat>, at: seq<nat>)
    requires parents != [] && ListsAbsent(parents[1..], store, rest)
    requires at == (if parents[0] !in store then [0] else []) + Shifted(rest)
    ensures ListsAbsent(parents, store, at)
  {
    assert Positions(parents, at);
    forall p: nat | p < |parents| ensures p in at <==> parents[p] !in store {
      ShiftedElements(rest, p);
      if p > 0 { assert parents[p] == parents[1..][p - 1]; }
    }
  }

  /** What is reported missing is every absent parent, in tag order and as often as it is named. */
  lemma {:induction false} AbsentInOrder(parents: seq<EventId>, store: Store) returns (at: seq<nat>)
    ensures ListsAbsent(parents, store, at) && Absent(parents, store) == Picked(parents, at)
  {
    if parents == [] {
      at := [];
    } else {
      var rest := AbsentInOrder(parents[1..], store);
      at := (if parents[0] !in store then [0] else []) + Shifted(rest);
      ListsAbsentFront(parents, store, rest, at);
      PickedFront(parents, rest, parents[0] !in store);
      hide ListsAbsent;
    }
  }

  /** `entry(key).or_default()` */
  function OrEmpty<T>(rows: map<EventId, set<T>>, key: EventId): set<T> {
    if key in rows then rows[key] else {}
  }

  ghost function InsertOutcome(s: State, e: Event): InsertResult {
    if e.id in Received(s) then Duplicate
    else if AllParentsIn(e, s.events.Keys) then Inserted(e.id)
    else Buffered(e.id, Absent(ParentsOf(e), s.events))
  }

  /** What marking does to `seen_by`: `key` is added at `id` and at all its ancestors. */
  ghost function Marked(store: Store, seen: map<EventId, set<PublicKey>>, id: EventId, key: PublicKey):
    map<EventId, set<PublicKey>>
  {
    map x | x in seen :: if Reaches(store, id, x) then seen[x] + {key} else seen[x]
  }

  /** `to` is `from` with `id` added to the row of every key in `keys`. */
  ghost predicate RowsExtended(from: map<EventId, set<EventId>>, to: map<EventId, set<EventId>>,
                               keys: seq<EventId>, id: EventId)
  {
    && (forall p :: p in to <==> p in from || p in keys)
    && forall p | p in to ::
         to[p] == OrEmpty(from, p) + (if p in keys then {id} else {})
  }

  ghost function Unmarked(seen: map<EventId, set<PublicKey>>, key: PublicKey): set<EventId> {
    set x | x in seen && key !in seen[x]
  }

  /** Once `key` has seen an event it has seen the parents. */
  ghost predicate SeenPassesToParents(store: Store, seen: map<EventId, set<PublicKey>>, key: PublicKey) {
    forall x, p | x in store && x in seen && key in seen[x] && p in ParentsOf(store[x]) :: p in seen && key in seen[p]
  }

  // ---- why the methods keep the invariant ----

  lemma AddParticipantOutcome(s: State, key: PublicKey)
    requires Consistent(s)
    ensures key in s.participants ==> AddParticipantStep(s, key, s)
    ensures forall t | AddParticipantStep(s, key, t) :: Consistent(t)
  {
    assert s.threshold == QuorumThreshold(|s.participants|);
    assert key in s.participants ==> s.participants + {key} == s.participants;
    forall t | AddParticipantStep(s, key, t) ensures Consistent(t) {
      AddParticipantKeepsConsistent(s, key, t);
    }
    hide Consistent;
  }

  lemma SortedIsCanonicalOrder(s: State, canonical: seq<EventId>)
    requires NoDuplicates(canonical) && forall id :: id in canonical <==> id in CanonicalIds(s)
    ensures IsCanonicalOrder(s, Sort(Before(s.depthCache), canonical))
  {
    var order := Sort(Before(s.depthCache), canonical);
    BeforeIsStrictOrder(s.depthCache);
    SortAscending(Before(s.depthCache), canonical);
    MultisetElements(order, canonical);
  }

  /** The loop of `process_unblocked`: nothing received is lost, and only ids in `todo` can be ready. */
  ghost predicate Unblocking(start: State, s: State, todo: seq<EventId>) {
    && StoredPart(s)
    && BufferExact(s.events, s.pending, s.waitingFor, todo)
    && s.participants == start.participants
    && Received(s) == Received(start)
    && Extends(s.events, start.events)
    && s.counted == start.counted + NewlyCounted(start.events, s.events, s.participants)
  }

  /** The loop of `mark_seen_by_ancestors`: only ancestors of `id` get marked, and the parents of
      whatever is marked are marked or on the stack. */
  ghost predicate MarkInvariant(store: Store, before: map<EventId, set<PublicKey>>, seen: map<EventId, set<PublicKey>>,
                                stack: seq<EventId>, id: EventId, key: PublicKey)
  {
    && before.Keys == seen.Keys == store.Keys
    && (forall x | x in stack :: x in store && Reaches(store, id, x))
    && (forall x | x in store :: seen[x] == before[x] || (seen[x] == before[x] + {key} && Reaches(store, id, x)))
    && id in store && (key in seen[id] || id in stack)
    && forall x, p | x in store && key in seen[x] && p in ParentsOf(store[x]) :: p in store && (key in seen[p] || p in stack)
  }

  lemma MarkStarts(store: Store, seen: map<EventId, set<PublicKey>>, id: EventId, key: PublicKey)
    requires id in store && seen.Keys == store.Keys && ParentsStored(store) && SeenPassesToParents(store, seen, key)
    ensures MarkInvariant(store, seen, seen, [id], id, key)
  {
    ReachesSelf(store, id);
    hide Reaches;
  }

  lemma ParentsReached(store: Store, id: EventId, current: EventId)
    requires ParentsStored(store) && current in store && Reaches(store, id, current)
    ensures forall p | p in ParentsOf(store[current]) :: p in store && Reaches(store, id, p)
  {
    forall p | p in ParentsOf(store[current]) ensures p in store && Reaches(store, id, p) {
      ReachesFurther(store, id, current, p);
    }
  }

  lemma MarkOne(store: Store, before: map<EventId, set<PublicKey>>, seen: map<EventId, set<PublicKey>>,
                rest: seq<EventId>, current: EventId, id: EventId, key: PublicKey)
    requires MarkInvariant(store, before, seen, rest + [current], id, key) && ParentsStored(store)
    requires key !in seen[current]
    ensures MarkInvariant(store, before, seen[current := seen[current] + {key}], rest + ParentsOf(store[current]), id, key)
  {
    hide Reaches, ParentsOf;
    var parents := ParentsOf(store[current]);
    var marked := seen[current := seen[current] + {key}];
    assert current in rest + [current];
    ParentsReached(store, id, current);
    hide ParentsStored;
    forall x, p | x in store && key in marked[x] && p in ParentsOf(store[x])
      ensures p in store && (key in marked[p] || p in rest + parents)
    {
      assert x == current || key in seen[x];
    }
  }

  lemma MarkContinues(store: Store, before: map<EventId, set<PublicKey>>, seen: map<EventId, set<PublicKey>>,
                      stack: seq<EventId>, id: EventId, key: PublicKey)
    requires stack != [] && MarkInvariant(store, before, seen, stack, id, key) && ParentsStored(store)
    ensures var current, rest := stack[|stack| - 1], stack[..|stack| - 1];
            && current in store
            && (key in seen[current] ==> MarkInvariant(store, before, seen, rest, id, key))
            && (key !in seen[current] ==>
                  MarkInvariant(store, before, seen[current := seen[current] + {key}], rest + ParentsOf(store[current]), id, key))
  {
    var current, rest := stack[|stack| - 1], stack[..|stack| - 1];
    assert stack == rest + [current];
    hide Reaches, ParentsOf;
    if key !in seen[current] {
      MarkOne(store, before, seen, rest, current, id, key);
    }
  }

  lemma MarkEnds(store: Store, before: map<EventId, set<PublicKey>>, seen: map<EventId, set<PublicKey>>,
                 id: EventId, key: PublicKey)
    requires MarkInvariant(store, before, seen, [], id, key)
    ensures seen == Marked(store, before, id, key)
  {
    var marked := set x | x in store && key in seen[x];
    forall x | x in store ensures seen[x] == if Reaches(store, id, x) then before[x] + {key} else before[x] {
      if Reaches(store, id, x) {
        ClosedSetHoldsAncestors(store, marked, id, x);
      }
    }
  }

  lemma UnmarkedShrinks(seen: map<EventId, set<PublicKey>>, x: EventId, key: PublicKey)
    requires x in seen && key !in seen[x]
    ensures Unmarked(seen[x := seen[x] + {key}], key) < Unmarked(seen, key)
  {
    assert x in Unmarked(seen, key);
    assert Unmarked(seen[x := seen[x] + {key}], key) == Unmarked(seen, key) - {x};
  }

  lemma SeenPassesUp(store: Store, counted: set<EventId>, seen: map<EventId, set<PublicKey>>, key: PublicKey)
    requires ParentsStored(store) && SeenExact(store, counted, seen)
    ensures SeenPassesToParents(store, seen, key)
  {
    forall x, p | x in store && key in seen[x] && p in ParentsOf(store[x]) ensures key in seen[p] {
      var d :| d in counted && d in store && Reaches(store, d, x) && store[d].pubkey == key;
      ReachesFurther(store, d, x, p);
    }
  }

  lemma FreshEntryPasses(store: Store, seen: map<EventId, set<PublicKey>>, event: Event, key: PublicKey)
    requires ParentsStored(store) && seen.Keys == store.Keys && SeenPassesToParents(store, seen, key) && event.id !in store
    ensures SeenPassesToParents(store[event.id := event], seen[event.id := {}], key)
  {
    var grown, later := store[event.id := event], seen[event.id := {}];
    forall x, p | x in grown && x in later && key in later[x] && p in ParentsOf(grown[x])
      ensures p in later && key in later[p]
    {
      assert x in store && p in ParentsOf(store[x]);
    }
  }

  lemma KeyedAfterStoring(store: Store, event: Event)
    requires WellKeyed(store) && ParentsStored(store) && AllParentsIn(event, store.Keys) && event.id !in store
    ensures WellKeyed(store[event.id := event]) && ParentsStored(store[event.id := event])
  {
    var grown := store[event.id := event];
    forall x, p | x in grown && p in ParentsOf(grown[x]) ensures p in grown {
      if x != event.id { assert x in store && p in ParentsOf(store[x]); }
    }
  }

  lemma ReadyToMark(s: State, event: Event)
    requires StoredPart(s) && event.id !in s.events && AllParentsIn(event, s.events.Keys)
    ensures event.id !in s.seenBy && s.seenBy.Keys == s.events.Keys
    ensures var grown := s.events[event.id := event];
            ParentsStored(grown) && SeenPassesToParents(grown, s.seenBy[event.id := {}], event.pubkey)
  {
    hide WellKeyed, DepthsExact, ChildrenExact, Witnesses, ParentsStored, SeenPassesToParents, AllParentsIn;
    KeyedAfterStoring(s.events, event);
    SeenPassesUp(s.events, s.counted, s.seenBy, event.pubkey);
    FreshEntryPasses(s.events, s.seenBy, event, event.pubkey);
  }

  lemma CountedStay(s: State, event: Event)
    requires StoredPart(s) && event.id !in s.events
    ensures event.id !in s.counted && s.counted <= s.events.Keys
  {
  }

  /** Storing an event reveals no new descendant of what was stored, other than the event itself. */
  lemma WitnessesAfterStoring(store: Store, counted: set<EventId>, event: Event, x: EventId)
    requires ParentsStored(store) && event.id !in store && counted <= store.Keys && (x in store || x == event.id)
    ensures Witnesses(store[event.id := event], counted, x) == if x in store then Witnesses(store, counted, x) else {}
  {
    var grown := store[event.id := event];
    forall d | d in counted ensures Reaches(grown, d, x) <==> x in store && Reaches(store, d, x) {
      ReachesStable(grown, store, d, x);
    }
  }

  lemma SeenAfterStoring(store: Store, counted: set<EventId>, seen: map<EventId, set<PublicKey>>, event: Event)
    requires ParentsStored(store) && SeenExact(store, counted, seen) && event.id !in store
    ensures SeenExact(store[event.id := event], counted, seen[event.id := {}])
  {
    var grown := store[event.id := event];
    forall x | x in grown ensures seen[event.id := {}][x] == Witnesses(grown, counted, x) {
      WitnessesAfterStoring(store, counted, event, x);
    }
  }

  lemma WitnessesGrow(store: Store, counted: set<EventId>, id: EventId, x: EventId)
    requires id in store
    ensures Witnesses(store, counted + {id}, x)
         == if Reaches(store, id, x) then Witnesses(store, counted, x) + {store[id].pubkey} else Witnesses(store, counted, x)
  {
  }

  lemma SeenAfterMarking(store: Store, counted: set<EventId>, seen: map<EventId, set<PublicKey>>, id: EventId)
    requires SeenExact(store, counted, seen) && id in store
    ensures SeenExact(store, counted + {id}, Marked(store, seen, id, store[id].pubkey))
  {
    forall x | x in store {
      WitnessesGrow(store, counted, id, x);
    }
    hide Witnesses, Reaches;
  }

  lemma ChildrenInAfterAdding(events: Store, event: Event, p: EventId)
    requires event.id !in events
    ensures ChildrenIn(events[event.id := event], p)
         == ChildrenIn(events, p) + if p in ParentsOf(event) then {event.id} else {}
  {
  }

  lemma ChildrenAfterStoring(store: Store, from: map<EventId, set<EventId>>, event: Event, to: map<EventId, set<EventId>>)
    requires ChildrenExact(store, from) && event.id !in store
    requires RowsExtended(from, to, ParentsOf(event), event.id)
    ensures ChildrenExact(store[event.id := event], to)
  {
    forall p {
      ChildrenInAfterAdding(store, event, p);
    }
    hide ChildrenIn;
  }

  lemma DepthsAfterStoring(store: Store, cache: map<EventId, nat>, event: Event)
    requires ParentsStored(store) && DepthsExact(store, cache) && event.id !in store && AllParentsIn(event, store.Keys)
    ensures DepthsExact(store[event.id := event], cache[event.id := DepthOver(ParentsOf(event), cache)])
  {
    var grown := store[event.id := event];
    var cache' := cache[event.id := DepthOver(ParentsOf(event), cache)];
    hide DepthOver, ParentsOf;
    forall x | x in grown ensures cache'[x] == DepthOver(ParentsOf(grown[x]), cache') {
      DepthOverIgnoresOthers(ParentsOf(grown[x]), cache, cache');
    }
  }

  /** Storing a ready event keeps the stored part of the invariant. */
  lemma ReadyStored(s: State, event: Event, t: State)
    requires StoredPart(s) && event.id !in s.events && AllParentsIn(event, s.events.Keys)
    requires RowsExtended(s.children, t.children, ParentsOf(event), event.id)
    requires t.events == s.events[event.id := event]
    requires t.depthCache == s.depthCache[event.id := DepthOver(ParentsOf(event), s.depthCache)]
    requires t.participants == s.participants && t.threshold == s.threshold
    requires if event.pubkey in s.participants then
               t.seenBy == Marked(t.events, s.seenBy[event.id := {}], event.id, event.pubkey)
               && t.counted == s.counted + {event.id}
             else
               t.seenBy == s.seenBy[event.id := {}] && t.counted == s.counted
    ensures StoredPart(t)
  {
    CountedStay(s, event);
    hide WellKeyed, DepthsExact, ChildrenExact, SeenExact, ParentsStored, AllParentsIn, Marked, RowsExtended, ParentsOf;
    KeyedAfterStoring(s.events, event);
    DepthsAfterStoring(s.events, s.depthCache, event);
    ChildrenAfterStoring(s.events, s.children, event, t.children);
    SeenAfterStoring(s.events, s.counted, s.seenBy, event);
    if event.pubkey in s.participants {
      SeenAfterMarking(t.events, s.counted, s.seenBy[event.id := {}], event.id);
    }
  }

  lemma WaitingAfterDropping(store: Store, pending: Store, waitingFor: map<EventId, set<EventId>>, id: EventId, rest: Store)
    requires WaitingExact(store, pending, waitingFor) && id !in store
    requires forall p :: ChildrenIn(rest, p) == ChildrenIn(pending, p) - {id}
    requires forall p | p !in store :: id !in ChildrenIn(pending, p)
    ensures forall grown: Store | grown.Keys == store.Keys + {id} :: WaitingExact(grown, rest, waitingFor - {id})
  {
    hide ChildrenIn;
    forall p | p !in store ensures ChildrenIn(rest, p) == ChildrenIn(pending, p) {
    }
  }

  /** Once `event` is stored, the waiting list without its row is exact again, and only the events
      on that row can have become ready. */
  lemma BufferAfterStoring(store: Store, pending: Store, waitingFor: map<EventId, set<EventId>>,
                           todo: seq<EventId>, event: Event, row: seq<EventId>)
    requires BufferExact(store, pending, waitingFor, todo + [event.id])
    requires event.id !in store && AllParentsIn(event, store.Keys)
    requires event.id in pending ==> pending[event.id] == event
    requires forall x :: x in row <==> event.id in waitingFor && x in waitingFor[event.id]
    ensures BufferExact(store[event.id := event], pending - {event.id}, waitingFor - {event.id}, todo + row)
  {
    var grown, rest := store[event.id := event], pending - {event.id};
    forall p ensures ChildrenIn(rest, p) == ChildrenIn(pending, p) - {event.id} {
    }
    WaitingAfterDropping(store, pending, waitingFor, event.id, rest);
    forall x | x in rest && AllParentsIn(rest[x], grown.Keys) ensures x in todo + row {
      if AllParentsIn(rest[x], store.Keys) {
        assert x in todo + [event.id];
      } else {
        assert x in ChildrenIn(pending, event.id);
      }
    }
  }

  ghost predicate IsRow(waitingFor: map<EventId, set<EventId>>, id: EventId, row: seq<EventId>) {
    forall x :: x in row <==> id in waitingFor && x in waitingFor[id]
  }

  /** `id` has just been stored and its waiting row not yet taken. */
  ghost predicate ReadyInBuffer(s: State, id: EventId) {
    && id in s.events && s.events[id].id == id && id !in s.pending
    && BufferExact(s.events - {id}, s.pending, s.waitingFor, [])
    && AllParentsIn(s.events[id], (s.events - {id}).Keys)
  }

  lemma SplitLast<T>(s: seq<T>)
    requires s != []
    ensures s == s[..|s| - 1] + [s[|s| - 1]]
  {
  }

  lemma NothingMissing(event: Event, store: Store)
    ensures Absent(ParentsOf(event), store) == [] <==> AllParentsIn(event, store.Keys)
  {
  }

  lemma MoreTodo(store: Store, pending: Store, waitingFor: map<EventId, set<EventId>>, id: EventId)
    requires BufferExact(store, pending, waitingFor, [])
    ensures BufferExact(store, pending, waitingFor, [] + [id])
  {
  }

  lemma FirstRowTaken(s: State, id: EventId, row: seq<EventId>, t: State)
    requires StoredPart(s) && ReadyInBuffer(s, id) && IsRow(s.waitingFor, id, row)
    requires t == s.(waitingFor := s.waitingFor - {id})
    ensures Unblocking(s, t, row)
  {
    hide BufferExact, AllParentsIn, WellKeyed, DepthsExact, ChildrenExact, SeenExact, ParentsStored, ParentsOf;
    var earlier := s.events - {id};
    MoreTodo(earlier, s.pending, s.waitingFor, id);
    BufferAfterStoring(earlier, s.pending, s.waitingFor, [], s.events[id], row);
    assert s.events == earlier[id := s.events[id]];
    assert s.pending - {id} == s.pending;
    assert [] + row == row;
  }

  lemma BufferWithout(store: Store, pending: Store, waitingFor: map<EventId, set<EventId>>, rest: seq<EventId>, id: EventId)
    requires BufferExact(store, pending, waitingFor, rest + [id])
    ensures id !in pending || !AllParentsIn(pending[id], store.Keys) ==> BufferExact(store, pending, waitingFor, rest)
    ensures id in pending ==> id !in store && pending[id].id == id
  {
  }

  /** Popping a candidate that is not ready loses nothing; one that is ready can be stored. */
  lemma Candidate(start: State, s: State, rest: seq<EventId>, id: EventId)
    requires Unblocking(start, s, rest + [id])
    ensures id !in s.pending ==> Unblocking(start, s, rest)
    ensures id in s.pending ==>
              && id !in s.events && s.pending[id].id == id
              && (Absent(ParentsOf(s.pending[id]), s.events) != [] ==> Unblocking(start, s, rest))
              && (Absent(ParentsOf(s.pending[id]), s.events) == [] ==>
                    AllParentsIn(s.pending[id], s.events.Keys) && StoredPart(s.(pending := s.pending - {id})))
  {
    hide BufferExact, WellKeyed, DepthsExact, ChildrenExact, SeenExact, ParentsStored, ParentsOf, NewlyCounted;
    BufferWithout(s.events, s.pending, s.waitingFor, rest, id);
    if id in s.pending {
      NothingMissing(s.pending[id], s.events);
    }
  }

  lemma MoveToStored(store: Store, pending: Store, event: Event)
    requires event.id in pending && pending[event.id] == event && event.id !in store
    ensures store[event.id := event] + (pending - {event.id}) == store + pending
    ensures forall before | Extends(store, before) :: Extends(store[event.id := event], before)
  {
    var grown, rest := store[event.id := event], pending - {event.id};
    assert (grown + rest).Keys == (store + pending).Keys;
  }

  lemma CountedAfterStoring(before: Store, store: Store, event: Event, participants: set<PublicKey>)
    requires event.id !in store && Extends(store, before)
    ensures NewlyCounted(before, store[event.id := event], participants)
         == NewlyCounted(before, store, participants) + if event.pubkey in participants then {event.id} else {}
  {
  }

  lemma CandidateStored(start: State, s: State, rest: seq<EventId>, event: Event, row: seq<EventId>, t: State)
    requires Unblocking(start, s, rest + [event.id])
    requires event.id in s.pending && s.pending[event.id] == event
    requires event.id !in s.events && AllParentsIn(event, s.events.Keys)
    requires StoredPart(t.(waitingFor := s.waitingFor)) && IsRow(s.waitingFor, event.id, row)
    requires t.events == s.events[event.id := event] && t.pending == s.pending - {event.id}
    requires t.waitingFor == s.waitingFor - {event.id} && t.participants == s.participants
    requires t.counted == s.counted + (if event.pubkey in s.participants then {event.id} else {})
    ensures Unblocking(start, t, rest + row)
  {
    hide BufferExact, AllParentsIn, WellKeyed, DepthsExact, ChildrenExact, SeenExact, ParentsStored, ParentsOf, NewlyCounted;
    CountedAfterStoring(start.events, s.events, event, s.participants);
    BufferAfterStoring(s.events, s.pending, s.waitingFor, rest, event, row);
    MoveToStored(s.events, s.pending, event);
    hide Extends;
  }

  lemma ConsistentParts(s: State)
    requires Consistent(s)
    ensures StoredPart(s) && BufferExact(s.events, s.pending, s.waitingFor, [])
  {
  }

  lemma DuplicateChangesNothing(s: State, event: Event)
    requires Consistent(s) && event.id in Received(s)
    ensures InsertStep(s, event, s)
  {
  }

  lemma ReadyEventStarts(s: State, event: Event, t: State)
    requires Consistent(s) && event.id !in Received(s) && AllParentsIn(event, s.events.Keys)
    requires t.events == s.events[event.id := event] && t.pending == s.pending && t.waitingFor == s.waitingFor
    ensures ReadyInBuffer(t, event.id)
  {
    hide BufferExact, StoredPart, AllParentsIn;
    assert t.events - {event.id} == s.events;
  }

  lemma CountedInTwoSteps(before: Store, event: Event, after: Store, participants: set<PublicKey>)
    requires event.id !in before && Extends(after, before[event.id := event])
    ensures NewlyCounted(before, after, participants)
         == (if event.pubkey in participants then {event.id} else {})
            + NewlyCounted(before[event.id := event], after, participants)
  {
    assert after[event.id] == event;
  }

  lemma AllUnblocked(s: State, event: Event, ready: State, t: State)
    requires Consistent(s) && event.id !in Received(s)
    requires ready.events == s.events[event.id := event] && ready.pending == s.pending
    requires ready.participants == s.participants
    requires ready.counted == s.counted + (if event.pubkey in s.participants then {event.id} else {})
    requires Unblocking(ready, t, [])
    ensures Consistent(t) && InsertStep(s, event, t)
    ensures event.id in t.events && t.events[event.id] == event
  {
    hide BufferExact, StoredPart, NewlyCounted;
    assert t.events[event.id] == event;
    CountedInTwoSteps(s.events, event, t.events, s.participants);
    assert Received(ready) == Received(s)[event.id := event];
  }

  lemma NoRows(from: map<EventId, set<EventId>>, id: EventId)
    ensures RowsExtended(from, from, [], id)
  {
  }

  lemma ExtendRow(from: map<EventId, set<EventId>>, to: map<EventId, set<EventId>>, keys: seq<EventId>, i: nat, id: EventId)
    requires i < |keys| && RowsExtended(from, to, keys[..i], id)
    ensures RowsExtended(from, to[keys[i] := OrEmpty(to, keys[i]) + {id}], keys[..i + 1], id)
  {
    assert keys[..i + 1] == keys[..i] + [keys[i]];
  }

  lemma ExtendsSelf(store: Store, participants: set<PublicKey>)
    ensures Extends(store, store) && NewlyCounted(store, store, participants) == {}
  {
  }

  lemma WaitingAfterBuffering(store: Store, pending: Store, from: map<EventId, set<EventId>>, event: Event,
                              to: map<EventId, set<EventId>>)
    requires WaitingExact(store, pending, from) && event.id !in pending
    requires RowsExtended(from, to, Absent(ParentsOf(event), store), event.id)
    ensures WaitingExact(store, pending[event.id := event], to)
  {
    var later := pending[event.id := event];
    forall p
      ensures p in to <==> p !in store && ChildrenIn(later, p) != {}
      ensures p in to ==> to[p] == ChildrenIn(later, p)
    {
      ChildrenInAfterAdding(pending, event, p);
      assert p !in store ==> (p in Absent(ParentsOf(event), store) <==> p in ParentsOf(event));
      hide ChildrenIn, ParentsOf;
    }
  }

  lemma BufferAfterBuffering(store: Store, pending: Store, waitingFor: map<EventId, set<EventId>>, event: Event,
                             to: map<EventId, set<EventId>>)
    requires BufferExact(store, pending, waitingFor, [])
    requires event.id !in store && event.id !in pending && !AllParentsIn(event, store.Keys)
    requires RowsExtended(waitingFor, to, Absent(ParentsOf(event), store), event.id)
    ensures BufferExact(store, pending[event.id := event], to, [])
  {
    hide WaitingExact, RowsExtended, AllParentsIn;
    WaitingAfterBuffering(store, pending, waitingFor, event, to);
  }

  lemma EventBuffered(s: State, event: Event, t: State)
    requires Consistent(s) && event.id !in Received(s) && !AllParentsIn(event, s.events.Keys)
    requires t == s.(pending := s.pending[event.id := event], waitingFor := t.waitingFor)
    requires RowsExtended(s.waitingFor, t.waitingFor, Absent(ParentsOf(event), s.events), event.id)
    ensures Consistent(t) && InsertStep(s, event, t)
  {
    hide BufferExact, RowsExtended, AllParentsIn, WellKeyed, DepthsExact, ChildrenExact, SeenExact, ParentsStored, ParentsOf, NewlyCounted;
    BufferAfterBuffering(s.events, s.pending, s.waitingFor, event, t.waitingFor);
    ExtendsSelf(s.events, s.participants);
    assert s.events + s.pending[event.id := event] == (s.events + s.pending)[event.id := event];
  }

  // ---- the object ----

  class Dag {
    var events: Store
    var seenBy: map<EventId, set<PublicKey>>
    var participants: set<PublicKey>
    var threshold: nat
    var depthCache: map<EventId, nat>
    var children: map<EventId, set<EventId>>
    var pending: Store
    var waitingFor: map<EventId, set<EventId>>
    ghost var counted: set<EventId>

    ghost function View(): State
      reads this
    {
      State(events, seenBy, participants, threshold, depthCache, children, pending, waitingFor, counted)
    }

    ghost predicate Valid()
      reads this
    {
      Consistent(View())
    }

    constructor (participants: set<PublicKey>)
      ensures Valid() && View() == EmptyState(participants)
    {
      this.participants := participants;
      threshold := QuorumThreshold(|participants|);
      events, seenBy, depthCache, children, pending, waitingFor, counted := map[], map[], map[], map[], map[], map[], {};
    }

    method MarkSeenByAncestors(id: EventId, participant: PublicKey)
      requires id in events && ParentsStored(events)
      requires seenBy.Keys == events.Keys && SeenPassesToParents(events, seenBy, participant)
      modifies `seenBy
      ensures seenBy == Marked(events, old(seenBy), id, participant)
    {
      ghost var before := seenBy;
      MarkStarts(events, seenBy, id, participant);
      hide Marked, MarkInvariant, SeenPassesToParents, ParentsStored, ParentsOf;
      var stack := [id];
      while stack != []
        invariant seenBy.Keys == events.Keys && forall x | x in stack :: x in events
        invariant MarkInvariant(events, before, seenBy, stack, id, participant)
        decreases Unmarked(seenBy, participant), |stack|
      {
        var current := stack[|stack| - 1];
        MarkContinues(events, before, seenBy, stack, id, participant);
        stack := stack[..|stack| - 1];
        var seen := OrEmpty(seenBy, current);
        if participant !in seen {
          UnmarkedShrinks(seenBy, current, participant);
          seenBy := seenBy[current := seen + {participant}];
          if current in events {
            stack := stack + ParentsOf(events[current]);
          }
        }
      }
      MarkEnds(events, before, seenBy, id, participant);
    }

    method InsertReady(event: Event)
      requires StoredPart(View())
      requires event.id !in events && AllParentsIn(event, events.Keys)
      modifies `events, `seenBy, `depthCache, `children, `counted
      ensures StoredPart(View())
      ensures events == old(events)[event.id := event]
      ensures counted == old(counted) + (if event.pubkey in participants then {event.id} else {})
    {
      var id := event.id;
      var parents := ParentsOf(event);
      ghost var before := View();
      hide StoredPart, RowsExtended, ParentsOf, AllParentsIn, Marked, ParentsStored, SeenPassesToParents;
      ReadyToMark(before, event);
      var i := 0;
      NoRows(children, id);
      assert parents[..0] == [];
      while i < |parents|
        modifies `children
        invariant 0 <= i <= |parents|
        invariant RowsExtended(before.children, children, parents[..i], id)
      {
        ExtendRow(before.children, children, parents, i, id);
        var p := parents[i];
        children := children[p := OrEmpty(children, p) + {id}];
        i := i + 1;
      }
      assert parents[..i] == parents;
      depthCache := depthCache[id := DepthOver(parents, depthCache)];
      events := events[id := event];
      seenBy := seenBy[id := OrEmpty(seenBy, id)];
      if event.pubkey in participants {
        MarkSeenByAncestors(id, event.pubkey);
        counted := counted + {id};
      }
      ReadyStored(before, event, View());
    }

    /** `waiting_for.remove(&id)`, with the removed ids in some order; none if there is no row. */
    method TakeWaiting(id: EventId) returns (row: seq<EventId>)
      modifies `waitingFor
      ensures waitingFor == old(waitingFor) - {id}
      ensures IsRow(old(waitingFor), id, row)
    {
      if id in waitingFor {
        row := ListInAnyOrder(waitingFor[id]);
      } else {
        row := [];
      }
      waitingFor := waitingFor - {id};
    }

    method ProcessUnblocked(insertedId: EventId)
      requires StoredPart(View()) && ReadyInBuffer(View(), insertedId)
      modifies this
      ensures Unblocking(old(View()), View(), [])
    {
      ghost var start := View();
      hide Unblocking, StoredPart, ReadyInBuffer, IsRow, AllParentsIn, ParentsOf, Absent, WellKeyed, BufferExact;
      var toProcess := TakeWaiting(insertedId);
      FirstRowTaken(start, insertedId, toProcess, View());
      while toProcess != []
        invariant Unblocking(start, View(), toProcess)
        decreases |pending|, |toProcess|
      {
        var candidateId := toProcess[|toProcess| - 1];
        ghost var mid := View();
        SplitLast(toProcess);
        toProcess := toProcess[..|toProcess| - 1];
        Candidate(start, mid, toProcess, candidateId);
        if candidateId in pending {
          var event := pending[candidateId];
          var stillMissing := Absent(ParentsOf(event), events);
          if stillMissing == [] {
            pending := pending - {candidateId};
            InsertReady(event);
            var newlyUnblocked := TakeWaiting(candidateId);
            CandidateStored(start, mid, toProcess, event, newlyUnblocked, View());
            toProcess := toProcess + newlyUnblocked;
          }
        }
      }
    }

    method Insert(event: Event) returns (result: InsertResult)
      requires Valid()
      modifies this
      ensures Valid() && InsertStep(old(View()), event, View())
      ensures result == InsertOutcome(old(View()), event)
      ensures result.Inserted? ==> event.id in events && events[event.id] == event
      ensures result.Buffered? ==> event.id in pending && pending[event.id] == event && events == old(events)
      ensures result.Buffered? ==> exists at :: ListsAbsent(ParentsOf(event), events, at)
                                                && result.missing == Picked(ParentsOf(event), at)
      ensures result.Duplicate? ==> View() == old(View())
    {
      var id := event.id;
      var parents := ParentsOf(event);
      ghost var before := View();
      hide Consistent, AllParentsIn, RowsExtended, ParentsOf, Absent, InsertStep, Unblocking, StoredPart, ReadyInBuffer, BufferExact, Extends;
      if id in events || id in pending {
        DuplicateChangesNothing(before, event);
        return Duplicate;
      }
      var missing := Absent(parents, events);
      NothingMissing(event, events);
      if missing == [] {
        ConsistentParts(before);
        InsertReady(event);
        ReadyEventStarts(before, event, View());
        ghost var ready := View();
        ProcessUnblocked(id);
        AllUnblocked(before, event, ready, View());
        result := Inserted(id);
      } else {
        var i := 0;
        NoRows(waitingFor, id);
        assert missing[..0] == [];
        while i < |missing|
          modifies `waitingFor
          invariant 0 <= i <= |missing|
          invariant RowsExtended(before.waitingFor, waitingFor, missing[..i], id)
        {
          ExtendRow(before.waitingFor, waitingFor, missing, i, id);
          var p := missing[i];
          waitingFor := waitingFor[p := OrEmpty(waitingFor, p) + {id}];
          i := i + 1;
        }
        pending := pending[id := event];
        assert missing[..i] == missing;
        EventBuffered(before, event, View());
        ghost var at := AbsentInOrder(parents, events);
        result := Buffered(id, missing);
      }
    }

    method AddParticipant(key: PublicKey)
      requires Valid()
      modifies `participants, `threshold
      ensures Valid() && AddParticipantStep(old(View()), key, View())
    {
      ghost var before := View();
      if key !in participants {
        participants := participants + {key};
        threshold := QuorumThreshold(|participants|);
      }
      AddParticipantOutcome(before, key);
    }

    predicate IsCanonicalId(id: EventId)
      reads `seenBy, `threshold
    {
      id in seenBy && |seenBy[id]| > threshold
    }

    method ListTips() returns (tips: seq<EventId>)
      ensures NoDuplicates(tips)
      ensures forall id :: id in tips <==> id in DagState.Tips(View())
    {
      var ids := ListInAnyOrder(events.Keys);
      tips := [];
      for i := 0 to |ids|
        invariant NoDuplicates(tips)
        invariant forall id :: id in tips <==> id in ids[..i] && id in DagState.Tips(View())
      {
        assert ids[i] !in ids[..i];
        if ids[i] !in children || children[ids[i]] == {} {
          tips := tips + [ids[i]];
        }
      }
      assert ids[..|ids|] == ids;
    }

    method CanonicalEvents() returns (canonical: seq<EventId>)
      ensures NoDuplicates(canonical)
      ensures forall id :: id in canonical <==> id in CanonicalIds(View())
    {
      var ids := ListInAnyOrder(events.Keys);
      canonical := [];
      for i := 0 to |ids|
        invariant NoDuplicates(canonical)
        invariant forall id :: id in canonical <==> id in ids[..i] && id in CanonicalIds(View())
      {
        assert ids[i] !in ids[..i];
        if IsCanonicalId(ids[i]) {
          canonical := canonical + [ids[i]];
        }
      }
      assert ids[..|ids|] == ids;
    }

    method CanonicalOrder() returns (order: seq<EventId>)
      ensures IsCanonicalOrder(View(), order)
      ensures Valid() ==> forall i | 0 <= i < |order| :: order[i] in depthCache
      ensures Valid() ==> forall i, j | 0 <= i < j < |order| && order[i] in depthCache && order[j] in depthCache ::
                || depthCache[order[i]] < depthCache[order[j]]
                || (depthCache[order[i]] == depthCache[order[j]] && order[i] < order[j])
    {
      var canonical := CanonicalEvents();
      order := Sort(Before(depthCache), canonical);
      SortedIsCanonicalOrder(View(), canonical);
      if Valid() { CanonicalOrderPositions(View(), order); }
    }
  }

  /** A new engine that handles `ops` in turn passes through a run in the sense of the run theorems. */
  method Replay(participants: set<PublicKey>, ops: seq<Op>) returns (dag: Dag, ghost run: seq<State>)
    ensures fresh(dag) && dag.Valid()
    ensures IsRun(participants, ops, run) && dag.View() == run[|ops|]
  {
    hide Consistent, InsertStep;
    dag := new Dag(participants);
    run := [dag.View()];
    for i := 0 to |ops|
      invariant fresh(dag) && dag.Valid()
      invariant IsRun(participants, ops[..i], run) && dag.View() == run[i]
    {
      match ops[i] {
        case InsertOp(event) => var _ := dag.Insert(event);
        case AddOp(key) => dag.AddParticipant(key);
      }
      RunExtended(participants, ops[..i], run, ops[i], dag.View());
      assert ops[..i + 1] == ops[..i] + [ops[i]];
      run := run + [dag.View()];
    }
    assert ops[..|ops|] == ops;
  }
}
