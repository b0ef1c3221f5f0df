/** Stored events as a graph whose edges run from an event to its parents. */
module Graph {
  import opened Events
  import opened Ordering

  type Store = map<EventId, Event>

  ghost predicate WellKeyed(store: Store) {
    forall id | id in store :: store[id].id == id
  }

  /** Every parent of a stored event is stored. */
  ghost predicate ParentsStored(store: Store) {
    forall id, p | id in store && p in ParentsOf(store[id]) :: p in store
  }

  /** A walk from `c[0]` to its last element, each step going from a child to a parent. */
  ghost predicate IsChain(store: Store, c: seq<EventId>) {
    && |c| > 0
    && (forall i | 0 <= i < |c| :: c[i] in store)
    && (forall i | 0 <= i < |c| - 1 :: c[i + 1] in ParentsOf(store[c[i]]))
  }

  /** `to` is `from` itself or one of its ancestors. */
  ghost predicate Reaches(store: Store, from: EventId, to: EventId) {
    exists c :: IsChain(store, c) && c[0] == from && c[|c| - 1] == to
  }

  /** `grown` extends `store` by further events. */
  ghost predicate Extends(grown: Store, store: Store) {
    forall id | id in store :: id in grown && grown[id] == store[id]
  }

  lemma ReachesSelf(store: Store, e: EventId)
    requires e in store
    ensures Reaches(store, e, e)
  {
    assert IsChain(store, [e]);
  }

  lemma ReachesFurther(store: Store, from: EventId, mid: EventId, p: EventId)
    requires Reaches(store, from, mid) && mid in store && p in store && p in ParentsOf(store[mid])
    ensures Reaches(store, from, p)
  {
    var c :| IsChain(store, c) && c[0] == from && c[|c| - 1] == mid;
    assert IsChain(store, c + [p]);
  }

  lemma ChainFromChild(store: Store, child: EventId, c: seq<EventId>)
    requires IsChain(store, c) && child in store && c[0] in ParentsOf(store[child])
    ensures IsChain(store, [child] + c)
  {
    var d := [child] + c;
    hide ParentsOf;
    assert forall i | 0 < i < |d| :: d[i] == c[i - 1];
  }

  lemma ReachesFromChild(store: Store, child: EventId, p: EventId, to: EventId)
    requires child in store && p in ParentsOf(store[child]) && Reaches(store, p, to)
    ensures Reaches(store, child, to)
  {
    var c :| IsChain(store, c) && c[0] == p && c[|c| - 1] == to;
    ChainFromChild(store, child, c);
  }

  /** A set that holds the start of a chain and is closed under taking stored parents holds its end. */
  lemma {:induction false} ClosedSetHoldsChain(store: Store, closed: set<EventId>, c: seq<EventId>)
    requires IsChain(store, c) && c[0] in closed
    requires forall x, p | x in closed && x in store && p in ParentsOf(store[x]) && p in store :: p in closed
    ensures c[|c| - 1] in closed
  {
    if |c| == 1 {
    } else {
      var d := c[1..];
      assert c[1] in ParentsOf(store[c[0]]) && c[1] in store;
      assert forall i | 0 <= i < |d| :: d[i] == c[i + 1];
      ClosedSetHoldsChain(store, closed, d);
    }
  }

  lemma ClosedSetHoldsAncestors(store: Store, closed: set<EventId>, from: EventId, to: EventId)
    requires Reaches(store, from, to) && from in closed
    requires forall x, p | x in closed && x in store && p in ParentsOf(store[x]) && p in store :: p in closed
    ensures to in closed
  {
    var c :| IsChain(store, c) && c[0] == from && c[|c| - 1] == to;
    ClosedSetHoldsChain(store, closed, c);
  }

  lemma ReachesTransitive(store: Store, a: EventId, b: EventId, c: EventId)
    requires Reaches(store, a, b) && Reaches(store, b, c)
    ensures Reaches(store, a, c)
  {
    var closed := set x | x in store && Reaches(store, a, x);
    forall x, p | x in closed && p in ParentsOf(store[x]) && p in store ensures p in closed {
      ReachesFurther(store, a, x, p);
    }
    ClosedSetHoldsAncestors(store, closed, b, c);
  }

  lemma {:induction false} ChainStays(grown: Store, store: Store, c: seq<EventId>)
    requires Extends(grown, store) && ParentsStored(store) && IsChain(grown, c) && c[0] in store
    ensures IsChain(store, c)
  {
    if |c| == 1 {
    } else {
      var d := c[1..];
      assert c[1] in ParentsOf(store[c[0]]);
      assert forall i | 0 <= i < |d| :: d[i] == c[i + 1];
      ChainStays(grown, store, d);
      forall i | 0 <= i < |c| ensures c[i] in store {
        if i > 0 { assert d[i - 1] in store; }
      }
    }
  }

  /** Storing more events adds no ancestors to an event whose ancestors are all stored. */
  lemma ReachesStable(grown: Store, store: Store, from: EventId, to: EventId)
    requires Extends(grown, store) && ParentsStored(store) && from in store
    ensures Reaches(grown, from, to) <==> to in store && Reaches(store, from, to)
  {
    if Reaches(grown, from, to) {
      var c :| IsChain(grown, c) && c[0] == from && c[|c| - 1] == to;
      ChainStays(grown, store, c);
    }
    if Reaches(store, from, to) {
      var c :| IsChain(store, c) && c[0] == from && c[|c| - 1] == to;
      assert IsChain(grown, c);
    }
  }

  // ---- depth ----

  /** `compute_depth`: one more than the largest cached depth of a parent, 0 if none is cached. */
  function DepthOver(parents: seq<EventId>, cache: map<EventId, nat>): nat {
    if parents == [] then 0
    else
      var rest := DepthOver(parents[1..], cache);
      if parents[0] in cache && rest < cache[parents[0]] + 1 then cache[parents[0]] + 1 else rest
  }

  lemma {:induction false} DepthOverIsLargest(parents: seq<EventId>, cache: map<EventId, nat>)
    ensures forall p | p in parents && p in cache :: cache[p] < DepthOver(parents, cache)
    ensures DepthOver(parents, cache) > 0 ==>
              exists p :: p in parents && p in cache && DepthOver(parents, cache) == cache[p] + 1
  {
    if parents == [] {
    } else {
      DepthOverIsLargest(parents[1..], cache);
    }
  }

  ghost predicate DepthsExact(store: Store, cache: map<EventId, nat>) {
    && cache.Keys == store.Keys
    && forall id | id in store :: cache[id] == DepthOver(ParentsOf(store[id]), cache)
  }

  /** Along a chain the cached depth falls by at least one a step. */
  lemma {:induction false} DepthFallsAlongChain(store: Store, cache: map<EventId, nat>, c: seq<EventId>)
    requires DepthsExact(store, cache) && IsChain(store, c)
    ensures cache[c[0]] >= cache[c[|c| - 1]] + |c| - 1
  {
    if |c| == 1 {
    } else {
      DepthOverIsLargest(ParentsOf(store[c[0]]), cache);
      hide DepthOver, ParentsOf;
      var d := c[1..];
      assert c[1] in ParentsOf(store[c[0]]);
      assert forall i | 0 <= i < |d| :: d[i] == c[i + 1];
      DepthFallsAlongChain(store, cache, d);
    }
  }

  lemma {:induction false} LongestChain(store: Store, cache: map<EventId, nat>, id: EventId) returns (c: seq<EventId>)
    requires DepthsExact(store, cache) && id in store
    ensures IsChain(store, c) && c[0] == id && |c| == cache[id] + 1
    decreases cache[id]
  {
    if cache[id] == 0 {
      c := [id];
    } else {
      DepthOverIsLargest(ParentsOf(store[id]), cache);
      hide DepthOver, ParentsOf;
      var p :| p in ParentsOf(store[id]) && p in cache && cache[id] == cache[p] + 1;
      var d := LongestChain(store, cache, p);
      ChainFromChild(store, id, d);
      c := [id] + d;
    }
  }

  /** The cached depth is the length, in edges, of the longest chain from the event. */
  lemma DepthIsLongestChain(store: Store, cache: map<EventId, nat>, id: EventId)
    requires DepthsExact(store, cache) && id in store
    ensures exists c :: IsChain(store, c) && c[0] == id && |c| - 1 == cache[id]
    ensures forall c | IsChain(store, c) && c[0] == id :: |c| - 1 <= cache[id]
  {
    var _ := LongestChain(store, cache, id);
    forall c | IsChain(store, c) && c[0] == id ensures |c| - 1 <= cache[id] {
      DepthFallsAlongChain(store, cache, c);
    }
  }

  lemma ChainsDoNotRepeat(store: Store, cache: map<EventId, nat>, c: seq<EventId>)
    requires DepthsExact(store, cache) && IsChain(store, c)
    ensures NoDuplicates(c)
  {
    forall i, j | 0 <= i < j < |c| ensures c[i] != c[j] {
      var d := c[i..j + 1];
      assert forall k | 0 <= k < |d| :: d[k] == c[i + k];
      assert IsChain(store, d);
      DepthFallsAlongChain(store, cache, d);
    }
  }

  /** Depths stay below the number of stored events, far from the bounds of 64 bits. */
  lemma DepthBelowCount(store: Store, cache: map<EventId, nat>, id: EventId)
    requires DepthsExact(store, cache) && id in store
    ensures cache[id] < |store|
  {
    var c := LongestChain(store, cache, id);
    ChainsDoNotRepeat(store, cache, c);
    var ids := set x | x in c;
    ListingSize(c, ids);
    assert ids <= store.Keys;
    assert store.Keys == ids + (store.Keys - ids);
    assert |store| == |store.Keys|;
  }

  lemma ProperAncestorIsShallower(store: Store, cache: map<EventId, nat>, from: EventId, to: EventId)
    requires DepthsExact(store, cache) && from in store && to in store && Reaches(store, from, to) && from != to
    ensures cache[to] < cache[from]
  {
    var c :| IsChain(store, c) && c[0] == from && c[|c| - 1] == to;
    DepthFallsAlongChain(store, cache, c);
  }

  /** A store has only one exact depth cache. */
  lemma DepthsUnique(store: Store, a: map<EventId, nat>, b: map<EventId, nat>)
    requires DepthsExact(store, a) && DepthsExact(store, b)
    ensures a == b
  {
    forall id | id in store ensures a[id] == b[id] {
      DepthIsLongestChain(store, a, id);
      DepthIsLongestChain(store, b, id);
    }
  }

  lemma {:induction false} DepthOverIgnoresOthers(parents: seq<EventId>, a: map<EventId, nat>, b: map<EventId, nat>)
    requires forall p | p in parents :: p in a && p in b && a[p] == b[p]
    ensures DepthOver(parents, a) == DepthOver(parents, b)
  {
    if parents == [] {
    } else {
      DepthOverIgnoresOthers(parents[1..], a, b);
    }
  }
}
