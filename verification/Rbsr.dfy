/** Range-based set reconciliation (src/rbsr.rs). */
module Rbsr {
  import opened Ordering
  import opened Prelude

  const KEY_LIMIT: int := 0x1_0000_0000_0000_0000

  type Key = k: int | 0 <= k < KEY_LIMIT

  const MAX_KEY: Key := 0xFFFF_FFFF_FFFF_FFFF

  /** What the algorithm reads of an item. */
  datatype Item = Item(key: Key, fingerprint: bv64)

  /** A `BTreeMap`, iterated in ascending key order. */
  type ItemMap = map<Key, Item>

  datatype RangeFingerprint = RangeFingerprint(minKey: Key, maxKey: Key, count: nat, xorChecksum: bv64)

  datatype SyncResult = SyncResult(roundTrips: nat, localMissing: seq<Key>, remoteMissing: seq<Key>, mismatches: seq<Key>)

  /** Every item is filed under its own key. */
  ghost predicate Keyed(m: ItemMap) {
    forall k | k in m :: m[k].key == k
  }

  // ---- ordered iteration ----

  function KeyLess(): (Key, Key) -> bool {
    (a: Key, b: Key) => a < b
  }

  predicate IsLeast(keys: set<Key>, least: Key) {
    least in keys && forall k | k in keys :: least <= k
  }

  lemma {:induction false} LeastKeyExists(keys: set<Key>)
    requires keys != {}
    ensures exists least: Key :: IsLeast(keys, least)
  {
    var k :| k in keys;
    var rest := keys - {k};
    if rest == {} {
      assert keys == {k};
      assert IsLeast(keys, k);
    } else {
      LeastKeyExists(rest);
      var other: Key :| IsLeast(rest, other);
      assert keys == rest + {k};
      assert IsLeast(keys, if k < other then k else other);
    }
  }

  function LeastKey(keys: set<Key>): (least: Key)
    requires keys != {}
    ensures IsLeast(keys, least)
  {
    LeastKeyExists(keys);
    var least: Key :| least in keys && IsLeast(keys, least);
    least
  }

  function SortedKeys(keys: set<Key>): seq<Key>
    decreases |keys|
  {
    if keys == {} then []
    else [LeastKey(keys)] + SortedKeys(keys - {LeastKey(keys)})
  }

  /** The listing of a set of keys: strictly ascending, and nothing else. */
  ghost predicate Lists(s: seq<Key>, keys: set<Key>) {
    Ascending(KeyLess(), s) && forall k :: k in s <==> k in keys
  }

  lemma {:induction false} SortedKeysLists(keys: set<Key>)
    ensures Lists(SortedKeys(keys), keys)
    decreases |keys|
  {
    if keys == {} {
    } else {
      var least := LeastKey(keys);
      SortedKeysLists(keys - {least});
      var rest := SortedKeys(keys - {least});
      var all := [least] + rest;
      forall i, j | 0 <= i < j < |all| ensures all[i] < all[j] {
        assert all[j] == rest[j - 1] && rest[j - 1] in rest;
      }
    }
  }

  lemma ListsUnique(s: seq<Key>, t: seq<Key>, keys: set<Key>)
    requires Lists(s, keys) && Lists(t, keys)
    ensures s == t
  {
    AscendingUnique(KeyLess(), s, t);
  }

  function KeysIn(m: ItemMap, lo: Key, hi: Key): set<Key> {
    set k | k in m && lo <= k <= hi
  }

  lemma SortedKeysConcat(a: set<Key>, b: set<Key>)
    requires forall x, y | x in a && y in b :: x < y
    ensures SortedKeys(a + b) == SortedKeys(a) + SortedKeys(b)
  {
    var s, t := SortedKeys(a), SortedKeys(b);
    SortedKeysLists(a);
    SortedKeysLists(b);
    SortedKeysLists(a + b);
    hide SortedKeys;
    assert forall i | 0 <= i < |s| :: s[i] in a;
    assert forall i | 0 <= i < |t| :: t[i] in b;
    ListsUnique(SortedKeys(a + b), s + t, a + b);
  }

  /** The items under `keys`, in ascending key order. */
  function Select(m: ItemMap, keys: set<Key>): (items: seq<Item>)
    requires keys <= m.Keys
    ensures |items| == |SortedKeys(keys)|
    ensures forall i | 0 <= i < |items| :: SortedKeys(keys)[i] in keys && items[i] == m[SortedKeys(keys)[i]]
  {
    var sorted := SortedKeys(keys);
    SortedKeysLists(keys);
    assert forall i | 0 <= i < |sorted| :: sorted[i] in sorted;
    seq(|sorted|, i requires 0 <= i < |sorted| => m[sorted[i]])
  }

  lemma SelectConcat(m: ItemMap, a: set<Key>, b: set<Key>)
    requires a <= m.Keys && b <= m.Keys
    requires forall x, y | x in a && y in b :: x < y
    ensures Select(m, a + b) == Select(m, a) + Select(m, b)
  {
    SortedKeysConcat(a, b);
  }

  /** `items.range(lo..=hi)` */
  function Range(m: ItemMap, lo: Key, hi: Key): seq<Item> {
    Select(m, KeysIn(m, lo, hi))
  }

  // ---- fingerprints ----

  function Xor(a: bv64, b: bv64): bv64 {
    a ^ b
  }

  function XorOf(items: seq<Item>): bv64 {
    if items == [] then 0 else Xor(XorOf(items[..|items| - 1]), items[|items| - 1].fingerprint)
  }

  function FingerprintOf(m: ItemMap, lo: Key, hi: Key): RangeFingerprint {
    RangeFingerprint(lo, hi, |Range(m, lo, hi)|, XorOf(Range(m, lo, hi)))
  }

  predicate HasBit(x: bv64, bit: bv64) {
    x & bit != 0
  }

  function Masked(x: bv64, bit: bv64): bv64 {
    x & bit
  }

  lemma MaskedOneBit(x: bv64, bit: bv64)
    requires bit & (bit - 1) == 0
    ensures Masked(x, bit) == 0 || Masked(x, bit) == bit
  {
  }

  lemma XorOfUnset(a: bv64, b: bv64, bit: bv64)
    requires Masked(a, bit) == 0 && Masked(b, bit) == 0
    ensures Masked(Xor(a, b), bit) == 0
  {
  }

  lemma XorOfSet(a: bv64, b: bv64, bit: bv64)
    requires Masked(a, bit) == bit && Masked(b, bit) == bit
    ensures Masked(Xor(a, b), bit) == 0
  {
  }

  lemma XorOfOneSet(a: bv64, b: bv64, bit: bv64)
    requires Masked(a, bit) == bit && Masked(b, bit) == 0
    ensures Masked(Xor(a, b), bit) == bit && Masked(Xor(b, a), bit) == bit
  {
  }

  lemma HasBitMasked(x: bv64, bit: bv64)
    ensures HasBit(x, bit) <==> Masked(x, bit) != 0
  {
  }

  lemma XorBit(a: bv64, b: bv64, bit: bv64)
    requires bit != 0 && bit & (bit - 1) == 0
    ensures HasBit(Xor(a, b), bit) <==> HasBit(a, bit) != HasBit(b, bit)
  {
    hide HasBit, Masked, Xor;
    MaskedOneBit(a, bit);
    MaskedOneBit(b, bit);
    HasBitMasked(a, bit);
    HasBitMasked(b, bit);
    HasBitMasked(Xor(a, b), bit);
    if HasBit(a, bit) && HasBit(b, bit) {
      XorOfSet(a, b, bit);
    } else if HasBit(a, bit) {
      XorOfOneSet(a, b, bit);
    } else if HasBit(b, bit) {
      XorOfOneSet(b, a, bit);
    } else {
      XorOfUnset(a, b, bit);
    }
  }

  lemma SelectOne(m: ItemMap, k: Key)
    requires k in m
    ensures Select(m, {k}) == [m[k]]
  {
    assert {k} - {LeastKey({k})} == {};
    assert SortedKeys({k}) == [k];
  }

  lemma SelectLeast(m: ItemMap, keys: set<Key>, least: Key)
    requires keys <= m.Keys && IsLeast(keys, least)
    ensures Select(m, keys) == [m[least]] + Select(m, keys - {least})
  {
    assert keys == {least} + (keys - {least});
    SelectConcat(m, {least}, keys - {least});
    SelectOne(m, least);
  }

  lemma XorOfNone(bit: bv64)
    ensures !HasBit(XorOf([]), bit)
  {
  }

  lemma SelectNone(m: ItemMap)
    ensures Select(m, {}) == []
  {
  }

  lemma XorLaws(a: bv64, b: bv64, c: bv64)
    ensures Xor(Xor(a, b), c) == Xor(a, Xor(b, c))
    ensures Xor(Xor(a, c), b) == Xor(Xor(a, b), c)
    ensures Xor(a, 0) == a == Xor(0, a)
  {
  }

  lemma {:induction false} XorOfConcat(a: seq<Item>, b: seq<Item>)
    ensures XorOf(a + b) == Xor(XorOf(a), XorOf(b))
  {
    hide Xor;
    if b == [] {
      assert a + b == a;
      XorLaws(XorOf(a), 0, 0);
    } else {
      var n := |b| - 1;
      var all := a + b;
      assert all[..|all| - 1] == a + b[..n];
      XorOfConcat(a, b[..n]);
      XorLaws(XorOf(a), XorOf(b[..n]), b[n].fingerprint);
    }
  }

  lemma XorOfOne(item: Item)
    ensures XorOf([item]) == item.fingerprint
  {
    hide Xor;
    assert [item][..0] == [];
    XorLaws(item.fingerprint, 0, 0);
  }

  ghost function KeysWithBit(m: ItemMap, keys: set<Key>, bit: bv64): set<Key>
    requires keys <= m.Keys
  {
    set k | k in keys && HasBit(m[k].fingerprint, bit)
  }

  lemma KeysWithBitSplit(m: ItemMap, keys: set<Key>, k: Key, bit: bv64)
    requires keys <= m.Keys && k in keys
    ensures |KeysWithBit(m, keys, bit)|
         == |KeysWithBit(m, keys - {k}, bit)| + if HasBit(m[k].fingerprint, bit) then 1 else 0
  {
    hide HasBit;
    var rest := KeysWithBit(m, keys - {k}, bit);
    assert KeysWithBit(m, keys, bit) == if HasBit(m[k].fingerprint, bit) then rest + {k} else rest;
  }

  /** Each bit of the checksum says whether an odd number of the items have that bit. */
  lemma {:induction false} SelectParity(m: ItemMap, keys: set<Key>, bit: bv64)
    requires keys <= m.Keys && bit != 0 && bit & (bit - 1) == 0
    ensures HasBit(XorOf(Select(m, keys)), bit) <==> |KeysWithBit(m, keys, bit)| % 2 == 1
    decreases |keys|
  {
    hide XorOf, Xor, HasBit, Select;
    if keys == {} {
      SelectNone(m);
      XorOfNone(bit);
      assert KeysWithBit(m, keys, bit) == {};
    } else {
      hide KeysWithBit;
      var least := LeastKey(keys);
      var rest := keys - {least};
      SelectParity(m, rest, bit);
      SelectLeast(m, keys, least);
      XorOfConcat([m[least]], Select(m, rest));
      XorOfOne(m[least]);
      XorBit(m[least].fingerprint, XorOf(Select(m, rest)), bit);
      KeysWithBitSplit(m, keys, least, bit);
    }
  }

  lemma RangeSize(m: ItemMap, lo: Key, hi: Key)
    ensures |Range(m, lo, hi)| == |KeysIn(m, lo, hi)|
  {
    var keys := KeysIn(m, lo, hi);
    SortedKeysLists(keys);
    ListingSize(SortedKeys(keys), keys);
  }

  /** A fingerprint counts the items in range, and each bit of its checksum says whether an odd number
      of them have that bit. */
  lemma FingerprintMeans(m: ItemMap, lo: Key, hi: Key, bit: bv64)
    requires bit != 0 && bit & (bit - 1) == 0
    ensures FingerprintOf(m, lo, hi).count == |set k | k in m && lo <= k <= hi|
    ensures HasBit(FingerprintOf(m, lo, hi).xorChecksum, bit) <==>
            |set k | k in m && lo <= k <= hi && HasBit(m[k].fingerprint, bit)| % 2 == 1
  {
    hide XorOf, Xor, HasBit;
    RangeSize(m, lo, hi);
    var keys := KeysIn(m, lo, hi);
    SelectParity(m, keys, bit);
    assert KeysWithBit(m, keys, bit) == (set k | k in m && lo <= k <= hi && HasBit(m[k].fingerprint, bit));
  }

  method Compute(items: ItemMap, minKey: Key, maxKey: Key) returns (fp: RangeFingerprint)
    ensures fp == FingerprintOf(items, minKey, maxKey)
    ensures fp.minKey == minKey && fp.maxKey == maxKey
    ensures fp.count == |set k | k in items && minKey <= k <= maxKey|
    ensures forall bit: bv64 | bit != 0 && bit & (bit - 1) == 0 ::
              HasBit(fp.xorChecksum, bit) <==>
              |set k | k in items && minKey <= k <= maxKey && HasBit(items[k].fingerprint, bit)| % 2 == 1
  {
    hide Range, HasBit;
    var count := 0;
    var xorChecksum: bv64 := 0;
    var inRange := Range(items, minKey, maxKey);
    while count < |inRange|
      invariant 0 <= count <= |inRange|
      invariant xorChecksum == XorOf(inRange[..count])
    {
      assert inRange[..count + 1][..count] == inRange[..count];
      xorChecksum := xorChecksum ^ inRange[count].fingerprint;
      count := count + 1;
    }
    assert inRange[..count] == inRange;
    fp := RangeFingerprint(minKey, maxKey, count, xorChecksum);
    FingerprintMeans(items, minKey, maxKey, 1);
    forall bit: bv64 | bit != 0 && bit & (bit - 1) == 0
      ensures HasBit(fp.xorChecksum, bit) <==>
              |set k | k in items && minKey <= k <= maxKey && HasBit(items[k].fingerprint, bit)| % 2 == 1
    {
      FingerprintMeans(items, minKey, maxKey, bit);
    }
  }

  // ---- reconciliation ----

  function Middle(lo: Key, hi: Key): (mid: Key)
    requires lo < hi
    ensures lo <= mid < hi
    ensures 2 * mid <= lo + hi <= 2 * mid + 1
  {
    lo + (hi - lo) / 2
  }

  predicate Resolved(local: ItemMap, remote: ItemMap, lo: Key, hi: Key, threshold: nat) {
    || (FingerprintOf(local, lo, hi).count <= threshold && FingerprintOf(remote, lo, hi).count <= threshold)
    || lo == hi
  }

  /** The remote items worth a look, and the number of ranges compared. */
  function ReconcileRange(local: ItemMap, remote: ItemMap, lo: Key, hi: Key, threshold: nat): (seq<Item>, nat)
    requires lo <= hi
    decreases hi - lo
  {
    if FingerprintOf(local, lo, hi) == FingerprintOf(remote, lo, hi) then ([], 1)
    else if Resolved(local, remote, lo, hi, threshold) then (Range(remote, lo, hi), 1)
    else
      var mid := Middle(lo, hi);
      var (left, leftSteps) := ReconcileRange(local, remote, lo, mid, threshold);
      var (right, rightSteps) := ReconcileRange(local, remote, mid + 1, hi, threshold);
      (left + right, leftSteps + rightSteps + 1)
  }

  /** `k` lies in a compared range that was skipped because both fingerprints were equal. */
  ghost predicate Pruned(local: ItemMap, remote: ItemMap, lo: Key, hi: Key, threshold: nat, k: Key)
    requires lo <= hi
    decreases hi - lo
  {
    if FingerprintOf(local, lo, hi) == FingerprintOf(remote, lo, hi) then lo <= k <= hi
    else if Resolved(local, remote, lo, hi, threshold) then false
    else
      var mid := Middle(lo, hi);
      || Pruned(local, remote, lo, mid, threshold, k)
      || Pruned(local, remote, mid + 1, hi, threshold, k)
  }

  ghost function Unpruned(local: ItemMap, remote: ItemMap, lo: Key, hi: Key, threshold: nat): set<Key>
    requires lo <= hi
  {
    set k | k in KeysIn(remote, lo, hi) && !Pruned(local, remote, lo, hi, threshold, k)
  }

  lemma {:induction false} PrunedWithin(local: ItemMap, remote: ItemMap, lo: Key, hi: Key, threshold: nat, k: Key)
    requires lo <= hi && Pruned(local, remote, lo, hi, threshold, k)
    ensures lo <= k <= hi
    decreases hi - lo
  {
    hide FingerprintOf, Resolved;
    if FingerprintOf(local, lo, hi) == FingerprintOf(remote, lo, hi) {
    } else {
      var mid := Middle(lo, hi);
      if Pruned(local, remote, lo, mid, threshold, k) {
        PrunedWithin(local, remote, lo, mid, threshold, k);
      } else {
        PrunedWithin(local, remote, mid + 1, hi, threshold, k);
      }
    }
  }

  lemma PrunedSplits(local: ItemMap, remote: ItemMap, lo: Key, hi: Key, mid: Key, next: Key, threshold: nat, k: Key)
    requires lo < hi && FingerprintOf(local, lo, hi) != FingerprintOf(remote, lo, hi)
    requires !Resolved(local, remote, lo, hi, threshold) && mid == Middle(lo, hi) && next == mid + 1
    ensures k <= mid ==>
              (Pruned(local, remote, lo, hi, threshold, k) <==> Pruned(local, remote, lo, mid, threshold, k))
    ensures k > mid ==>
              (Pruned(local, remote, lo, hi, threshold, k) <==> Pruned(local, remote, next, hi, threshold, k))
  {
    hide FingerprintOf, Resolved;
    assert Pruned(local, remote, lo, hi, threshold, k) <==>
             Pruned(local, remote, lo, mid, threshold, k) || Pruned(local, remote, next, hi, threshold, k);
    hide Pruned;
    if Pruned(local, remote, lo, mid, threshold, k) { PrunedWithin(local, remote, lo, mid, threshold, k); }
    if Pruned(local, remote, next, hi, threshold, k) { PrunedWithin(local, remote, next, hi, threshold, k); }
  }

  lemma UnprunedSplits(local: ItemMap, remote: ItemMap, lo: Key, hi: Key, mid: Key, next: Key, threshold: nat)
    requires lo < hi && FingerprintOf(local, lo, hi) != FingerprintOf(remote, lo, hi)
    requires !Resolved(local, remote, lo, hi, threshold) && mid == Middle(lo, hi) && next == mid + 1
    ensures Unpruned(local, remote, lo, hi, threshold)
         == Unpruned(local, remote, lo, mid, threshold) + Unpruned(local, remote, next, hi, threshold)
  {
    hide FingerprintOf, Resolved, Pruned;
    forall k: Key {
      PrunedSplits(local, remote, lo, hi, mid, next, threshold, k);
    }
  }

  /** A pass discovers, in ascending key order, exactly the remote items outside pruned ranges. */
  lemma {:induction false} DiscoversUnpruned(local: ItemMap, remote: ItemMap, lo: Key, hi: Key, threshold: nat)
    requires lo <= hi
    ensures ReconcileRange(local, remote, lo, hi, threshold).0
         == Select(remote, Unpruned(local, remote, lo, hi, threshold))
    decreases hi - lo
  {
    hide FingerprintOf, Select;
    if FingerprintOf(local, lo, hi) == FingerprintOf(remote, lo, hi) {
      assert Unpruned(local, remote, lo, hi, threshold) == {};
      SelectNone(remote);
    } else if Resolved(local, remote, lo, hi, threshold) {
      assert Unpruned(local, remote, lo, hi, threshold) == KeysIn(remote, lo, hi);
    } else {
      hide Resolved, Pruned;
      var mid := Middle(lo, hi);
      DiscoversUnpruned(local, remote, lo, mid, threshold);
      DiscoversUnpruned(local, remote, mid + 1, hi, threshold);
      UnprunedSplits(local, remote, lo, hi, mid, mid + 1, threshold);
      SelectConcat(remote, Unpruned(local, remote, lo, mid, threshold), Unpruned(local, remote, mid + 1, hi, threshold));
    }
  }

  // ---- what is reported ----

  /** Keys in range that are on one side only or carry different fingerprints. */
  ghost function Differing(local: ItemMap, remote: ItemMap, lo: Key, hi: Key): set<Key> {
    set k | k in KeysIn(local, lo, hi) + KeysIn(remote, lo, hi)
            && !(k in local && k in remote && local[k].fingerprint == remote[k].fingerprint)
  }

  ghost function Mismatched(local: ItemMap, remote: ItemMap): set<Key> {
    set k | k in remote && k in local && local[k].fingerprint != remote[k].fingerprint
  }

  /** What a full pass skips. */
  ghost predicate Skipped(local: ItemMap, remote: ItemMap, threshold: nat, k: Key) {
    Pruned(local, remote, 0, MAX_KEY, threshold, k)
  }

  /** The remote-only keys and the mismatches that a pass reports. */
  ghost function ReportedMissing(local: ItemMap, remote: ItemMap, threshold: nat): set<Key> {
    set k | k in remote && k !in local && !Skipped(local, remote, threshold, k)
  }

  ghost function ReportedMismatches(local: ItemMap, remote: ItemMap, threshold: nat): set<Key> {
    set k | k in Mismatched(local, remote) && !Skipped(local, remote, threshold, k)
  }

  function KeysOf(items: seq<Item>): (keys: seq<Key>)
    ensures |keys| == |items| && forall i | 0 <= i < |items| :: keys[i] == items[i].key
  {
    seq(|items|, i requires 0 <= i < |items| => items[i].key)
  }

  lemma DiscoveredKeys(local: ItemMap, remote: ItemMap, threshold: nat)
    requires Keyed(remote)
    ensures var (items, keys) := (ReconcileRange(local, remote, 0, MAX_KEY, threshold).0,
                                  Unpruned(local, remote, 0, MAX_KEY, threshold));
            && Lists(KeysOf(items), keys)
            && (forall k | k in keys :: k in remote)
            && (forall item | item in items :: item.key in keys && remote[item.key] == item)
  {
    hide ReconcileRange;
    DiscoversUnpruned(local, remote, 0, MAX_KEY, threshold);
    var keys := Unpruned(local, remote, 0, MAX_KEY, threshold);
    SortedKeysLists(keys);
    hide Pruned;
    assert KeysOf(Select(remote, keys)) == SortedKeys(keys);
  }

  ghost function MismatchedAmong(local: ItemMap, items: seq<Item>): set<Key> {
    set item | item in items && item.key in local && local[item.key].fingerprint != item.fingerprint :: item.key
  }

  lemma MismatchedKeys(local: ItemMap, remote: ItemMap, items: seq<Item>, keys: set<Key>)
    requires Lists(KeysOf(items), keys)
    requires forall item | item in items :: item.key in remote && remote[item.key] == item
    ensures MismatchedAmong(local, items) == keys * Mismatched(local, remote)
  {
    forall k | k in keys * Mismatched(local, remote) ensures k in MismatchedAmong(local, items) {
      assert k in KeysOf(items);
      var i :| 0 <= i < |items| && KeysOf(items)[i] == k;
      assert items[i] in items;
    }
    forall item | item in items ensures item.key in keys {
      var i :| 0 <= i < |items| && items[i] == item;
      assert KeysOf(items)[i] in KeysOf(items);
    }
  }

  lemma MismatchedNone(local: ItemMap)
    ensures MismatchedAmong(local, []) == {}
  {
  }

  lemma MismatchedOneMore(local: ItemMap, items: seq<Item>, item: Item)
    ensures MismatchedAmong(local, items + [item])
         == MismatchedAmong(local, items)
            + if item.key in local && local[item.key].fingerprint != item.fingerprint then {item.key} else {}
  {
    forall k | k in MismatchedAmong(local, items) ensures k in MismatchedAmong(local, items + [item]) {
      var x :| x in items && x.key == k && x.key in local && local[x.key].fingerprint != x.fingerprint;
      assert x in items + [item];
    }
    assert item in items + [item];
  }

  lemma ListsElements(s: seq<Key>, keys: set<Key>)
    requires Lists(s, keys)
    ensures forall k :: k in s <==> k in keys
  {
  }

  lemma ListsNone()
    ensures Lists([], {})
  {
  }

  /** A listing of some of the first `i` keys of an ascending listing can be extended by the next one. */
  lemma ListsExtended(s: seq<Key>, sorted: seq<Key>, i: nat, keys: set<Key>, part: set<Key>)
    requires Lists(sorted, keys) && i < |sorted| && Lists(s, part)
    requires forall k | k in part :: k in sorted[..i]
    ensures Lists(s + [sorted[i]], part + {sorted[i]})
    ensures forall k :: k in sorted[..i + 1] <==> k in sorted[..i] || k == sorted[i]
  {
    assert sorted[..i + 1] == sorted[..i] + [sorted[i]];
    assert forall k | k in sorted[..i] :: k < sorted[i];
    var all := s + [sorted[i]];
    forall a, b | 0 <= a < b < |all| ensures all[a] < all[b] {
      if b == |s| { assert s[a] in part; }
    }
  }

  /** The loop of `diff_and_reconcile` over the discovered items. */
  method Classify(local: ItemMap, discovered: seq<Item>, ghost keys: set<Key>)
    returns (localMissing: seq<Key>, mismatches: seq<Key>)
    requires Lists(KeysOf(discovered), keys)
    ensures Lists(localMissing, keys - local.Keys)
    ensures Lists(mismatches, MismatchedAmong(local, discovered))
  {
    ghost var sorted := KeysOf(discovered);
    ListsElements(sorted, keys);
    hide Lists, MismatchedAmong;
    localMissing, mismatches := [], [];
    ListsNone();
    ghost var missing: set<Key>, differing: set<Key> := {}, {};
    MismatchedNone(local);
    for i := 0 to |discovered|
      invariant Lists(localMissing, missing) && Lists(mismatches, differing)
      invariant forall k: Key :: k in missing <==> k in sorted[..i] && k !in local
      invariant differing == MismatchedAmong(local, discovered[..i])
      invariant forall k | k in differing :: k in sorted[..i]
    {
      var item := discovered[i];
      ListsExtended(localMissing, sorted, i, keys, missing);
      ListsExtended(mismatches, sorted, i, keys, differing);
      assert discovered[..i + 1] == discovered[..i] + [item];
      MismatchedOneMore(local, discovered[..i], item);
      if item.key in local {
        if local[item.key].fingerprint != item.fingerprint {
          mismatches, differing := mismatches + [item.key], differing + {item.key};
        }
      } else {
        localMissing, missing := localMissing + [item.key], missing + {item.key};
      }
    }
    assert sorted[..|discovered|] == sorted && discovered[..|discovered|] == discovered;
    assert missing == keys - local.Keys;
  }

  /** The loop of `diff_and_reconcile` that fills `remote_missing`. */
  method KeysMissingFrom(local: ItemMap, remote: ItemMap) returns (remoteMissing: seq<Key>)
    ensures Lists(remoteMissing, local.Keys - remote.Keys)
  {
    var localKeys := SortedKeys(local.Keys);
    SortedKeysLists(local.Keys);
    ListsElements(localKeys, local.Keys);
    hide SortedKeys, Lists;
    remoteMissing := [];
    ListsNone();
    ghost var absent: set<Key> := {};
    for i := 0 to |localKeys|
      invariant Lists(remoteMissing, absent)
      invariant forall k: Key :: k in absent <==> k in localKeys[..i] && k !in remote
    {
      ListsExtended(remoteMissing, localKeys, i, local.Keys, absent);
      if localKeys[i] !in remote {
        remoteMissing, absent := remoteMissing + [localKeys[i]], absent + {localKeys[i]};
      }
    }
    assert localKeys[..|localKeys|] == localKeys;
    assert absent == local.Keys - remote.Keys;
  }

  lemma UnprunedKeys(local: ItemMap, remote: ItemMap, threshold: nat)
    ensures forall k :: k in Unpruned(local, remote, 0, MAX_KEY, threshold) <==>
                        k in remote && !Skipped(local, remote, threshold, k)
  {
    hide Pruned;
  }

  method DiffAndReconcile(local: ItemMap, remote: ItemMap, threshold: nat) returns (result: SyncResult)
    requires Keyed(local) && Keyed(remote)
    ensures Lists(result.localMissing, ReportedMissing(local, remote, threshold))
    ensures Lists(result.mismatches, ReportedMismatches(local, remote, threshold))
    ensures Lists(result.remoteMissing, local.Keys - remote.Keys)
    ensures result.roundTrips == ReconcileRange(local, remote, 0, MAX_KEY, threshold).1
  {
    var (discovered, roundTrips) := ReconcileRange(local, remote, 0, MAX_KEY, threshold);
    DiscoveredKeys(local, remote, threshold);
    hide Keyed, Pruned, ReconcileRange, Lists, Skipped, Unpruned, Mismatched;
    ghost var keys := Unpruned(local, remote, 0, MAX_KEY, threshold);
    var localMissing, mismatches := Classify(local, discovered, keys);
    UnprunedKeys(local, remote, threshold);
    assert keys - local.Keys == ReportedMissing(local, remote, threshold);
    MismatchedKeys(local, remote, discovered, keys);
    assert keys * Mismatched(local, remote) == ReportedMismatches(local, remote, threshold);
    var remoteMissing := KeysMissingFrom(local, remote);
    result := SyncResult(roundTrips, localMissing, remoteMissing, mismatches);
  }

  // ---- exact up to collisions ----

  /** The ranges that a pass compares. */
  ghost function ComparedRanges(local: ItemMap, remote: ItemMap, lo: Key, hi: Key, threshold: nat): set<(Key, Key)>
    requires lo <= hi
    decreases hi - lo
  {
    if FingerprintOf(local, lo, hi) == FingerprintOf(remote, lo, hi) || Resolved(local, remote, lo, hi, threshold) then
      {(lo, hi)}
    else
      {(lo, hi)}
      + ComparedRanges(local, remote, lo, Middle(lo, hi), threshold)
      + ComparedRanges(local, remote, Middle(lo, hi) + 1, hi, threshold)
  }

  lemma PointIsResolved(local: ItemMap, remote: ItemMap, lo: Key, hi: Key, threshold: nat)
    ensures lo == hi ==> Resolved(local, remote, lo, hi, threshold)
  {
  }

  lemma {:induction false} ComparedWithin(local: ItemMap, remote: ItemMap, lo: Key, hi: Key, threshold: nat)
    requires lo <= hi
    ensures forall r | r in ComparedRanges(local, remote, lo, hi, threshold) :: lo <= r.0 <= r.1 <= hi
    decreases hi - lo
  {
    hide FingerprintOf, Resolved;
    if lo < hi {
      ComparedWithin(local, remote, lo, Middle(lo, hi), threshold);
      ComparedWithin(local, remote, Middle(lo, hi) + 1, hi, threshold);
    } else {
      PointIsResolved(local, remote, lo, hi, threshold);
    }
  }

  /** One of the ranges holds `k` and looks the same from both sides. */
  ghost predicate SkippedBy(local: ItemMap, remote: ItemMap, ranges: set<(Key, Key)>, k: Key) {
    exists r :: r in ranges && r.0 <= k <= r.1 && FingerprintOf(local, r.0, r.1) == FingerprintOf(remote, r.0, r.1)
  }

  lemma SkippedByUnion(local: ItemMap, remote: ItemMap, a: set<(Key, Key)>, b: set<(Key, Key)>, k: Key)
    ensures SkippedBy(local, remote, a + b, k) <==> SkippedBy(local, remote, a, k) || SkippedBy(local, remote, b, k)
  {
    hide FingerprintOf;
    if SkippedBy(local, remote, a, k) {
      var r :| r in a && r.0 <= k <= r.1 && FingerprintOf(local, r.0, r.1) == FingerprintOf(remote, r.0, r.1);
      assert r in a + b;
    }
    if SkippedBy(local, remote, b, k) {
      var r :| r in b && r.0 <= k <= r.1 && FingerprintOf(local, r.0, r.1) == FingerprintOf(remote, r.0, r.1);
      assert r in a + b;
    }
  }

  lemma SkippedByOne(local: ItemMap, remote: ItemMap, lo: Key, hi: Key, k: Key)
    ensures SkippedBy(local, remote, {(lo, hi)}, k) <==>
            lo <= k <= hi && FingerprintOf(local, lo, hi) == FingerprintOf(remote, lo, hi)
  {
    hide FingerprintOf;
    assert (lo, hi) in {(lo, hi)};
  }

  /** What is pruned lies in a compared range whose two fingerprints are equal. */
  lemma {:induction false} PrunedIffCompared(local: ItemMap, remote: ItemMap, lo: Key, hi: Key, threshold: nat, k: Key)
    requires lo <= hi
    ensures Pruned(local, remote, lo, hi, threshold, k) <==>
            SkippedBy(local, remote, ComparedRanges(local, remote, lo, hi, threshold), k)
    decreases hi - lo
  {
    PointIsResolved(local, remote, lo, hi, threshold);
    hide FingerprintOf, Resolved, SkippedBy;
    SkippedByOne(local, remote, lo, hi, k);
    if FingerprintOf(local, lo, hi) == FingerprintOf(remote, lo, hi) || Resolved(local, remote, lo, hi, threshold) {
    } else {
      var mid := Middle(lo, hi);
      PrunedIffCompared(local, remote, lo, mid, threshold, k);
      PrunedIffCompared(local, remote, mid + 1, hi, threshold, k);
      var left := ComparedRanges(local, remote, lo, mid, threshold);
      var right := ComparedRanges(local, remote, mid + 1, hi, threshold);
      SkippedByUnion(local, remote, {(lo, hi)}, left, k);
      SkippedByUnion(local, remote, {(lo, hi)} + left, right, k);
    }
  }

  /** The two sides have equal fingerprints over a range in which they differ. */
  ghost predicate Collision(local: ItemMap, remote: ItemMap, lo: Key, hi: Key) {
    && lo <= hi
    && FingerprintOf(local, lo, hi) == FingerprintOf(remote, lo, hi)
    && Differing(local, remote, lo, hi) != {}
  }

  /** The ranges that a full pass compares. */
  ghost function Compared(local: ItemMap, remote: ItemMap, threshold: nat): set<(Key, Key)> {
    ComparedRanges(local, remote, 0, MAX_KEY, threshold)
  }

  lemma CollisionAround(local: ItemMap, remote: ItemMap, lo: Key, hi: Key, k: Key)
    requires k in Differing(local, remote, 0, MAX_KEY) && lo <= k <= hi
    ensures Collision(local, remote, lo, hi) <==> FingerprintOf(local, lo, hi) == FingerprintOf(remote, lo, hi)
  {
    hide FingerprintOf;
    assert k in Differing(local, remote, lo, hi);
  }

  /** A difference is skipped exactly when it lies in a compared range over which the sides collide. */
  lemma SkippedIffCollision(local: ItemMap, remote: ItemMap, threshold: nat, k: Key)
    requires k in Differing(local, remote, 0, MAX_KEY)
    ensures Skipped(local, remote, threshold, k) <==>
            exists r :: r in Compared(local, remote, threshold) && r.0 <= k <= r.1 && Collision(local, remote, r.0, r.1)
  {
    PrunedIffCompared(local, remote, 0, MAX_KEY, threshold, k);
    hide FingerprintOf, ComparedRanges, Pruned, Differing, Collision;
    forall r: (Key, Key) | r.0 <= k <= r.1 {
      CollisionAround(local, remote, r.0, r.1, k);
    }
  }

  /** A collision hides a remote item: equal counts rule out purely local differences. */
  lemma CollisionHidesRemoteKey(local: ItemMap, remote: ItemMap, lo: Key, hi: Key)
    requires Collision(local, remote, lo, hi)
    ensures exists k :: k in Differing(local, remote, lo, hi) && k in remote
  {
    RangeSize(local, lo, hi);
    RangeSize(remote, lo, hi);
    hide Range, XorOf;
    var ours, theirs := KeysIn(local, lo, hi), KeysIn(remote, lo, hi);
    if theirs <= ours {
      assert |ours - theirs| == |ours| - |theirs| == 0;
      assert ours == theirs;
      var k :| k in Differing(local, remote, lo, hi);
    } else {
      var k :| k in theirs && k !in ours;
      assert k in Differing(local, remote, lo, hi);
    }
  }

  lemma RemoteDifferences(local: ItemMap, remote: ItemMap, k: Key)
    ensures k in Differing(local, remote, 0, MAX_KEY) && k in remote <==>
            k in remote.Keys - local.Keys || k in Mismatched(local, remote)
  {
  }

  /** What is reported is complete when no difference on the remote side is skipped. */
  lemma CompleteReports(local: ItemMap, remote: ItemMap, threshold: nat)
    ensures ReportedMissing(local, remote, threshold) == remote.Keys - local.Keys
            && ReportedMismatches(local, remote, threshold) == Mismatched(local, remote)
       <==> forall k | k in Differing(local, remote, 0, MAX_KEY) && k in remote :: !Skipped(local, remote, threshold, k)
  {
    forall k: Key { RemoteDifferences(local, remote, k); }
    hide Skipped, Mismatched, Differing;
  }

  lemma SkippedNeedsCollision(local: ItemMap, remote: ItemMap, threshold: nat, k: Key)
    requires k in Differing(local, remote, 0, MAX_KEY) && Skipped(local, remote, threshold, k)
    ensures exists r :: r in Compared(local, remote, threshold) && Collision(local, remote, r.0, r.1)
  {
    hide Skipped, Compared, Collision, Differing;
    SkippedIffCollision(local, remote, threshold, k);
  }

  lemma CollisionSkips(local: ItemMap, remote: ItemMap, threshold: nat, r: (Key, Key)) returns (k: Key)
    requires r in Compared(local, remote, threshold) && Collision(local, remote, r.0, r.1)
    ensures k in Differing(local, remote, 0, MAX_KEY) && k in remote && Skipped(local, remote, threshold, k)
  {
    hide Skipped, Compared, FingerprintOf;
    CollisionHidesRemoteKey(local, remote, r.0, r.1);
    k :| k in Differing(local, remote, r.0, r.1) && k in remote;
    assert r.0 <= k <= r.1 && k in Differing(local, remote, 0, MAX_KEY);
    hide Differing, Collision;
    SkippedIffCollision(local, remote, threshold, k);
  }

  /** A pass reports the plain set difference and all mismatches exactly when no range that it
      compares is a collision. */
  lemma ExactWithoutCollisions(local: ItemMap, remote: ItemMap, threshold: nat)
    ensures ReportedMissing(local, remote, threshold) == remote.Keys - local.Keys
            && ReportedMismatches(local, remote, threshold) == Mismatched(local, remote)
       <==> forall r | r in Compared(local, remote, threshold) :: !Collision(local, remote, r.0, r.1)
  {
    CompleteReports(local, remote, threshold);
    hide Skipped, Compared, Collision, Differing, ReportedMissing, ReportedMismatches;
    forall k | k in Differing(local, remote, 0, MAX_KEY) && Skipped(local, remote, threshold, k)
      ensures exists r :: r in Compared(local, remote, threshold) && Collision(local, remote, r.0, r.1)
    {
      SkippedNeedsCollision(local, remote, threshold, k);
    }
    if r :| r in Compared(local, remote, threshold) && Collision(local, remote, r.0, r.1) {
      var k := CollisionSkips(local, remote, threshold, r);
    }
  }

  // ---- an item under another key ----

  lemma SelectUnchanged(m: ItemMap, keys: set<Key>, k: Key, item: Item)
    requires keys <= m.Keys && k !in keys
    ensures Select(m[k := item], keys) == Select(m, keys)
  {
  }

  lemma KeysWithItem(m: ItemMap, lo: Key, hi: Key, k: Key, item: Item, below: set<Key>, above: set<Key>)
    requires k !in m && lo <= k <= hi
    requires below == set j | j in m && lo <= j < k
    requires above == set j | j in m && k < j <= hi
    ensures KeysIn(m, lo, hi) == below + above
    ensures KeysIn(m[k := item], lo, hi) == below + {k} + above
  {
  }

  /** The new item appears in the listing between those of smaller and those of larger keys. */
  lemma RangeWithItem(m: ItemMap, lo: Key, hi: Key, k: Key, item: Item) returns (low: seq<Item>, high: seq<Item>)
    requires k !in m && lo <= k <= hi
    ensures Range(m, lo, hi) == low + high
    ensures Range(m[k := item], lo, hi) == low + [item] + high
  {
    var below, above := set j | j in m && lo <= j < k, set j | j in m && k < j <= hi;
    KeysWithItem(m, lo, hi, k, item, below, above);
    low, high := Select(m, below), Select(m, above);
    hide Select, KeysIn;
    SelectConcat(m, below, above);
    SelectConcat(m[k := item], below + {k}, above);
    SelectConcat(m[k := item], below, {k});
    SelectOne(m[k := item], k);
    SelectUnchanged(m, below, k, item);
    SelectUnchanged(m, above, k, item);
  }

  lemma XorWithItem(low: seq<Item>, item: Item, high: seq<Item>)
    ensures XorOf(low + [item] + high) == Xor(XorOf(low + high), item.fingerprint)
  {
    hide XorOf, Xor;
    XorOfConcat(low, high);
    XorOfConcat(low + [item], high);
    XorOfConcat(low, [item]);
    XorOfOne(item);
    XorLaws(XorOf(low), XorOf(high), item.fingerprint);
  }

  /** One more item takes the checksum by its fingerprint, wherever its key sorts. */
  lemma FingerprintWithItem(m: ItemMap, lo: Key, hi: Key, k: Key, item: Item)
    requires k !in m && lo <= k <= hi
    ensures FingerprintOf(m[k := item], lo, hi)
         == FingerprintOf(m, lo, hi).(
              count := FingerprintOf(m, lo, hi).count + 1,
              xorChecksum := Xor(FingerprintOf(m, lo, hi).xorChecksum, item.fingerprint))
  {
    hide Range, XorOf, Xor;
    var low, high := RangeWithItem(m, lo, hi, k, item);
    XorWithItem(low, item, high);
  }

  /** Fingerprints do not cover keys: when the two sides differ in one item only, which is filed under
      `a` here and, with equal content, under `b` there, a pass skips every key. All it reports is that
      the remote side lacks `a`. */
  lemma MovedItemIsSkipped(m: ItemMap, a: Key, b: Key, fingerprint: bv64, threshold: nat)
    requires a !in m && b !in m && a != b
    ensures var local, remote := m[a := Item(a, fingerprint)], m[b := Item(b, fingerprint)];
            && (forall k: Key :: Skipped(local, remote, threshold, k))
            && ReportedMissing(local, remote, threshold) == {} && remote.Keys - local.Keys == {b}
            && ReportedMismatches(local, remote, threshold) == {}
            && local.Keys - remote.Keys == {a}
  {
    FingerprintWithItem(m, 0, MAX_KEY, a, Item(a, fingerprint));
    FingerprintWithItem(m, 0, MAX_KEY, b, Item(b, fingerprint));
    hide FingerprintOf;
  }

  lemma ResolvedAtOnce(local: ItemMap, remote: ItemMap, threshold: nat, k: Key)
    requires |Range(local, 0, MAX_KEY)| != |Range(remote, 0, MAX_KEY)|
    requires |Range(local, 0, MAX_KEY)| <= threshold && |Range(remote, 0, MAX_KEY)| <= threshold
    ensures !Skipped(local, remote, threshold, k)
  {
    hide Range;
  }

  /** Next to a further difference, the moved item may be reported after all. */
  lemma MovedItemMayShow()
    ensures var local, remote := map[1 := Item(1, 7)], map[2 := Item(2, 7), 9 := Item(9, 1)];
            Collision(local, remote, 1, 2) && !Skipped(local, remote, 5, 2)
  {
    var local: ItemMap, remote: ItemMap := map[1 := Item(1, 7)], map[2 := Item(2, 7), 9 := Item(9, 1)];
    assert KeysIn(local, 0, MAX_KEY) == KeysIn(local, 1, 2) == {1};
    assert KeysIn(remote, 0, MAX_KEY) == {2, 9} && KeysIn(remote, 1, 2) == {2};
    assert 2 in Differing(local, remote, 1, 2);
    hide Differing, KeysIn, Select, SortedKeys, XorOf, Skipped;
    RangeSize(local, 0, MAX_KEY);
    RangeSize(remote, 0, MAX_KEY);
    SelectOne(local, 1);
    SelectOne(remote, 2);
    XorOfOne(Item(1, 7));
    XorOfOne(Item(2, 7));
    assert Collision(local, remote, 1, 2);
    ResolvedAtOnce(local, remote, 5, 2);
  }

  // ---- a lone difference ----

  lemma XorTellsApart(a: bv64, b: bv64, c: bv64)
    ensures Xor(a, b) == Xor(a, c) ==> b == c
  {
  }

  lemma {:induction false} XorOfSame(a: seq<Item>, b: seq<Item>)
    requires |a| == |b| && forall i | 0 <= i < |a| :: a[i].fingerprint == b[i].fingerprint
    ensures XorOf(a) == XorOf(b)
  {
    if a == [] {
    } else {
      XorOfSame(a[..|a| - 1], b[..|b| - 1]);
    }
  }

  /** Ranges without differences have equal fingerprints. */
  lemma SameContentSameFingerprint(local: ItemMap, remote: ItemMap, lo: Key, hi: Key)
    requires Differing(local, remote, lo, hi) == {}
    ensures FingerprintOf(local, lo, hi) == FingerprintOf(remote, lo, hi)
  {
    forall k: Key ensures k in KeysIn(local, lo, hi) <==> k in KeysIn(remote, lo, hi) {
      assert k !in Differing(local, remote, lo, hi);
    }
    assert KeysIn(local, lo, hi) == KeysIn(remote, lo, hi);
    hide SortedKeys;
    var a, b := Range(local, lo, hi), Range(remote, lo, hi);
    forall i | 0 <= i < |a| ensures a[i].fingerprint == b[i].fingerprint {
      var k := SortedKeys(KeysIn(local, lo, hi))[i];
      assert k !in Differing(local, remote, lo, hi);
    }
    XorOfSame(a, b);
  }

  /** Putting one item back into a map without it. */
  lemma FingerprintWithout(m: ItemMap, lo: Key, hi: Key, k: Key)
    requires lo <= k <= hi
    ensures var rest := FingerprintOf(m - {k}, lo, hi);
            FingerprintOf(m, lo, hi)
            == if k in m then rest.(count := rest.count + 1, xorChecksum := Xor(rest.xorChecksum, m[k].fingerprint)) else rest
  {
    hide FingerprintOf, Xor;
    if k in m {
      FingerprintWithItem(m - {k}, lo, hi, k, m[k]);
      assert (m - {k})[k := m[k]] == m;
    } else {
      assert m - {k} == m;
    }
  }

  lemma SameWithout(local: ItemMap, remote: ItemMap, lo: Key, hi: Key, k: Key)
    requires Differing(local, remote, 0, MAX_KEY) == {k}
    ensures Differing(local - {k}, remote - {k}, lo, hi) == {}
  {
    assert Differing(local - {k}, remote - {k}, lo, hi) <= Differing(local, remote, 0, MAX_KEY);
  }

  lemma DiffersAt(local: ItemMap, remote: ItemMap, k: Key)
    requires Differing(local, remote, 0, MAX_KEY) == {k}
    ensures k in local || k in remote
    ensures k in local && k in remote ==> local[k].fingerprint != remote[k].fingerprint
  {
    assert k in Differing(local, remote, 0, MAX_KEY);
  }

  /** Over any range that holds the only difference between the sides, the fingerprints differ. */
  lemma LoneDifferenceShows(local: ItemMap, remote: ItemMap, lo: Key, hi: Key, k: Key)
    requires lo <= k <= hi && Differing(local, remote, 0, MAX_KEY) == {k}
    ensures FingerprintOf(local, lo, hi) != FingerprintOf(remote, lo, hi)
  {
    hide FingerprintOf, Xor;
    SameWithout(local, remote, lo, hi, k);
    DiffersAt(local, remote, k);
    SameContentSameFingerprint(local - {k}, remote - {k}, lo, hi);
    hide Differing;
    FingerprintWithout(local, lo, hi, k);
    FingerprintWithout(remote, lo, hi, k);
    if k in local && k in remote {
      XorTellsApart(FingerprintOf(local - {k}, lo, hi).xorChecksum, local[k].fingerprint, remote[k].fingerprint);
    }
  }

  lemma CollisionHoldsDifference(local: ItemMap, remote: ItemMap, lo: Key, hi: Key, k: Key)
    requires Collision(local, remote, lo, hi) && Differing(local, remote, 0, MAX_KEY) == {k}
    ensures lo <= k <= hi
  {
    hide FingerprintOf;
    var j :| j in Differing(local, remote, lo, hi);
    assert j in Differing(local, remote, 0, MAX_KEY);
  }

  /** A single difference is always found, at every threshold. */
  lemma LoneDifferenceIsReported(local: ItemMap, remote: ItemMap, threshold: nat, k: Key)
    requires Differing(local, remote, 0, MAX_KEY) == {k}
    ensures ReportedMissing(local, remote, threshold) == remote.Keys - local.Keys
            && ReportedMismatches(local, remote, threshold) == Mismatched(local, remote)
  {
    ExactWithoutCollisions(local, remote, threshold);
    hide Skipped, FingerprintOf, Differing, ReportedMissing, ReportedMismatches, Compared;
    forall r: (Key, Key) ensures !Collision(local, remote, r.0, r.1) {
      if Collision(local, remote, r.0, r.1) {
        CollisionHoldsDifference(local, remote, r.0, r.1, k);
        LoneDifferenceShows(local, remote, r.0, r.1, k);
      }
    }
  }

  // ---- cost ----

  lemma Pow2Of64()
    ensures Pow2(64) == KEY_LIMIT
  {
    assert Pow2(2) == 4;
    Pow2Sum(2, 2);
    Pow2Sum(4, 4);
    Pow2Sum(8, 8);
    Pow2Sum(16, 16);
    Pow2Sum(32, 32);
  }

  function AtLeastOne(threshold: nat): nat {
    if threshold == 0 then 1 else threshold
  }

  lemma DifferingSplits(local: ItemMap, remote: ItemMap, lo: Key, hi: Key, mid: Key, next: Key)
    requires lo <= mid < hi && next == mid + 1
    ensures |Differing(local, remote, lo, hi)|
         == |Differing(local, remote, lo, mid)| + |Differing(local, remote, next, hi)|
  {
    var left, right := Differing(local, remote, lo, mid), Differing(local, remote, next, hi);
    assert Differing(local, remote, lo, hi) == left + right;
    assert left !! right;
  }

  lemma StepArithmetic(h: nat, left: nat, right: nat)
    requires h > 0 && left + right > 0
    ensures (1 + 2 * (h - 1) * left) + (1 + 2 * (h - 1) * right) + 1 <= 1 + 2 * h * (left + right)
  {
    assert 2 * h * (left + right) == 2 * (h - 1) * left + 2 * (h - 1) * right + 2 * (left + right);
  }

  lemma DisjointSizes<T>(x: T, a: set<T>, b: set<T>)
    requires x !in a && x !in b && a !! b
    ensures |{x} + a + b| == 1 + |a| + |b|
  {
    assert |{x} + a| == 1 + |a|;
  }

  lemma ComparedSplits(local: ItemMap, remote: ItemMap, lo: Key, hi: Key, mid: Key, next: Key, threshold: nat)
    requires lo < hi && FingerprintOf(local, lo, hi) != FingerprintOf(remote, lo, hi)
    requires !Resolved(local, remote, lo, hi, threshold) && mid == Middle(lo, hi) && next == mid + 1
    ensures |ComparedRanges(local, remote, lo, hi, threshold)|
         == 1 + |ComparedRanges(local, remote, lo, mid, threshold)| + |ComparedRanges(local, remote, next, hi, threshold)|
  {
    hide FingerprintOf, Resolved;
    var left := ComparedRanges(local, remote, lo, mid, threshold);
    var right := ComparedRanges(local, remote, next, hi, threshold);
    assert ComparedRanges(local, remote, lo, hi, threshold) == {(lo, hi)} + left + right;
    hide ComparedRanges;
    ComparedWithin(local, remote, lo, mid, threshold);
    ComparedWithin(local, remote, next, hi, threshold);
    DisjointSizes((lo, hi), left, right);
  }

  /** The reported number of round trips counts every compared range once. */
  lemma {:induction false} StepsCountRanges(local: ItemMap, remote: ItemMap, lo: Key, hi: Key, threshold: nat)
    requires lo <= hi
    ensures ReconcileRange(local, remote, lo, hi, threshold).1 == |ComparedRanges(local, remote, lo, hi, threshold)|
    decreases hi - lo
  {
    PointIsResolved(local, remote, lo, hi, threshold);
    hide FingerprintOf, Resolved, Range;
    if FingerprintOf(local, lo, hi) == FingerprintOf(remote, lo, hi) || Resolved(local, remote, lo, hi, threshold) {
    } else {
      var mid := Middle(lo, hi);
      ComparedSplits(local, remote, lo, hi, mid, mid + 1, threshold);
      hide ComparedRanges;
      StepsCountRanges(local, remote, lo, mid, threshold);
      StepsCountRanges(local, remote, mid + 1, hi, threshold);
    }
  }

  lemma StepsArePositive(local: ItemMap, remote: ItemMap, lo: Key, hi: Key, threshold: nat)
    requires lo <= hi
    ensures ReconcileRange(local, remote, lo, hi, threshold).1 > 0
  {
    hide FingerprintOf;
  }

  /** A range takes a single comparison exactly when it is a single key, both sides look the same in
      it, or neither side has more than `threshold` items in it. */
  lemma OneComparison(local: ItemMap, remote: ItemMap, lo: Key, hi: Key, threshold: nat)
    requires lo <= hi
    ensures ReconcileRange(local, remote, lo, hi, threshold).1 == 1 <==>
            || lo == hi
            || FingerprintOf(local, lo, hi) == FingerprintOf(remote, lo, hi)
            || (|set k | k in local && lo <= k <= hi| <= threshold && |set k | k in remote && lo <= k <= hi| <= threshold)
  {
    hide FingerprintOf, HasBit;
    FingerprintMeans(local, lo, hi, 1);
    FingerprintMeans(remote, lo, hi, 1);
    if lo < hi {
      StepsArePositive(local, remote, lo, Middle(lo, hi), threshold);
      StepsArePositive(local, remote, Middle(lo, hi) + 1, hi, threshold);
    }
  }

  /** With `d` differing keys in a range of at most `2^h` keys, at most `1 + 2*h*d` ranges are compared. */
  lemma {:induction false} StepsBounded(local: ItemMap, remote: ItemMap, lo: Key, hi: Key, threshold: nat, h: nat)
    requires lo <= hi && hi - lo < Pow2(h)
    ensures ReconcileRange(local, remote, lo, hi, threshold).1 <= 1 + 2 * h * |Differing(local, remote, lo, hi)|
    decreases hi - lo
  {
    hide FingerprintOf, Differing;
    if FingerprintOf(local, lo, hi) == FingerprintOf(remote, lo, hi) || Resolved(local, remote, lo, hi, threshold) {
    } else {
      if Differing(local, remote, lo, hi) == {} { SameContentSameFingerprint(local, remote, lo, hi); }
      var mid := Middle(lo, hi);
      StepsBounded(local, remote, lo, mid, threshold, h - 1);
      StepsBounded(local, remote, mid + 1, hi, threshold, h - 1);
      DifferingSplits(local, remote, lo, hi, mid, mid + 1);
      StepArithmetic(h, |Differing(local, remote, lo, mid)|, |Differing(local, remote, mid + 1, hi)|);
    }
  }

  lemma ItemArithmetic(left: nat, right: nat, t: nat, leftItems: nat, rightItems: nat)
    requires leftItems <= left * t && rightItems <= right * t
    ensures leftItems + rightItems <= (left + right) * t
  {
    assert (left + right) * t == left * t + right * t;
  }

  lemma SingleKeyRange(m: ItemMap, lo: Key, hi: Key)
    ensures lo == hi ==> |Range(m, lo, hi)| <= 1
  {
    if lo == hi {
      if lo in m {
        assert KeysIn(m, lo, hi) == {lo};
        SelectOne(m, lo);
      } else {
        assert KeysIn(m, lo, hi) == {};
      }
    }
  }

  lemma ResolvedRangeIsSmall(local: ItemMap, remote: ItemMap, lo: Key, hi: Key, threshold: nat)
    requires Resolved(local, remote, lo, hi, threshold)
    ensures |Range(remote, lo, hi)| <= AtLeastOne(threshold)
    ensures forall d: nat | d > 0 :: AtLeastOne(threshold) <= d * AtLeastOne(threshold)
  {
    SingleKeyRange(remote, lo, hi);
  }

  /** At most `max(threshold, 1)` items are returned per differing key. */
  lemma {:induction false} ItemsBounded(local: ItemMap, remote: ItemMap, lo: Key, hi: Key, threshold: nat)
    requires lo <= hi
    ensures |ReconcileRange(local, remote, lo, hi, threshold).0|
         <= |Differing(local, remote, lo, hi)| * AtLeastOne(threshold)
    decreases hi - lo
  {
    PointIsResolved(local, remote, lo, hi, threshold);
    hide Differing, FingerprintOf, Resolved, AtLeastOne, Range;
    if FingerprintOf(local, lo, hi) == FingerprintOf(remote, lo, hi) {
    } else {
      if Differing(local, remote, lo, hi) == {} { SameContentSameFingerprint(local, remote, lo, hi); }
      if Resolved(local, remote, lo, hi, threshold) {
        ResolvedRangeIsSmall(local, remote, lo, hi, threshold);
      } else {
        var mid := Middle(lo, hi);
        ItemsBounded(local, remote, lo, mid, threshold);
        ItemsBounded(local, remote, mid + 1, hi, threshold);
        DifferingSplits(local, remote, lo, hi, mid, mid + 1);
        ItemArithmetic(|Differing(local, remote, lo, mid)|, |Differing(local, remote, mid + 1, hi)|, AtLeastOne(threshold),
                       |ReconcileRange(local, remote, lo, mid, threshold).0|,
                       |ReconcileRange(local, remote, mid + 1, hi, threshold).0|);
      }
    }
  }

  /** A full pass over 64-bit keys with `d` differences takes at most `1 + 2*64*d` comparisons. */
  lemma PassBounded(local: ItemMap, remote: ItemMap, threshold: nat)
    ensures ReconcileRange(local, remote, 0, MAX_KEY, threshold).1
         <= 1 + 2 * 64 * |Differing(local, remote, 0, MAX_KEY)|
    ensures |ReconcileRange(local, remote, 0, MAX_KEY, threshold).0|
         <= |Differing(local, remote, 0, MAX_KEY)| * AtLeastOne(threshold)
  {
    Pow2Of64();
    hide ReconcileRange, Differing, Pow2;
    StepsBounded(local, remote, 0, MAX_KEY, threshold, 64);
    ItemsBounded(local, remote, 0, MAX_KEY, threshold);
  }
}
