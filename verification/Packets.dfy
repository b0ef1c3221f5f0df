/** The recursive PIP packet tree of src/p2p.rs: splitting with parity, and reconstruction. */
module Packets {
  import opened Ordering
  import opened Prelude

  type Bytes = seq<bv8>

  datatype PacketHeader = PacketHeader(seqNum: nat, totalPackets: nat)

  datatype ProtocolSlice = ProtocolSlice(id: string, header: PacketHeader, data: Bytes, isParity: bool)

  datatype TransferError = MixedRoots | MixedTotals

  datatype Reconstruction = Rebuilt(payload: Bytes) | Failed(error: TransferError)

  function Max(a: nat, b: nat): nat {
    if a < b then b else a
  }

  // ---- parity ----

  function ByteAt(s: Bytes, i: nat): bv8 {
    if i < |s| then s[i] else 0
  }

  /** Byte-wise exclusive or, the shorter operand padded with zeros. */
  function Parity(left: Bytes, right: Bytes): Bytes {
    seq(Max(|left|, |right|), i requires 0 <= i => ByteAt(left, i) ^ ByteAt(right, i))
  }

  method CalculateParity(left: Bytes, right: Bytes) returns (parity: Bytes)
    ensures parity == Parity(left, right)
    ensures |parity| == if |left| < |right| then |right| else |left|
    ensures forall i | 0 <= i < |parity| ::
              parity[i] == (if i < |left| then left[i] else 0) ^ (if i < |right| then right[i] else 0)
  {
    var maxLen := Max(|left|, |right|);
    var buffer := new bv8[maxLen](_ => 0);
    for i := 0 to maxLen
      invariant forall j | 0 <= j < i :: buffer[j] == ByteAt(left, j) ^ ByteAt(right, j)
    {
      var l := if i < |left| then left[i] else 0;
      var r := if i < |right| then right[i] else 0;
      buffer[i] := l ^ r;
    }
    parity := buffer[..];
  }

  lemma XorCancels(a: bv8, b: bv8)
    ensures (a ^ b) ^ a == b && (a ^ b) ^ b == a && 0 ^ a == a && a ^ 0 == a
  {
  }

  /** The parity of two halves and either half give the other half back. */
  lemma ParityGivesHalves(left: Bytes, right: Bytes)
    requires |left| <= |right|
    ensures Parity(Parity(left, right), left) == right
    ensures Parity(Parity(left, right), right)[..|left|] == left
  {
    forall i | 0 <= i < |right| {
      XorCancels(ByteAt(left, i), right[i]);
    }
  }

  // ---- the tree ----

  /** The slices of the tree rooted at `id`, numbered from `first`, in depth-first order with each
      parity slice after its two subtrees. */
  function Tree(id: string, data: Bytes, threshold: nat, first: nat, total: nat): (slices: seq<ProtocolSlice>)
    requires threshold > 0
    ensures |slices| > 0
    decreases |data|
  {
    if |data| <= threshold then
      [ProtocolSlice(id, PacketHeader(first, total), data, false)]
    else
      var half := |data| / 2;
      var left := Tree(id + ".0", data[..half], threshold, first, total);
      var right := Tree(id + ".1", data[half..], threshold, first + |left|, total);
      left + right + [ProtocolSlice(id + ".P", PacketHeader(first + |left| + |right|, total),
                                    Parity(data[..half], data[half..]), true)]
  }

  /** The parts of a tree that is split. */
  lemma SplitTree(id: string, data: Bytes, threshold: nat, first: nat, total: nat)
    returns (left: seq<ProtocolSlice>, right: seq<ProtocolSlice>, parity: ProtocolSlice)
    requires 0 < threshold < |data|
    ensures left == Tree(id + ".0", data[..|data| / 2], threshold, first, total)
    ensures right == Tree(id + ".1", data[|data| / 2..], threshold, first + |left|, total)
    ensures parity == ProtocolSlice(id + ".P", PacketHeader(first + |left| + |right|, total),
                                    Parity(data[..|data| / 2], data[|data| / 2..]), true)
    ensures Tree(id, data, threshold, first, total) == left + right + [parity]
  {
    left := Tree(id + ".0", data[..|data| / 2], threshold, first, total);
    right := Tree(id + ".1", data[|data| / 2..], threshold, first + |left|, total);
    parity := ProtocolSlice(id + ".P", PacketHeader(first + |left| + |right|, total),
                            Parity(data[..|data| / 2], data[|data| / 2..]), true);
  }

  lemma SingleSlice(id: string, data: Bytes, threshold: nat, first: nat, total: nat)
    requires 0 < threshold && |data| <= threshold
    ensures Tree(id, data, threshold, first, total) == [ProtocolSlice(id, PacketHeader(first, total), data, false)]
  {
  }

  function Dots(id: string): nat {
    if id == "" then 0 else Dots(id[..|id| - 1]) + if id[|id| - 1] == '.' then 1 else 0
  }

  /** The largest number of dots in the id of a data slice. */
  function LeafDots(id: string, data: Bytes, threshold: nat): nat
    requires threshold > 0
    decreases |data|
  {
    if |data| <= threshold then Dots(id)
    else Max(LeafDots(id + ".0", data[..|data| / 2], threshold), LeafDots(id + ".1", data[|data| / 2..], threshold))
  }

  method RecursivePacketize(id: string, data: Bytes, threshold: nat, seqNum: nat, maxDepth: nat)
    returns (slices: seq<ProtocolSlice>, nextSeq: nat, depth: nat)
    requires threshold > 0
    ensures slices == Tree(id, data, threshold, seqNum, 0)
    ensures nextSeq == seqNum + |slices|
    ensures depth == Max(maxDepth, LeafDots(id, data, threshold))
    decreases |data|
  {
    if |data| <= threshold {
      slices := [ProtocolSlice(id, PacketHeader(seqNum, 0), data, false)];
      return slices, seqNum + 1, Max(maxDepth, Dots(id));
    }
    var half := |data| / 2;
    var leftData := data[..half];
    var rightData := data[half..];
    var parityData := CalculateParity(leftData, rightData);
    slices, nextSeq, depth := RecursivePacketize(id + ".0", leftData, threshold, seqNum, maxDepth);
    var right;
    right, nextSeq, depth := RecursivePacketize(id + ".1", rightData, threshold, nextSeq, depth);
    slices := slices + right;
    slices := slices + [ProtocolSlice(id + ".P", PacketHeader(nextSeq, 0), parityData, true)];
    nextSeq := nextSeq + 1;
  }

  function WithTotal(slices: seq<ProtocolSlice>, total: nat): (r: seq<ProtocolSlice>)
    ensures |r| == |slices|
    ensures forall i | 0 <= i < |r| :: r[i] == slices[i].(header := slices[i].header.(totalPackets := total))
  {
    seq(|slices|, i requires 0 <= i < |slices| => slices[i].(header := slices[i].header.(totalPackets := total)))
  }

  lemma WithTotalConcat(a: seq<ProtocolSlice>, b: seq<ProtocolSlice>, total: nat)
    ensures WithTotal(a + b, total) == WithTotal(a, total) + WithTotal(b, total)
  {
  }

  lemma {:induction false} TreeWithTotal(id: string, data: Bytes, threshold: nat, first: nat, before: nat, total: nat)
    requires threshold > 0
    ensures WithTotal(Tree(id, data, threshold, first, before), total) == Tree(id, data, threshold, first, total)
    decreases |data|
  {
    hide Tree, Parity;
    if |data| <= threshold {
      SingleSlice(id, data, threshold, first, before);
      SingleSlice(id, data, threshold, first, total);
    } else {
      var half := |data| / 2;
      var left, right, parity := SplitTree(id, data, threshold, first, before);
      var left', right', parity' := SplitTree(id, data, threshold, first, total);
      hide WithTotal;
      TreeWithTotal(id + ".0", data[..half], threshold, first, before, total);
      TreeWithTotal(id + ".1", data[half..], threshold, first + |left|, before, total);
      WithTotalConcat(left, right, total);
      WithTotalConcat(left + right, [parity], total);
      assert WithTotal([parity], total) == [parity'];
    }
  }

  function TreeSize(len: nat, threshold: nat): nat
    requires threshold > 0
  {
    if len <= threshold then 1 else TreeSize(len / 2, threshold) + TreeSize(len - len / 2, threshold) + 1
  }

  lemma {:induction false} TreeHasSize(id: string, data: Bytes, threshold: nat, first: nat, total: nat)
    requires threshold > 0
    ensures |Tree(id, data, threshold, first, total)| == TreeSize(|data|, threshold)
    decreases |data|
  {
    hide Tree, Parity;
    if |data| <= threshold {
      SingleSlice(id, data, threshold, first, total);
    } else {
      var half := |data| / 2;
      var left, right, parity := SplitTree(id, data, threshold, first, total);
      TreeHasSize(id + ".0", data[..half], threshold, first, total);
      TreeHasSize(id + ".1", data[half..], threshold, first + |left|, total);
    }
  }

  /** `packetize_payload`: the guarded threshold, numbering from 0, every header carrying the count. */
  function PacketsOf(rootId: string, payload: Bytes, threshold: nat): seq<ProtocolSlice> {
    Tree(rootId, payload, Max(threshold, 1), 0, TreeSize(|payload|, Max(threshold, 1)))
  }

  method PacketizePayload(rootId: string, payload: Bytes, threshold: nat) returns (slices: seq<ProtocolSlice>)
    ensures slices == PacketsOf(rootId, payload, threshold)
  {
    var t := Max(threshold, 1);
    var nextSeq, depth;
    slices, nextSeq, depth := RecursivePacketize(rootId, payload, t, 0, 0);
    ghost var tree := slices;
    var total := |slices|;
    hide Tree, TreeSize, LeafDots, WithTotal;
    for i := 0 to |slices|
      invariant |slices| == |tree| == total
      invariant forall j | 0 <= j < i :: slices[j] == WithTotal(tree, total)[j]
      invariant forall j | i <= j < total :: slices[j] == tree[j]
    {
      slices := slices[i := slices[i].(header := slices[i].header.(totalPackets := total))];
    }
    assert slices == WithTotal(tree, total);
    TreeHasSize(rootId, payload, t, 0, 0);
    TreeWithTotal(rootId, payload, t, 0, 0, total);
  }

  // ---- reconstruction ----

  /** `id.split('.').next()` */
  function FirstSegment(id: string): string {
    if id == "" || id[0] == '.' then "" else [id[0]] + FirstSegment(id[1..])
  }

  function DataSlices(slices: seq<ProtocolSlice>): seq<ProtocolSlice> {
    if slices == [] then []
    else (if slices[0].isParity then [] else [slices[0]]) + DataSlices(slices[1..])
  }

  function Joined(slices: seq<ProtocolSlice>): Bytes {
    if slices == [] then [] else slices[0].data + Joined(slices[1..])
  }

  function BySeqNum(): (ProtocolSlice, ProtocolSlice) -> bool {
    (a: ProtocolSlice, b: ProtocolSlice) => a.header.seqNum < b.header.seqNum
  }

  /** `root` is the text of `id` before its first dot, or all of it. */
  ghost predicate IsRoot(root: string, id: string) {
    '.' !in root && (id == root || root + "." <= id)
  }

  lemma {:induction false} FirstSegmentIsRoot(id: string)
    ensures IsRoot(FirstSegment(id), id)
  {
    if id == "" || id[0] == '.' {
    } else {
      FirstSegmentIsRoot(id[1..]);
      assert id == [id[0]] + id[1..];
      if FirstSegment(id[1..]) + "." <= id[1..] {
        assert FirstSegment(id) + "." == [id[0]] + (FirstSegment(id[1..]) + ".");
      }
    }
  }

  lemma RootIsNoLonger(root: string, other: string, id: string)
    requires IsRoot(root, id) && IsRoot(other, id)
    ensures |root| <= |other|
  {
    if |other| < |id| {
      assert id[|other|] == (other + ".")[|other|];
      assert forall i | 0 <= i < |root| :: root[i] == id[i];
    }
  }

  lemma RootUnique(root: string, other: string, id: string)
    requires IsRoot(root, id) && IsRoot(other, id)
    ensures root == other
  {
    RootIsNoLonger(root, other, id);
    RootIsNoLonger(other, root, id);
    assert root == id[..|root|] && other == id[..|other|];
  }

  /** The first segment of an id is its root. */
  lemma RootIsFirstSegment(root: string, id: string)
    ensures IsRoot(root, id) <==> root == FirstSegment(id)
  {
    FirstSegmentIsRoot(id);
    if IsRoot(root, id) { RootUnique(root, FirstSegment(id), id); }
  }

  ghost predicate Fits(slice: ProtocolSlice, rootId: string, total: nat) {
    IsRoot(rootId, slice.id) && slice.header.totalPackets == total
  }

  /** Of two positions, `p` holds the smaller sequence number, or the same one earlier. */
  predicate Earlier(slices: seq<ProtocolSlice>, p: nat, q: nat)
    requires p < |slices| && q < |slices|
  {
    || slices[p].header.seqNum < slices[q].header.seqNum
    || (slices[p].header.seqNum == slices[q].header.seqNum && p < q)
  }

  ghost predicate ListsData(slices: seq<ProtocolSlice>, at: seq<nat>) {
    && Positions(slices, at)
    && forall p: nat | p < |slices| :: p in at <==> !slices[p].isParity
  }

  /** `at` lists the positions of the data slices by ascending sequence number, and of slices with the
      same number the earlier first. */
  ghost predicate InSequence(slices: seq<ProtocolSlice>, at: seq<nat>) {
    && ListsData(slices, at)
    && forall i, j | 0 <= i < j < |at| :: Earlier(slices, at[i], at[j])
  }

  ghost predicate IsIncreasing(at: seq<nat>) {
    forall i, j | 0 <= i < j < |at| :: at[i] < at[j]
  }

  lemma ListsDataFront(slices: seq<ProtocolSlice>, rest: seq<nat>, at: seq<nat>)
    requires slices != [] && ListsData(slices[1..], rest) && IsIncreasing(rest)
    requires at == (if slices[0].isParity then [] else [0]) + Shifted(rest)
    ensures ListsData(slices, at) && IsIncreasing(at)
  {
    assert Positions(slices, at);
    forall p: nat | p < |slices| ensures p in at <==> !slices[p].isParity {
      ShiftedElements(rest, p);
      if p > 0 { assert slices[p] == slices[1..][p - 1]; }
    }
  }

  lemma {:induction false} DataPositions(slices: seq<ProtocolSlice>) returns (at: seq<nat>)
    ensures ListsData(slices, at) && IsIncreasing(at)
    ensures DataSlices(slices) == Picked(slices, at)
  {
    if slices == [] {
      at := [];
    } else {
      var rest := DataPositions(slices[1..]);
      at := (if slices[0].isParity then [] else [0]) + Shifted(rest);
      ListsDataFront(slices, rest, at);
    }
  }

  lemma BySeqNumIsWeakOrder()
    ensures IsWeakOrder(BySeqNum())
  {
  }

  /** Listing a listing: the positions that `order` picks out of `from`. */
  lemma ListsDataComposed(slices: seq<ProtocolSlice>, from: seq<nat>, order: seq<nat>)
    requires ListsData(slices, from) && Positions(from, order) && ListsAll(|from|, order)
    ensures ListsData(slices, Picked(from, order))
  {
    var at := Picked(from, order);
    forall p: nat ensures p in at <==> p in from {
      if p in at {
        var i :| 0 <= i < |at| && at[i] == p;
        assert from[order[i]] in from;
      }
      if p in from {
        var i: nat :| 0 <= i < |from| && from[i] == p;
        assert i in order;
        var j :| 0 <= j < |order| && order[j] == i;
        assert at[j] == p;
      }
    }
    assert Positions(slices, at);
  }

  lemma PickedTwice(slices: seq<ProtocolSlice>, from: seq<nat>, order: seq<nat>)
    requires Positions(slices, from) && Positions(from, order)
    ensures Positions(slices, Picked(from, order)) && Positions(Picked(slices, from), order)
    ensures Picked(Picked(slices, from), order) == Picked(slices, Picked(from, order))
  {
  }

  /** Filtering and sorting puts the data slices in sequence. */
  lemma SortedInSequence(slices: seq<ProtocolSlice>) returns (at: seq<nat>)
    ensures InSequence(slices, at) && Sort(BySeqNum(), DataSlices(slices)) == Picked(slices, at)
  {
    var data := DataSlices(slices);
    var from := DataPositions(slices);
    BySeqNumIsWeakOrder();
    var order := StableSort(BySeqNum(), data);
    hide DataSlices, Sort, IsWeakOrder, ListsAll;
    assert Positions(slices, from);
    PickedTwice(slices, from, order);
    ListsDataComposed(slices, from, order);
    hide ListsData;
    at := Picked(from, order);
    forall i: nat, j: nat | i < j < |at| ensures Earlier(slices, at[i], at[j]) {
      assert Precedes(BySeqNum(), data, order[i], order[j]);
    }
  }

  /** `reconstruct_payload`: the data slices in sequence, joined; or an error that names the first slice
      whose root or total differs from those of the first slice. */
  method ReconstructPayload(slices: seq<ProtocolSlice>) returns (result: Reconstruction)
    ensures slices == [] ==> result == Rebuilt([])
    ensures slices != [] ==>
              forall rootId | IsRoot(rootId, slices[0].id) ::
                var total := slices[0].header.totalPackets;
                match result
                case Rebuilt(payload) =>
                  && (forall slice | slice in slices :: IsRoot(rootId, slice.id) && slice.header.totalPackets == total)
                  && exists at :: InSequence(slices, at) && payload == Joined(Picked(slices, at))
                case Failed(error) =>
                  exists i :: 0 <= i < |slices|
                              && (if error == MixedRoots then !IsRoot(rootId, slices[i].id)
                                  else IsRoot(rootId, slices[i].id) && slices[i].header.totalPackets != total)
                              && forall j | 0 <= j < i :: IsRoot(rootId, slices[j].id) && slices[j].header.totalPackets == total
    ensures result.Rebuilt? ==> result.payload == Joined(Sort(BySeqNum(), DataSlices(slices)))
  {
    if slices == [] {
      return Rebuilt([]);
    }
    forall slice: ProtocolSlice, root ensures IsRoot(root, slice.id) <==> root == FirstSegment(slice.id) {
      RootIsFirstSegment(root, slice.id);
    }
    hide IsRoot, FirstSegment;
    var rootId := FirstSegment(slices[0].id);
    var expectedTotal := slices[0].header.totalPackets;
    for i := 0 to |slices|
      invariant forall j | 0 <= j < i :: Fits(slices[j], rootId, expectedTotal)
    {
      if FirstSegment(slices[i].id) != rootId {
        assert !Fits(slices[i], rootId, expectedTotal);
        return Failed(MixedRoots);
      }
      if slices[i].header.totalPackets != expectedTotal {
        assert !Fits(slices[i], rootId, expectedTotal);
        return Failed(MixedTotals);
      }
    }
    ghost var at := SortedInSequence(slices);
    hide Sort, DataSlices, InSequence;
    result := Rebuilt(Joined(Sort(BySeqNum(), DataSlices(slices))));
  }

  // ---- ids in the tree ----

  /** `x` is `id` or lies below it in the id tree. */
  predicate Under(x: string, id: string) {
    x == id || (|x| > |id| && x[..|id|] == id && x[|id|] == '.')
  }

  lemma UnderChild(x: string, id: string, mark: char)
    requires Under(x, id + "." + [mark])
    ensures Under(x, id) && |x| >= |id| + 2 && x[|id| + 1] == mark
  {
    var child := id + "." + [mark];
    assert child[..|id|] == id;
    assert x[..|child|] == child;
    assert x[..|id|] == x[..|child|][..|id|];
  }

  lemma ChildIds(id: string)
    ensures id + ".0" == id + "." + ['0'] && id + ".1" == id + "." + ['1'] && id + ".P" == id + "." + ['P']
  {
  }

  lemma {:induction false} TreeIdsUnder(id: string, data: Bytes, threshold: nat, first: nat, total: nat, i: nat)
    requires threshold > 0 && i < |Tree(id, data, threshold, first, total)|
    ensures Under(Tree(id, data, threshold, first, total)[i].id, id)
    decreases |data|
  {
    hide Tree, Parity;
    if |data| <= threshold {
      SingleSlice(id, data, threshold, first, total);
    } else {
      var half := |data| / 2;
      var left, right, parity := SplitTree(id, data, threshold, first, total);
      var x := Tree(id, data, threshold, first, total)[i].id;
      ChildIds(id);
      if i < |left| {
        TreeIdsUnder(id + ".0", data[..half], threshold, first, total, i);
        UnderChild(x, id, '0');
      } else if i < |left| + |right| {
        TreeIdsUnder(id + ".1", data[half..], threshold, first + |left|, total, i - |left|);
        UnderChild(x, id, '1');
      } else {
        UnderChild(x, id, 'P');
      }
    }
  }

  /** The character after `id.` tells which part of the tree a slice is in. */
  lemma BranchLabel(id: string, data: Bytes, threshold: nat, first: nat, total: nat, i: nat)
    requires threshold > 0 && |data| > threshold && i < |Tree(id, data, threshold, first, total)|
    ensures var left := Tree(id + ".0", data[..|data| / 2], threshold, first, total);
            var right := Tree(id + ".1", data[|data| / 2..], threshold, first + |left|, total);
            var x := Tree(id, data, threshold, first, total)[i].id;
            && |x| >= |id| + 2
            && x[|id| + 1] == (if i < |left| then '0' else if i < |left| + |right| then '1' else 'P')
  {
    hide Tree, Parity;
    var half := |data| / 2;
    var left, right, parity := SplitTree(id, data, threshold, first, total);
    var x := Tree(id, data, threshold, first, total)[i].id;
    ChildIds(id);
    if i < |left| {
      TreeIdsUnder(id + ".0", data[..half], threshold, first, total, i);
      UnderChild(x, id, '0');
    } else if i < |left| + |right| {
      TreeIdsUnder(id + ".1", data[half..], threshold, first + |left|, total, i - |left|);
      UnderChild(x, id, '1');
    }
  }

  /** Slice ids are pairwise distinct. */
  lemma {:induction false} TreeIdsDistinct(id: string, data: Bytes, threshold: nat, first: nat, total: nat, i: nat, j: nat)
    requires threshold > 0 && i < j < |Tree(id, data, threshold, first, total)|
    ensures Tree(id, data, threshold, first, total)[i].id != Tree(id, data, threshold, first, total)[j].id
    decreases |data|
  {
    hide Tree, Parity;
    if |data| <= threshold { SingleSlice(id, data, threshold, first, total); }
    var half := |data| / 2;
    var left, right, parity := SplitTree(id, data, threshold, first, total);
    if j < |left| {
      TreeIdsDistinct(id + ".0", data[..half], threshold, first, total, i, j);
    } else if |left| <= i && j < |left| + |right| {
      TreeIdsDistinct(id + ".1", data[half..], threshold, first + |left|, total, i - |left|, j - |left|);
    } else {
      BranchLabel(id, data, threshold, first, total, i);
      BranchLabel(id, data, threshold, first, total, j);
    }
  }

  lemma {:induction false} FirstSegmentUnder(x: string, id: string)
    requires Under(x, id)
    ensures FirstSegment(x) == FirstSegment(id)
  {
    if x != id && id != "" && id[0] != '.' {
      assert x[0] == x[..|id|][0] == id[0];
      assert x[1..][..|id| - 1] == x[..|id|][1..] == id[1..];
      FirstSegmentUnder(x[1..], id[1..]);
    }
  }

  // ---- numbering, sizes and depth ----

  /** Slice `i` of a tree carries sequence number `first + i` and the total. */
  lemma {:induction false} TreeNumbering(id: string, data: Bytes, threshold: nat, first: nat, total: nat, i: nat)
    requires threshold > 0 && i < |Tree(id, data, threshold, first, total)|
    ensures Tree(id, data, threshold, first, total)[i].header == PacketHeader(first + i, total)
    decreases |data|
  {
    hide Tree, Parity;
    if |data| <= threshold {
      SingleSlice(id, data, threshold, first, total);
    } else {
      var half := |data| / 2;
      var left, right, parity := SplitTree(id, data, threshold, first, total);
      if i < |left| {
        TreeNumbering(id + ".0", data[..half], threshold, first, total, i);
      } else if i < |left| + |right| {
        TreeNumbering(id + ".1", data[half..], threshold, first + |left|, total, i - |left|);
      }
    }
  }

  lemma {:induction false} DataSlicesConcat(a: seq<ProtocolSlice>, b: seq<ProtocolSlice>)
    ensures DataSlices(a + b) == DataSlices(a) + DataSlices(b)
  {
    if a == [] {
      assert a + b == b;
    } else {
      assert (a + b)[1..] == a[1..] + b;
      DataSlicesConcat(a[1..], b);
    }
  }

  lemma {:induction false} JoinedConcat(a: seq<ProtocolSlice>, b: seq<ProtocolSlice>)
    ensures Joined(a + b) == Joined(a) + Joined(b)
  {
    if a == [] {
      assert a + b == b;
    } else {
      assert (a + b)[1..] == a[1..] + b;
      JoinedConcat(a[1..], b);
    }
  }

  lemma DataOfSplit(left: seq<ProtocolSlice>, right: seq<ProtocolSlice>, parity: ProtocolSlice)
    requires parity.isParity
    ensures DataSlices(left + right + [parity]) == DataSlices(left) + DataSlices(right)
  {
    DataSlicesConcat(left + right, [parity]);
    DataSlicesConcat(left, right);
    assert [parity][1..] == [];
  }

  lemma DataOfLeaf(slice: ProtocolSlice)
    requires !slice.isParity
    ensures DataSlices([slice]) == [slice] && Joined([slice]) == slice.data
  {
    assert [slice][1..] == [];
  }

  /** The data slices hold the payload, in order. */
  lemma {:induction false} TreeHoldsData(id: string, data: Bytes, threshold: nat, first: nat, total: nat)
    requires threshold > 0
    ensures Joined(DataSlices(Tree(id, data, threshold, first, total))) == data
    ensures DataSlices(Tree(id, data, threshold, first, total)) != []
    decreases |data|
  {
    hide Tree, Parity;
    if |data| <= threshold {
      SingleSlice(id, data, threshold, first, total);
      DataOfLeaf(ProtocolSlice(id, PacketHeader(first, total), data, false));
    } else {
      var half := |data| / 2;
      var left, right, parity := SplitTree(id, data, threshold, first, total);
      hide Joined, DataSlices;
      TreeHoldsData(id + ".0", data[..half], threshold, first, total);
      TreeHoldsData(id + ".1", data[half..], threshold, first + |left|, total);
      DataOfSplit(left, right, parity);
      JoinedConcat(DataSlices(left), DataSlices(right));
      assert data == data[..half] + data[half..];
    }
  }

  /** With `L` data slices a tree has `2L - 1` slices. */
  lemma {:induction false} TreeShape(id: string, data: Bytes, threshold: nat, first: nat, total: nat)
    requires threshold > 0
    ensures |Tree(id, data, threshold, first, total)| == 2 * |DataSlices(Tree(id, data, threshold, first, total))| - 1
    decreases |data|
  {
    hide Tree, Parity;
    if |data| <= threshold {
      SingleSlice(id, data, threshold, first, total);
      DataOfLeaf(ProtocolSlice(id, PacketHeader(first, total), data, false));
    } else {
      var half := |data| / 2;
      var left, right, parity := SplitTree(id, data, threshold, first, total);
      hide DataSlices;
      TreeShape(id + ".0", data[..half], threshold, first, total);
      TreeShape(id + ".1", data[half..], threshold, first + |left|, total);
      DataOfSplit(left, right, parity);
    }
  }

  lemma {:induction false} DataSlicesAre(slices: seq<ProtocolSlice>)
    ensures forall slice :: slice in DataSlices(slices) <==> slice in slices && !slice.isParity
  {
    if slices == [] {
    } else {
      assert slices == [slices[0]] + slices[1..];
      DataSlicesAre(slices[1..]);
    }
  }

  /** No data slice exceeds the threshold. */
  lemma {:induction false} LeavesFit(id: string, data: Bytes, threshold: nat, first: nat, total: nat, i: nat)
    requires threshold > 0 && i < |Tree(id, data, threshold, first, total)|
    requires !Tree(id, data, threshold, first, total)[i].isParity
    ensures |Tree(id, data, threshold, first, total)[i].data| <= threshold
    decreases |data|
  {
    hide Tree, Parity;
    if |data| <= threshold {
      SingleSlice(id, data, threshold, first, total);
    } else {
      var half := |data| / 2;
      var left, right, parity := SplitTree(id, data, threshold, first, total);
      if i < |left| {
        LeavesFit(id + ".0", data[..half], threshold, first, total, i);
      } else {
        LeavesFit(id + ".1", data[half..], threshold, first + |left|, total, i - |left|);
      }
    }
  }

  lemma Distribute(a: nat, b: nat, m: nat)
    ensures (a + b) * m == a * m + b * m
  {
  }

  /** Once the payload is split at all, data slices average at least half the threshold. */
  lemma {:induction false} SlicesHalfFull(id: string, data: Bytes, threshold: nat, first: nat, total: nat)
    requires 0 < threshold && |data| >= (threshold + 1) / 2
    ensures |DataSlices(Tree(id, data, threshold, first, total))| * ((threshold + 1) / 2) <= |data|
    decreases |data|
  {
    hide Tree, Parity;
    if |data| <= threshold {
      SingleSlice(id, data, threshold, first, total);
      DataOfLeaf(ProtocolSlice(id, PacketHeader(first, total), data, false));
    } else {
      var half := |data| / 2;
      var left, right, parity := SplitTree(id, data, threshold, first, total);
      hide DataSlices;
      SlicesHalfFull(id + ".0", data[..half], threshold, first, total);
      SlicesHalfFull(id + ".1", data[half..], threshold, first + |left|, total);
      DataOfSplit(left, right, parity);
      Distribute(|DataSlices(left)|, |DataSlices(right)|, (threshold + 1) / 2);
    }
  }

  function Levels(len: nat, threshold: nat): nat
    requires threshold > 0
  {
    if len <= threshold then 0 else 1 + Levels(len - len / 2, threshold)
  }

  /** `Levels` is the least `d` with `len <= threshold * 2^d`. */
  lemma {:induction false} LevelsIsLeast(len: nat, threshold: nat, d: nat)
    requires threshold > 0
    ensures len <= threshold * Pow2(d) <==> Levels(len, threshold) <= d
    decreases len
  {
    if len > threshold {
      if d == 0 {
        assert threshold * Pow2(0) == threshold;
      } else {
        LevelsIsLeast(len - len / 2, threshold, d - 1);
        var half := threshold * Pow2(d - 1);
        assert threshold * Pow2(d) == 2 * half;
      }
    } else {
      assert threshold * Pow2(d) >= threshold;
    }
  }

  lemma LevelsGrow(len: nat, threshold: nat)
    requires threshold > 0
    ensures Levels(len / 2, threshold) <= Levels(len - len / 2, threshold)
  {
    var d := Levels(len - len / 2, threshold);
    LevelsIsLeast(len - len / 2, threshold, d);
    LevelsIsLeast(len / 2, threshold, d);
  }

  /** `id.matches('.').count()` */
  lemma {:induction false} DotsCount(id: string)
    ensures Dots(id) == multiset(id)['.']
  {
    if id == "" {
    } else {
      DotsCount(id[..|id| - 1]);
      assert id == id[..|id| - 1] + [id[|id| - 1]];
    }
  }

  lemma DotsOfChild(id: string, mark: string)
    requires mark == ".0" || mark == ".1"
    ensures Dots(id + mark) == Dots(id) + 1
  {
    var child := id + mark;
    assert child[..|child| - 1] == id + ".";
    assert (id + ".")[..|id|] == id;
  }

  /** The recorded depth exceeds the dots of the root id by the number of levels. */
  lemma {:induction false} LeafDotsAreLevels(id: string, data: Bytes, threshold: nat)
    requires threshold > 0
    ensures LeafDots(id, data, threshold) == Dots(id) + Levels(|data|, threshold)
    decreases |data|
  {
    if |data| <= threshold {
    } else {
      var half := |data| / 2;
      LeafDotsAreLevels(id + ".0", data[..half], threshold);
      LeafDotsAreLevels(id + ".1", data[half..], threshold);
      DotsOfChild(id, ".0");
      DotsOfChild(id, ".1");
      LevelsGrow(|data|, threshold);
    }
  }

  /** The output of `packetize_payload`: slice `i` has number `i`, every header carries the count
      `2L - 1`, and the `L` data slices are bounded both ways. */
  lemma PacketsShape(rootId: string, payload: Bytes, threshold: nat, i: nat)
    requires i < |PacketsOf(rootId, payload, threshold)|
    ensures var all, t := PacketsOf(rootId, payload, threshold), if threshold == 0 then 1 else threshold;
            var leaves := |DataSlices(all)|;
            && |all| == 2 * leaves - 1
            && Under(all[i].id, rootId) && (|payload| <= t ==> all[i].id == rootId)
            && all[i].header == PacketHeader(i, 2 * leaves - 1)
            && (!all[i].isParity ==> |all[i].data| <= t)
            && (|payload| > t ==> leaves * ((t + 1) / 2) <= |payload|)
  {
    hide Tree, DataSlices;
    var t := Max(threshold, 1);
    var total := TreeSize(|payload|, t);
    TreeHasSize(rootId, payload, t, 0, total);
    TreeShape(rootId, payload, t, 0, total);
    TreeNumbering(rootId, payload, t, 0, total, i);
    TreeIdsUnder(rootId, payload, t, 0, total, i);
    if |payload| <= t { SingleSlice(rootId, payload, t, 0, total); }
    if !PacketsOf(rootId, payload, threshold)[i].isParity { LeavesFit(rootId, payload, t, 0, total, i); }
    if |payload| > t { SlicesHalfFull(rootId, payload, t, 0, total); }
  }

  // ---- round trip ----

  lemma BySeqNumIsStrictOrder()
    ensures Asymmetric(BySeqNum()) && Transitive(BySeqNum())
  {
  }

  lemma {:induction false} DataSlicesAscend(slices: seq<ProtocolSlice>)
    requires Ascending(BySeqNum(), slices)
    ensures Ascending(BySeqNum(), DataSlices(slices))
  {
    if slices == [] {
    } else {
      DataSlicesAscend(slices[1..]);
      DataSlicesAre(slices[1..]);
      var rest := DataSlices(slices[1..]);
      forall x | x in rest ensures BySeqNum()(slices[0], x) {
        var i :| 0 <= i < |slices[1..]| && slices[1..][i] == x;
        assert slices[i + 1] == x;
      }
      hide DataSlices, BySeqNum;
      assert Ascending(BySeqNum(), [slices[0]] + rest);
    }
  }

  lemma TreeAscends(id: string, data: Bytes, threshold: nat, first: nat, total: nat)
    requires threshold > 0
    ensures Ascending(BySeqNum(), Tree(id, data, threshold, first, total))
  {
    var tree := Tree(id, data, threshold, first, total);
    hide Tree;
    forall i | 0 <= i < |tree| {
      TreeNumbering(id, data, threshold, first, total, i);
    }
  }

  /** A received list with the data slices of `all` in any order sorts back to their order in `all`. */
  lemma SortingRestores(all: seq<ProtocolSlice>, received: seq<ProtocolSlice>)
    requires Ascending(BySeqNum(), all)
    requires multiset(DataSlices(received)) == multiset(DataSlices(all))
    ensures Sort(BySeqNum(), DataSlices(received)) == DataSlices(all)
  {
    BySeqNumIsStrictOrder();
    DataSlicesAscend(all);
    SortOfPermutation(BySeqNum(), DataSlices(all), DataSlices(received));
  }

  lemma PacketsFit(rootId: string, payload: Bytes, threshold: nat, slice: ProtocolSlice)
    requires slice in PacketsOf(rootId, payload, threshold)
    ensures Fits(slice, FirstSegment(rootId), |PacketsOf(rootId, payload, threshold)|)
  {
    var t := Max(threshold, 1);
    var total := TreeSize(|payload|, t);
    var i :| 0 <= i < |PacketsOf(rootId, payload, threshold)| && PacketsOf(rootId, payload, threshold)[i] == slice;
    hide Tree;
    TreeNumbering(rootId, payload, t, 0, total, i);
    TreeIdsUnder(rootId, payload, t, 0, total, i);
    FirstSegmentUnder(slice.id, rootId);
    FirstSegmentIsRoot(slice.id);
    TreeHasSize(rootId, payload, t, 0, total);
  }

  /** The slices of one payload that arrived: every data slice once, in any order, and any of the
      parity slices. */
  ghost predicate AllDataArrived(received: seq<ProtocolSlice>, all: seq<ProtocolSlice>) {
    && (forall slice | slice in received :: slice in all)
    && multiset(DataSlices(received)) == multiset(DataSlices(all))
  }

  /** Round trip: whatever the order of arrival and whichever parity slices are lost, the received
      slices fit together and the sorted data slices join to the payload. */
  lemma ReceivedRebuilds(rootId: string, payload: Bytes, threshold: nat, received: seq<ProtocolSlice>)
    requires AllDataArrived(received, PacketsOf(rootId, payload, threshold))
    ensures received != []
    ensures forall slice | slice in received :: Fits(slice, FirstSegment(received[0].id), received[0].header.totalPackets)
    ensures Joined(Sort(BySeqNum(), DataSlices(received))) == payload
  {
    var all := PacketsOf(rootId, payload, threshold);
    var t := Max(threshold, 1);
    TreeHoldsData(rootId, payload, t, 0, TreeSize(|payload|, t));
    TreeAscends(rootId, payload, t, 0, TreeSize(|payload|, t));
    assert |multiset(DataSlices(received))| == |DataSlices(received)| == |DataSlices(all)| > 0;
    assert received != [];
    hide PacketsOf, IsRoot, FirstSegment, Joined, Sort, DataSlices;
    SortingRestores(all, received);
    forall slice | slice in received ensures Fits(slice, FirstSegment(rootId), |all|) {
      PacketsFit(rootId, payload, threshold, slice);
    }
    assert received[0] in received;
    RootIsFirstSegment(FirstSegment(rootId), received[0].id);
  }

  /** The round trip through the two operations themselves. */
  method RoundTrip(rootId: string, payload: Bytes, threshold: nat, received: seq<ProtocolSlice>) returns (result: Reconstruction)
    requires AllDataArrived(received, PacketsOf(rootId, payload, threshold))
    ensures result == Rebuilt(payload)
  {
    ReceivedRebuilds(rootId, payload, threshold, received);
    ghost var root := FirstSegment(received[0].id);
    FirstSegmentIsRoot(received[0].id);
    hide PacketsOf, IsRoot, FirstSegment, Joined, Sort, DataSlices, InSequence, AllDataArrived;
    assert forall i | 0 <= i < |received| ::
        IsRoot(root, received[i].id) && received[i].header.totalPackets == received[0].header.totalPackets by {
      assert forall i | 0 <= i < |received| :: received[i] in received && Fits(received[i], root, received[0].header.totalPackets);
    }
    hide Fits;
    result := ReconstructPayload(received);
  }

  // ---- recovery ----

  function SlicesUnder(slices: seq<ProtocolSlice>, id: string): seq<ProtocolSlice> {
    if slices == [] then []
    else (if Under(slices[0].id, id) then [slices[0]] else []) + SlicesUnder(slices[1..], id)
  }

  /** The bytes carried by the data slices under `id`. */
  function Reassembled(slices: seq<ProtocolSlice>, id: string): Bytes {
    Joined(DataSlices(SlicesUnder(slices, id)))
  }

  lemma {:induction false} SlicesUnderConcat(a: seq<ProtocolSlice>, b: seq<ProtocolSlice>, id: string)
    ensures SlicesUnder(a + b, id) == SlicesUnder(a, id) + SlicesUnder(b, id)
  {
    hide Under;
    if a == [] {
      assert a + b == b;
    } else {
      assert (a + b)[0] == a[0] && (a + b)[1..] == a[1..] + b;
      SlicesUnderConcat(a[1..], b, id);
    }
  }

  lemma {:induction false} NoneUnder(slices: seq<ProtocolSlice>, id: string)
    requires forall slice | slice in slices :: !Under(slice.id, id)
    ensures SlicesUnder(slices, id) == []
  {
    if slices == [] {
    } else {
      assert slices[0] in slices;
      NoneUnder(slices[1..], id);
    }
  }

  lemma {:induction false} AllUnder(slices: seq<ProtocolSlice>, id: string)
    requires forall slice | slice in slices :: Under(slice.id, id)
    ensures SlicesUnder(slices, id) == slices
  {
    if slices == [] {
    } else {
      assert slices[0] in slices;
      AllUnder(slices[1..], id);
    }
  }

  lemma UnderTransitive(x: string, y: string, z: string)
    requires Under(x, y) && Under(y, z)
    ensures Under(x, z)
  {
    if x != y && y != z {
      assert x[..|z|] == x[..|y|][..|z|] == z;
      assert x[|z|] == x[..|y|][|z|] == '.';
    }
  }

  lemma NotUnderSibling(x: string, y: string, id: string, a: char, b: char)
    requires Under(y, id + "." + [a]) && Under(x, id + "." + [b]) && a != b
    ensures !Under(x, y)
  {
    UnderChild(x, id, b);
    if Under(x, y) {
      UnderTransitive(x, y, id + "." + [a]);
      UnderChild(x, id, a);
    }
  }

  lemma UnderSelf(id: string)
    ensures Under(id, id)
  {
  }

  /** What lies under `x` in a split tree lies in the half that `x` belongs to. */
  lemma ReassembledInHalf(id: string, left: seq<ProtocolSlice>, right: seq<ProtocolSlice>, parity: ProtocolSlice, x: string)
    requires forall slice | slice in left :: Under(slice.id, id + "." + ['0'])
    requires forall slice | slice in right :: Under(slice.id, id + "." + ['1'])
    requires parity.id == id + "." + ['P']
    ensures Under(x, id + "." + ['0']) ==> SlicesUnder(left + right + [parity], x) == SlicesUnder(left, x)
    ensures Under(x, id + "." + ['1']) ==> SlicesUnder(left + right + [parity], x) == SlicesUnder(right, x)
  {
    SlicesUnderConcat(left + right, [parity], x);
    SlicesUnderConcat(left, right, x);
    hide Under;
    if Under(x, id + "." + ['0']) {
      forall slice | slice in right ensures !Under(slice.id, x) { NotUnderSibling(slice.id, x, id, '0', '1'); }
      UnderSelf(parity.id);
      NotUnderSibling(parity.id, x, id, '0', 'P');
      NoneUnder(right, x);
      NoneUnder([parity], x);
    }
    if Under(x, id + "." + ['1']) {
      forall slice | slice in left ensures !Under(slice.id, x) { NotUnderSibling(slice.id, x, id, '1', '0'); }
      UnderSelf(parity.id);
      NotUnderSibling(parity.id, x, id, '1', 'P');
      NoneUnder(left, x);
      NoneUnder([parity], x);
    }
  }

  lemma TreeUnderChild(id: string, data: Bytes, threshold: nat, first: nat, total: nat)
    requires threshold > 0
    ensures forall slice | slice in Tree(id, data, threshold, first, total) :: Under(slice.id, id)
  {
    var tree := Tree(id, data, threshold, first, total);
    hide Tree;
    forall slice | slice in tree ensures Under(slice.id, id) {
      var i :| 0 <= i < |tree| && tree[i] == slice;
      TreeIdsUnder(id, data, threshold, first, total, i);
    }
  }

  lemma ReassembledTree(id: string, data: Bytes, threshold: nat, first: nat, total: nat)
    requires threshold > 0
    ensures Reassembled(Tree(id, data, threshold, first, total), id) == data
  {
    hide Tree, Under, Joined, DataSlices;
    TreeUnderChild(id, data, threshold, first, total);
    AllUnder(Tree(id, data, threshold, first, total), id);
    TreeHoldsData(id, data, threshold, first, total);
  }

  /** `parity` sits at the internal node `x` of the tree and recovers either half below `x`. */
  ghost predicate RecoversAt(slices: seq<ProtocolSlice>, parity: ProtocolSlice, x: string) {
    var left, right := Reassembled(slices, x + ".0"), Reassembled(slices, x + ".1");
    && parity.id == x + ".P"
    && Parity(parity.data, left) == right
    && |left| <= |right| && Parity(parity.data, right)[..|left|] == left
  }

  lemma TopParityRecovers(id: string, data: Bytes, threshold: nat, first: nat, total: nat,
                          left: seq<ProtocolSlice>, right: seq<ProtocolSlice>, parity: ProtocolSlice)
    requires 0 < threshold < |data|
    requires left == Tree(id + ".0", data[..|data| / 2], threshold, first, total)
    requires right == Tree(id + ".1", data[|data| / 2..], threshold, first + |left|, total)
    requires parity.id == id + ".P" && parity.data == Parity(data[..|data| / 2], data[|data| / 2..])
    ensures RecoversAt(left + right + [parity], parity, id)
  {
    hide Tree, Under, SlicesUnder, Joined, DataSlices;
    var half := |data| / 2;
    ChildIds(id);
    TreeUnderChild(id + ".0", data[..half], threshold, first, total);
    TreeUnderChild(id + ".1", data[half..], threshold, first + |left|, total);
    UnderSelf(id + ".0");
    UnderSelf(id + ".1");
    ReassembledInHalf(id, left, right, parity, id + ".0");
    ReassembledInHalf(id, left, right, parity, id + ".1");
    ReassembledTree(id + ".0", data[..half], threshold, first, total);
    ReassembledTree(id + ".1", data[half..], threshold, first + |left|, total);
    ParityGivesHalves(data[..half], data[half..]);
    hide Parity;
  }

  lemma ChildOf(x: string, suffix: string)
    requires suffix == ".0" || suffix == ".1"
    ensures Under(x + suffix, x)
  {
    assert (x + suffix)[..|x|] == x;
  }

  lemma UnderChildren(x: string, id: string, mark: char)
    requires Under(x, id + "." + [mark])
    ensures Under(x, id) && Under(x + ".0", id + "." + [mark]) && Under(x + ".1", id + "." + [mark])
  {
    UnderChild(x, id, mark);
    ChildOf(x, ".0");
    ChildOf(x, ".1");
    UnderTransitive(x + ".0", x, id + "." + [mark]);
    UnderTransitive(x + ".1", x, id + "." + [mark]);
  }

  lemma RecoversInWhole(id: string, left: seq<ProtocolSlice>, right: seq<ProtocolSlice>, parity: ProtocolSlice,
                        slice: ProtocolSlice, x: string)
    requires forall s | s in left :: Under(s.id, id + "." + ['0'])
    requires forall s | s in right :: Under(s.id, id + "." + ['1'])
    requires parity.id == id + "." + ['P']
    requires (RecoversAt(left, slice, x) && Under(x, id + "." + ['0'])) || (RecoversAt(right, slice, x) && Under(x, id + "." + ['1']))
    ensures RecoversAt(left + right + [parity], slice, x)
  {
    hide Under, SlicesUnder, Joined, DataSlices, Parity;
    if RecoversAt(left, slice, x) && Under(x, id + "." + ['0']) {
      UnderChildren(x, id, '0');
    } else {
      UnderChildren(x, id, '1');
    }
    ReassembledInHalf(id, left, right, parity, x + ".0");
    ReassembledInHalf(id, left, right, parity, x + ".1");
  }

  lemma ParityMeansSplit(id: string, data: Bytes, threshold: nat, first: nat, total: nat, i: nat)
    requires threshold > 0 && i < |Tree(id, data, threshold, first, total)|
    ensures Tree(id, data, threshold, first, total)[i].isParity ==> |data| > threshold
  {
    if |data| <= threshold {
      SingleSlice(id, data, threshold, first, total);
    }
  }

  /** The parity slice of a node comes after all slices below the node. */
  lemma {:induction false} ParityComesLast(id: string, data: Bytes, threshold: nat, first: nat, total: nat,
                                           x: string, i: nat, j: nat)
    requires threshold > 0
    requires i < |Tree(id, data, threshold, first, total)| && Tree(id, data, threshold, first, total)[i].id == x + ".P"
    requires Tree(id, data, threshold, first, total)[i].isParity
    requires j < |Tree(id, data, threshold, first, total)| && Under(Tree(id, data, threshold, first, total)[j].id, x)
    ensures j <= i
    decreases |data|
  {
    hide Tree, Parity;
    ParityMeansSplit(id, data, threshold, first, total, i);
    var half := |data| / 2;
    var left, right, parity := SplitTree(id, data, threshold, first, total);
    BranchLabel(id, data, threshold, first, total, i);
    BranchLabel(id, data, threshold, first, total, j);
    var y, z := Tree(id, data, threshold, first, total)[i].id, Tree(id, data, threshold, first, total)[j].id;
    if j <= i {
    } else if j < |left| {
      ParityComesLast(id + ".0", data[..half], threshold, first, total, x, i, j);
    } else if |left| <= i && j < |left| + |right| {
      ParityComesLast(id + ".1", data[half..], threshold, first + |left|, total, x, i - |left|, j - |left|);
    } else {
      assert false;
    }
  }

  /** Every parity slice of a tree sits at an internal node and recovers either half below it. */
  lemma {:induction false} EveryParityRecovers(id: string, data: Bytes, threshold: nat, first: nat, total: nat, i: nat)
    returns (x: string)
    requires threshold > 0 && i < |Tree(id, data, threshold, first, total)|
    requires Tree(id, data, threshold, first, total)[i].isParity
    ensures RecoversAt(Tree(id, data, threshold, first, total), Tree(id, data, threshold, first, total)[i], x)
    ensures Under(x, id)
    decreases |data|
  {
    hide Tree, Parity, Under, RecoversAt;
    ParityMeansSplit(id, data, threshold, first, total, i);
    var half := |data| / 2;
    var left, right, parity := SplitTree(id, data, threshold, first, total);
    ChildIds(id);
    TreeUnderChild(id + ".0", data[..half], threshold, first, total);
    TreeUnderChild(id + ".1", data[half..], threshold, first + |left|, total);
    if i < |left| {
      x := EveryParityRecovers(id + ".0", data[..half], threshold, first, total, i);
      UnderChildren(x, id, '0');
      RecoversInWhole(id, left, right, parity, Tree(id, data, threshold, first, total)[i], x);
    } else if i < |left| + |right| {
      x := EveryParityRecovers(id + ".1", data[half..], threshold, first + |left|, total, i - |left|);
      UnderChildren(x, id, '1');
      RecoversInWhole(id, left, right, parity, Tree(id, data, threshold, first, total)[i], x);
    } else {
      x := id;
      UnderSelf(id);
      TopParityRecovers(id, data, threshold, first, total, left, right, parity);
    }
  }
}
