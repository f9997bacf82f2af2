/** Routing progress: what a routing table answers for a target, bucket by bucket, and why following
    the first answer from node to node ends (crates/bitcord-dht/src/routing.rs). */
module Progress {
  import opened Bits
  import opened Wrappers
  import opened NodeIds
  import opened Peers
  import opened RoutingTable

  /** An entry of bucket `j` seen from a target that falls into bucket `b` of the same table. */
  lemma {:induction false} EntryDistance(self: NodeId, target: NodeId, id: NodeId, b: nat, j: nat)
    requires HomeOf(self)(target) == Some(b) && HomeOf(self)(id) == Some(j)
    ensures j == b ==> Dist(target, id) < Pow2(b) <= Dist(self, target)
    ensures j < b ==> Pow2(b) <= Dist(target, id) < Pow2(b + 1)
    ensures j > b ==> Pow2(j) <= Dist(target, id) < Pow2(j + 1)
  {
    hide Dist, Xor, BitLen, Value;
    var x, y, d := Dist(self, target), Dist(self, id), Dist(target, id);
    assert d == Xor(x, y) by {
      DistIsXor(self, target);
      DistIsXor(self, id);
      DistIsXor(target, id);
      XorVia(Value(self), Value(target), Value(id));
    }
    BitLenOfZero(y);
    BitLenOfZero(d);
    XorTopBit(x, y);
    BitLenBounds(x);
    if d > 0 {
      BitLenBounds(d);
      if j == b {
        Pow2Monotone(BitLen(d), b);
      }
    }
  }

  lemma {:induction false} BitLenOfZero(v: nat)
    ensures v == 0 <==> BitLen(v) == 0
  {
  }

  /** A nearer entry never stands in a later one of the target's own bucket, the lower buckets together and the
      higher buckets one by one. */
  lemma {:induction false} NearerIsEarlier(self: NodeId, target: NodeId, p: NodeId, q: NodeId, b: nat, i: nat,
                                               j: nat)
    requires HomeOf(self)(target) == Some(b) && HomeOf(self)(p) == Some(i) && HomeOf(self)(q) == Some(j)
    requires Dist(target, p) < Dist(target, q)
    ensures (j == b ==> i == b) && (j < b ==> i <= b) && (j > b ==> i <= j)
  {
    EntryDistance(self, target, p, b, i);
    EntryDistance(self, target, q, b, j);
    if (j == b && i != b) || (j < b && i > b) || (j > b && i > j) {
      var lo, hi := if j > b then j else b, if i > b then i else b;
      if j == b {
        Pow2Monotone(b, hi);
      } else {
        Pow2Monotone(lo + 1, hi);
      }
    }
  }

  ghost predicate InBucket(self: NodeId, p: Peer, b: nat) {
    HomeOf(self)(p.id) == Some(b)
  }

  /** `closest_peers` lists the target's own bucket first, then everything from lower buckets, then the
      higher buckets in ascending order. */
  lemma {:induction false} ClosestBucketOrder(self: NodeId, t: Table, target: NodeId, count: nat, b: nat)
    requires TableInv(HomeOf(self), t) && HomeOf(self)(target) == Some(b)
    ensures var r := Closest(t, target, count);
            forall k, l, i: nat, j: nat :: 0 <= k < l < |r| && InBucket(self, r[k], i) && InBucket(self, r[l], j)
                                 ==> (j == b ==> i == b) && (j < b ==> i <= b) && (j > b ==> i <= j)
  {
    var r := Closest(t, target, count);
    ClosestAreNearest(self, t, target, count);
    forall k, l, i: nat, j: nat | 0 <= k < l < |r| && InBucket(self, r[k], i) && InBucket(self, r[l], j)
      ensures (j == b ==> i == b) && (j < b ==> i <= b) && (j > b ==> i <= j)
    {
      assert DistTo(target)(r[k].id) < DistTo(target)(r[l].id);
      NearerIsEarlier(self, target, r[k].id, r[l].id, b, i, j);
    }
  }

  // ---------- Hops ----------

  /** One hop of a lookup: from a node to the first peer its table answers with. */
  datatype Stop = Stop(self: NodeId, table: Table)

  ghost predicate CanHop(s: Stop, target: NodeId) {
    && TableInv(HomeOf(s.self), s.table)
    && HomeOf(s.self)(target).Some?
    && HomeOf(s.self)(target).value < |s.table|
    && s.table[HomeOf(s.self)(target).value] != []
  }

  /** The first answer of a node whose bucket for the target is not empty lies in that bucket. */
  lemma {:induction false} FirstAnswerInTargetBucket(s: Stop, target: NodeId, count: nat)
    requires CanHop(s, target) && count > 0
    ensures var r := Closest(s.table, target, count);
            r != [] && HomeOf(s.self)(r[0].id) == HomeOf(s.self)(target)
  {
    var b := HomeOf(s.self)(target).value;
    var r := Closest(s.table, target, count);
    var q := s.table[b][0];
    ClosestAreNearest(s.self, s.table, target, count);
    InEntries(s.table, q);
    assert q in s.table[b];
    assert HomeOf(s.self)(q.id) == Some(b);
    assert r[0] in r && r[0] in Entries(s.table);
    InEntries(s.table, r[0]);
    var j :| 0 <= j < |s.table| && r[0] in s.table[j];
    assert BucketInv(HomeOf(s.self), j, s.table[j]);
    if q != r[0] {
      if q in r {
        var k :| 0 <= k < |r| && r[k] == q;
        assert DistTo(target)(r[0].id) < DistTo(target)(r[k].id);
      }
      assert DistTo(target)(r[0].id) < DistTo(target)(q.id);
      NearerIsEarlier(s.self, target, r[0].id, q.id, b, j, b);
    }
  }

  /** A hop ends at the target or at a node that has the target in a strictly lower bucket. */
  lemma {:induction false} HopLowersBucket(s: Stop, target: NodeId, count: nat)
    requires CanHop(s, target) && count > 0
    ensures var r := Closest(s.table, target, count);
            && r != []
            && (r[0].id == target
                || (HomeOf(r[0].id)(target).Some?
                    && HomeOf(r[0].id)(target).value < HomeOf(s.self)(target).value))
  {
    var r := Closest(s.table, target, count);
    FirstAnswerInTargetBucket(s, target, count);
    var b, id := HomeOf(s.self)(target).value, r[0].id;
    EntryDistance(s.self, target, id, b, b);
    DistIsMetric(target, id, target);
    if id != target {
      var d := Dist(id, target);
      BitLenAtMost(d, b);
    }
  }

  /** A chain of hops: each node but the last can hop, and the next one is its first answer. */
  ghost predicate Chain(stops: seq<Stop>, target: NodeId, count: nat) {
    && stops != []
    && (forall i :: 0 <= i < |stops| - 1 ==> CanHop(stops[i], target))
    && forall i :: 0 <= i < |stops| - 1 ==>
         Closest(stops[i].table, target, count) != []
         && stops[i + 1].self == Closest(stops[i].table, target, count)[0].id
  }

  function TargetBucket(s: Stop, target: NodeId): Option<nat> {
    HomeOf(s.self)(target)
  }

  /** Along such a chain the bucket of the target strictly falls, so there is at most one hop more than
      the bucket it starts with, and never more than 256. */
  lemma {:induction false} ChainIsShort(stops: seq<Stop>, target: NodeId, count: nat)
    requires Chain(stops, target, count) && count > 0
    ensures |stops| - 1 <= 256
    ensures |stops| > 1 ==> |stops| - 1 <= TargetBucket(stops[0], target).value + 1
    ensures forall i :: 0 <= i < |stops| - 1 ==> TargetBucket(stops[i], target).Some?
    ensures forall i, j :: 0 <= i < j < |stops| - 1 ==>
              TargetBucket(stops[j], target).value < TargetBucket(stops[i], target).value
    decreases |stops|
  {
    hide Chain, TargetBucket;
    ChainLength(stops, target, count);
    if |stops| > 1 {
      var rest := stops[1..];
      FirstHop(stops, target, count);
      TailOfChain(stops, target, count);
      ChainIsShort(rest, target, count);
      assert forall j :: 0 < j < |stops| - 1 ==> stops[j] == rest[j - 1];
    }
  }

  lemma {:induction false} ChainLength(stops: seq<Stop>, target: NodeId, count: nat)
    requires Chain(stops, target, count)
    ensures stops != []
  {
  }

  lemma {:induction false} TailOfChain(stops: seq<Stop>, target: NodeId, count: nat)
    requires Chain(stops, target, count) && |stops| > 1
    ensures Chain(stops[1..], target, count)
  {
    hide CanHop, Closest;
    var rest := stops[1..];
    assert forall i :: 0 <= i < |rest| ==> rest[i] == stops[i + 1];
  }

  lemma {:induction false} FirstHop(stops: seq<Stop>, target: NodeId, count: nat)
    requires Chain(stops, target, count) && count > 0 && |stops| > 1
    ensures TargetBucket(stops[0], target).Some? && TargetBucket(stops[0], target).value < 256
    ensures |stops| > 2 ==> TargetBucket(stops[1], target).Some?
                            && TargetBucket(stops[1], target).value < TargetBucket(stops[0], target).value
  {
    var s := stops[0];
    assert CanHop(s, target) && (|stops| > 2 ==> CanHop(stops[1], target));
    assert stops[0 + 1].self == Closest(s.table, target, count)[0].id;
    HopLowersBucket(s, target, count);
    hide Chain, Closest;
    BucketOfRange(s.self, target, 0);
    BucketOfRange(stops[1].self, target, 0);
  }
}
