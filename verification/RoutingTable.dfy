/** The k-bucket routing table as a value (crates/bitcord-dht/src/routing.rs): what `upsert`, `add_peer`
    and `closest_peers` compute, and what every run of them keeps. A `Home` gives the bucket of an
    identifier, or nothing for the node's own one. */
module RoutingTable {
  import opened Wrappers
  import opened NodeIds
  import opened Sorting
  import opened Peers

  const K: nat := 20
  const BUCKETS: nat := 256

  type Table = seq<seq<Peer>>
  type Home = NodeId -> Option<nat>

  function HomeOf(self: NodeId): Home {
    (id: NodeId) => BucketOf(Dist(self, id))
  }

  // ---------- Operations ----------

  /** The position of `id` in a bucket, or its length. */
  function IndexOf(s: seq<Peer>, id: NodeId): (i: nat)
    ensures i <= |s|
    ensures i < |s| ==> s[i].id == id
    ensures forall j :: 0 <= j < i ==> s[j].id != id
  {
    if s == [] || s[0].id == id then 0 else 1 + IndexOf(s[1..], id)
  }

  function Upsert(bucket: seq<Peer>, p: Peer): seq<Peer> {
    var i := IndexOf(bucket, p.id);
    if i < |bucket| then bucket[..i] + bucket[i + 1..] + [p]
    else if |bucket| >= K then bucket[1..] + [p]
    else bucket + [p]
  }

  function AddPeer(home: Home, t: Table, p: Peer): Table {
    match home(p.id)
    case None => t
    case Some(b) => if b < |t| then t[b := Upsert(t[b], p)] else t
  }

  /** The table after a sequence of `add_peer` calls. */
  function AddAll(home: Home, t: Table, calls: seq<Peer>): Table {
    if calls == [] then t
    else AddPeer(home, AddAll(home, t, calls[..|calls| - 1]), calls[|calls| - 1])
  }

  function EmptyTable(): Table {
    seq(BUCKETS, i => [])
  }

  function Entries(t: Table): seq<Peer> {
    if t == [] then [] else t[0] + Entries(t[1..])
  }

  function Closest(t: Table, target: NodeId, count: nat): seq<Peer> {
    Take(SortBy(Entries(t), PeerKey(DistTo(target))), count)
  }

  // ---------- The table invariant ----------

  ghost predicate BucketInv(home: Home, b: nat, bucket: seq<Peer>) {
    && |bucket| <= K
    && DistinctIds(bucket)
    && forall p :: p in bucket ==> home(p.id) == Some(b)
  }

  ghost predicate TableInv(home: Home, t: Table) {
    |t| == BUCKETS && forall b :: 0 <= b < |t| ==> BucketInv(home, b, t[b])
  }

  lemma {:induction false} UpsertKeepsInv(home: Home, b: nat, bucket: seq<Peer>, p: Peer)
    requires BucketInv(home, b, bucket) && home(p.id) == Some(b)
    ensures BucketInv(home, b, Upsert(bucket, p))
  {
    hide IndexOf;
    var i := IndexOf(bucket, p.id);
    if i < |bucket| {
      UpsertListed(home, b, bucket, p, i);
    } else if |bucket| >= K {
      UpsertFull(home, b, bucket, p);
    } else {
      assert forall q :: q in bucket + [p] ==> q in bucket || q == p;
    }
  }

  lemma {:induction false} UpsertListed(home: Home, b: nat, bucket: seq<Peer>, p: Peer, i: nat)
    requires BucketInv(home, b, bucket) && home(p.id) == Some(b) && i < |bucket| && bucket[i].id == p.id
    ensures BucketInv(home, b, bucket[..i] + bucket[i + 1..] + [p])
  {
    var rest := bucket[..i] + bucket[i + 1..];
    assert forall k :: 0 <= k < |rest| ==> rest[k] == bucket[if k < i then k else k + 1];
    assert forall q :: q in rest + [p] ==> q in bucket || q == p;
  }

  lemma {:induction false} UpsertFull(home: Home, b: nat, bucket: seq<Peer>, p: Peer)
    requires BucketInv(home, b, bucket) && home(p.id) == Some(b) && |bucket| == K
    requires forall k :: 0 <= k < |bucket| ==> bucket[k].id != p.id
    ensures BucketInv(home, b, bucket[1..] + [p])
  {
    var rest := bucket[1..];
    assert forall k :: 0 <= k < |rest| ==> rest[k] == bucket[k + 1];
    assert forall q :: q in rest + [p] ==> q in bucket || q == p;
  }

  lemma {:induction false} AddPeerKeepsInv(home: Home, t: Table, p: Peer)
    requires TableInv(home, t)
    ensures TableInv(home, AddPeer(home, t, p))
  {
    if home(p.id).Some? && home(p.id).value < |t| {
      UpsertKeepsInv(home, home(p.id).value, t[home(p.id).value], p);
    }
  }

  /** Every run of `add_peer`, whoever supplied the peers, keeps the table invariant: 256 buckets of
      at most 20 entries, each entry in the bucket of its own distance. */
  lemma {:induction false} AddAllKeepsInv(home: Home, t: Table, calls: seq<Peer>)
    requires TableInv(home, t)
    ensures TableInv(home, AddAll(home, t, calls))
  {
    if calls == [] {
    } else {
      AddAllKeepsInv(home, t, calls[..|calls| - 1]);
      AddPeerKeepsInv(home, AddAll(home, t, calls[..|calls| - 1]), calls[|calls| - 1]);
    }
  }

  lemma {:induction false} AddAllAppend(home: Home, t: Table, a: seq<Peer>, b: seq<Peer>)
    ensures AddAll(home, t, a + b) == AddAll(home, AddAll(home, t, a), b)
  {
    hide AddPeer;
    if b == [] {
      assert a + b == a;
    } else {
      var n := |b| - 1;
      AddAllAppend(home, t, a, b[..n]);
      assert (a + b)[..|a + b| - 1] == a + b[..n];
    }
  }

  lemma {:induction false} InEntries(t: Table, p: Peer)
    ensures p in Entries(t) <==> exists b :: 0 <= b < |t| && p in t[b]
  {
    if t == [] {
    } else {
      InEntries(t[1..], p);
      assert t == [t[0]] + t[1..];
      if p in Entries(t[1..]) {
        var b :| 0 <= b < |t[1..]| && p in t[1..][b];
        assert p in t[b + 1];
      }
      if b :| 0 <= b < |t| && p in t[b] && p !in t[0] {
        assert p in t[1..][b - 1];
      }
    }
  }

  lemma {:induction false} EntriesDistinctFrom(home: Home, t: Table, off: nat)
    requires forall b :: 0 <= b < |t| ==> BucketInv(home, off + b, t[b])
    ensures DistinctIds(Entries(t))
  {
    if t == [] {
    } else {
      var u := t[1..];
      forall b | 0 <= b < |u|
        ensures BucketInv(home, off + 1 + b, u[b])
      {
        assert u[b] == t[b + 1] && BucketInv(home, off + (b + 1), t[b + 1]);
      }
      EntriesDistinctFrom(home, u, off + 1);
      forall p, q | p in t[0] && q in Entries(u)
        ensures p.id != q.id
      {
        InEntries(u, q);
        var b :| 0 <= b < |u| && q in u[b];
        assert BucketInv(home, off + 1 + b, u[b]) && BucketInv(home, off + 0, t[0]);
      }
      ConcatDistinct(t[0], Entries(u));
    }
  }

  lemma {:induction false} ConcatDistinct(a: seq<Peer>, b: seq<Peer>)
    requires DistinctIds(a) && DistinctIds(b)
    requires forall p, q :: p in a && q in b ==> p.id != q.id
    ensures DistinctIds(a + b)
  {
    forall i, j | 0 <= i < j < |a + b|
      ensures (a + b)[i].id != (a + b)[j].id
    {
      if i < |a| <= j {
        assert (a + b)[i] in a && (a + b)[j] in b;
      }
    }
  }

  /** No identifier stands twice anywhere in the table, and the node itself never does. */
  lemma {:induction false} EntriesDistinct(self: NodeId, t: Table)
    requires TableInv(HomeOf(self), t)
    ensures DistinctIds(Entries(t))
    ensures forall p :: p in Entries(t) ==> p.id != self
  {
    EntriesDistinctFrom(HomeOf(self), t, 0);
    forall p | p in Entries(t)
      ensures p.id != self
    {
      InEntries(t, p);
      var b :| 0 <= b < |t| && p in t[b];
      assert HomeOf(self)(p.id) == Some(b);
      BucketOfRange(self, p.id, b);
    }
  }

  // ---------- A bucket is a least-recently-used list ----------

  ghost predicate Mentions(s: seq<Peer>, id: NodeId) {
    exists i :: 0 <= i < |s| && s[i].id == id
  }

  /** Of every identifier only its last call, in call order. */
  ghost function Latest(calls: seq<Peer>): seq<Peer> {
    if calls == [] then []
    else if Mentions(calls[1..], calls[0].id) then Latest(calls[1..])
    else [calls[0]] + Latest(calls[1..])
  }

  ghost function Last(s: seq<Peer>, n: nat): seq<Peer> {
    if |s| <= n then s else s[|s| - n..]
  }

  /** The calls that go to one bucket. */
  ghost function CallsFor(home: Home, calls: seq<Peer>, b: nat): seq<Peer> {
    if calls == [] then []
    else
      var n := |calls| - 1;
      CallsFor(home, calls[..n], b) + (if home(calls[n].id) == Some(b) then [calls[n]] else [])
  }

  /** What `Latest` keeps of a list when its identifiers are distinct: all but `id`. */
  ghost function Without(s: seq<Peer>, id: NodeId): seq<Peer> {
    var i := IndexOf(s, id);
    if i < |s| then s[..i] + s[i + 1..] else s
  }

  lemma {:induction false} LatestMentions(calls: seq<Peer>, id: NodeId)
    ensures Mentions(Latest(calls), id) <==> Mentions(calls, id)
    ensures DistinctIds(Latest(calls))
  {
    if calls == [] {
    } else {
      var u := calls[1..];
      LatestMentions(u, id);
      LatestMentions(u, calls[0].id);
      assert calls == [calls[0]] + u;
      MentionsCons(calls[0], u, id);
      MentionsCons(calls[0], Latest(u), id);
    }
  }

  lemma {:induction false} MentionsCons(p: Peer, s: seq<Peer>, id: NodeId)
    ensures Mentions([p] + s, id) <==> p.id == id || Mentions(s, id)
  {
    if i :| 0 <= i < |s| && s[i].id == id {
      assert ([p] + s)[i + 1].id == id;
    }
    if p.id == id {
      assert ([p] + s)[0].id == id;
    }
    if i :| 0 <= i < |[p] + s| && ([p] + s)[i].id == id && p.id != id {
      assert s[i - 1].id == id;
    }
  }

  lemma {:induction false} MentionsSnoc(s: seq<Peer>, p: Peer, id: NodeId)
    ensures Mentions(s + [p], id) <==> p.id == id || Mentions(s, id)
  {
    if i :| 0 <= i < |s| && s[i].id == id {
      assert (s + [p])[i].id == id;
    }
    if p.id == id {
      assert (s + [p])[|s|].id == id;
    }
  }

  lemma {:induction false} WithoutCons(c: Peer, s: seq<Peer>, id: NodeId)
    ensures Without([c] + s, id) == if c.id == id then s else [c] + Without(s, id)
  {
    IndexCons(c, s, id);
    hide IndexOf;
    var u, i := [c] + s, IndexOf(s, id);
    if c.id == id {
      assert u[..0] + u[1..] == s;
    } else if i < |s| {
      SkipInside(c, s, i);
    }
  }

  lemma {:induction false} SkipInside(c: Peer, s: seq<Peer>, i: nat)
    requires i < |s|
    ensures var u := [c] + s; u[..i + 1] + u[i + 2..] == [c] + (s[..i] + s[i + 1..])
  {
    var u := [c] + s;
    assert u[..i + 1] == [c] + s[..i];
    assert u[i + 2..] == s[i + 1..];
  }

  lemma {:induction false} IndexCons(c: Peer, s: seq<Peer>, id: NodeId)
    ensures IndexOf([c] + s, id) == if c.id == id then 0 else 1 + IndexOf(s, id)
  {
    assert ([c] + s)[1..] == s;
  }

  lemma {:induction false} LatestCons(c: Peer, u: seq<Peer>)
    ensures Latest([c] + u) == if Mentions(u, c.id) then Latest(u) else [c] + Latest(u)
  {
    hide Mentions;
    assert ([c] + u)[1..] == u;
  }

  lemma {:induction false} LatestOfOne(p: Peer)
    ensures Latest([]) == [] && Without([], p.id) == [] && Latest([p]) == [p]
  {
    assert [p][1..] == [];
  }

  /** Calling again moves an identifier to the end of the list of last calls. */
  lemma {:induction false} LatestSnoc(calls: seq<Peer>, p: Peer)
    ensures Latest(calls + [p]) == Without(Latest(calls), p.id) + [p]
  {
    hide Without, Mentions, Latest;
    if calls == [] {
      LatestOfOne(p);
      assert calls + [p] == [p];
    } else {
      var c, u := calls[0], calls[1..];
      LatestSnoc(u, p);
      assert calls == [c] + u && calls + [p] == [c] + (u + [p]);
      LatestCons(c, u);
      LatestCons(c, u + [p]);
      MentionsSnoc(u, p, c.id);
      if Mentions(u, c.id) {
        assert Latest(calls) == Latest(u) && Latest(calls + [p]) == Latest(u + [p]);
      } else {
        WithoutCons(c, Latest(u), p.id);
        if c.id == p.id {
          LatestMentions(u, p.id);
          WithoutAbsent(Latest(u), p.id);
        } else {
          assert [c] + (Without(Latest(u), p.id) + [p]) == [c] + Without(Latest(u), p.id) + [p];
        }
      }
    }
  }

  lemma {:induction false} WithoutAbsent(s: seq<Peer>, id: NodeId)
    requires !Mentions(s, id)
    ensures Without(s, id) == s
  {
  }

  lemma {:induction false} LastSnoc(s: seq<Peer>, p: Peer, n: nat)
    ensures Last(s + [p], n + 1) == Last(s, n) + [p]
  {
  }

  lemma {:induction false} LastWithoutInside(list: seq<Peer>, i: nat, n: nat)
    requires |list| - n <= i < |list| && 0 < n
    ensures var bucket := Last(list, n);
            var off := |list| - |bucket|;
            Last(list[..i] + list[i + 1..], n - 1) == bucket[..i - off] + bucket[i - off + 1..]
  {
    var bucket := Last(list, n);
    var off := |list| - |bucket|;
    var rest := list[..i] + list[i + 1..];
    assert bucket == list[off..];
    assert bucket[..i - off] == list[off..i] && bucket[i - off + 1..] == list[i + 1..];
    assert rest[off..] == list[off..i] + list[i + 1..];
  }

  lemma {:induction false} LastWithoutBefore(list: seq<Peer>, i: nat, n: nat)
    requires i < |list| - n && 0 < n
    ensures Last(list[..i] + list[i + 1..], n - 1) == Last(list, n)[1..]
  {
  }

  lemma {:induction false} UpsertIsMoveToEnd(list: seq<Peer>, p: Peer)
    requires DistinctIds(list)
    ensures Upsert(Last(list, K), p) == Last(Without(list, p.id) + [p], K)
  {
    hide IndexOf, DistinctIds, Last, Without, Upsert;
    var bucket, shorter := Last(list, K), Last(Without(list, p.id), K - 1);
    LastSnoc(Without(list, p.id), p, K - 1);
    UpsertIs(bucket, p);
    MoveToEnd(list, p.id);
  }

  /** What stays of the bucket is the end of what stays of the list. */
  lemma {:induction false} MoveToEnd(list: seq<Peer>, id: NodeId)
    requires DistinctIds(list)
    ensures var bucket := Last(list, K);
            var i := IndexOf(bucket, id);
            Last(Without(list, id), K - 1)
            == if i < |bucket| then bucket[..i] + bucket[i + 1..] else if |bucket| >= K then bucket[1..] else bucket
  {
    hide IndexOf, DistinctIds, Last, Without;
    var off, i := |list| - |Last(list, K)|, IndexOf(list, id);
    EndOf(list, K);
    IndexInEnd(list, off, id);
    if i < off {
      MoveFromBefore(list, id);
    } else if i < |list| {
      MoveFromInside(list, id);
    } else {
      MoveNew(list, id);
    }
  }

  lemma {:induction false} MoveFromBefore(list: seq<Peer>, id: NodeId)
    requires IndexOf(list, id) < |list| - K
    ensures Last(Without(list, id), K - 1) == Last(list, K)[1..]
  {
    hide IndexOf, Last, Without;
    WithoutIs(list, id);
    LastWithoutBefore(list, IndexOf(list, id), K);
  }

  lemma {:induction false} MoveFromInside(list: seq<Peer>, id: NodeId)
    requires |list| - K <= IndexOf(list, id) < |list|
    ensures var bucket := Last(list, K);
            var j := IndexOf(list, id) - (|list| - |bucket|);
            0 <= j < |bucket| && Last(Without(list, id), K - 1) == bucket[..j] + bucket[j + 1..]
  {
    hide IndexOf, Last, Without;
    EndOf(list, K);
    WithoutIs(list, id);
    LastWithoutInside(list, IndexOf(list, id), K);
  }

  lemma {:induction false} MoveNew(list: seq<Peer>, id: NodeId)
    requires IndexOf(list, id) == |list|
    ensures Last(Without(list, id), K - 1) == if |Last(list, K)| >= K then Last(list, K)[1..] else Last(list, K)
  {
    hide IndexOf, Last, Without;
    WithoutIs(list, id);
    LastShorter(list, K);
  }

  lemma {:induction false} UpsertIs(bucket: seq<Peer>, p: Peer)
    ensures var i := IndexOf(bucket, p.id);
            Upsert(bucket, p) == (if i < |bucket| then bucket[..i] + bucket[i + 1..]
                                  else if |bucket| >= K then bucket[1..] else bucket) + [p]
  {
    hide IndexOf;
  }

  lemma {:induction false} WithoutIs(list: seq<Peer>, id: NodeId)
    ensures var i := IndexOf(list, id); Without(list, id) == if i < |list| then list[..i] + list[i + 1..] else list
  {
    hide IndexOf;
  }

  lemma {:induction false} EndOf(list: seq<Peer>, n: nat)
    ensures |Last(list, n)| == (if |list| < n then |list| else n) && list[|list| - |Last(list, n)|..] == Last(list, n)
  {
  }

  lemma {:induction false} LastShorter(list: seq<Peer>, n: nat)
    requires 0 < n
    ensures Last(list, n - 1) == if |Last(list, n)| >= n then Last(list, n)[1..] else Last(list, n)
  {
  }

  lemma {:induction false} IndexInEnd(list: seq<Peer>, off: nat, id: NodeId)
    requires DistinctIds(list) && off <= |list|
    ensures var i, bucket := IndexOf(list, id), list[off..];
            IndexOf(bucket, id) == if off <= i < |list| then i - off else |bucket|
  {
    hide IndexOf;
    var i, j := IndexOf(list, id), IndexOf(list[off..], id);
    if j < |list| - off {
      assert list[off + j].id == id;
    }
  }

  /** After any sequence of calls, evicted identifiers returning or not, each bucket is the end of the
      unbounded list of last calls for that bucket: its 20 most recent identifiers with their latest
      addresses, oldest first. */
  lemma {:induction false} BucketIsLru(home: Home, calls: seq<Peer>, b: nat)
    requires b < 256
    ensures |AddAll(home, EmptyTable(), calls)| == 256
    ensures AddAll(home, EmptyTable(), calls)[b] == Last(Latest(CallsFor(home, calls, b)), 20)
  {
    hide Upsert, Latest, Last, AddAll, CallsFor, AddPeer;
    if calls == [] {
      NoCallsForBucket(home, b);
    } else {
      var u, p := calls[..|calls| - 1], calls[|calls| - 1];
      BucketIsLru(home, u, b);
      var mine := CallsFor(home, u, b);
      OneMoreCall(home, calls, b);
      if home(p.id) == Some(b) {
        LatestMentions(mine, p.id);
        LatestSnoc(mine, p);
        UpsertIsMoveToEnd(Latest(mine), p);
      } else {
        assert mine + [] == mine;
      }
    }
  }

  lemma {:induction false} NoCallsForBucket(home: Home, b: nat)
    requires b < BUCKETS
    ensures |AddAll(home, EmptyTable(), [])| == BUCKETS
    ensures AddAll(home, EmptyTable(), [])[b] == [] == Last(Latest(CallsFor(home, [], b)), K)
  {
  }

  /** What one more call does to a bucket. */
  lemma {:induction false} OneMoreCall(home: Home, calls: seq<Peer>, b: nat)
    requires calls != [] && b < BUCKETS && |AddAll(home, EmptyTable(), calls[..|calls| - 1])| == BUCKETS
    ensures var u, p := calls[..|calls| - 1], calls[|calls| - 1];
            var before, after := AddAll(home, EmptyTable(), u), AddAll(home, EmptyTable(), calls);
            && |after| == BUCKETS
            && after[b] == (if home(p.id) == Some(b) then Upsert(before[b], p) else before[b])
            && CallsFor(home, calls, b) == CallsFor(home, u, b) + (if home(p.id) == Some(b) then [p] else [])
  {
    hide Upsert;
  }

  /** Call number `i` is for `p`, and no later call names the same identifier. */
  ghost predicate LastCallAt(calls: seq<Peer>, i: nat, p: Peer)
    requires i < |calls|
  {
    calls[i] == p && !Mentions(calls[i + 1..], p.id)
  }

  lemma {:induction false} LaterCall(calls: seq<Peer>, i: nat, p: Peer)
    requires 0 < i < |calls|
    ensures LastCallAt(calls, i, p) <==> LastCallAt(calls[1..], i - 1, p)
  {
    hide Mentions;
    assert calls[1..][i - 1] == calls[i] && calls[1..][i..] == calls[i + 1..];
  }

  /** `Latest` keeps a call exactly when no later call names the same identifier. */
  lemma {:induction false} LatestIsLastCall(calls: seq<Peer>, p: Peer)
    ensures p in Latest(calls) <==> exists i :: 0 <= i < |calls| && LastCallAt(calls, i, p)
  {
    hide Latest, Mentions;
    if calls == [] {
      LatestOfOne(p);
    } else {
      var c, u := calls[0], calls[1..];
      assert calls == [c] + u;
      LatestIsLastCall(u, p);
      LatestCons(c, u);
      assert LastCallAt(calls, 0, p) <==> c == p && !Mentions(u, p.id);
      hide LastCallAt;
      forall i | 0 < i < |calls|
        ensures LastCallAt(calls, i, p) <==> LastCallAt(u, i - 1, p)
      {
        LaterCall(calls, i, p);
      }
      if i :| 0 <= i < |u| && LastCallAt(u, i, p) {
        assert LastCallAt(calls, i + 1, p);
      }
    }
  }

  // ---------- What a bucket holds, over the calls themselves ----------

  lemma {:induction false} CallsForAppend(home: Home, x: seq<Peer>, y: seq<Peer>, b: nat)
    ensures CallsFor(home, x + y, b) == CallsFor(home, x, b) + CallsFor(home, y, b)
  {
    if y == [] {
      assert x + y == x;
    } else {
      var n := |y| - 1;
      assert (x + y)[..|x + y| - 1] == x + y[..n];
      CallsForAppend(home, x, y[..n], b);
    }
  }

  lemma {:induction false} CallsForMentions(home: Home, calls: seq<Peer>, b: nat, id: NodeId)
    ensures Mentions(CallsFor(home, calls, b), id) <==> Mentions(calls, id) && home(id) == Some(b)
  {
    hide Mentions;
    if calls == [] {
      NothingMentioned(id);
    } else {
      var n := |calls| - 1;
      CallsForMentions(home, calls[..n], b, id);
      assert calls == calls[..n] + [calls[n]];
      MentionsSnoc(calls[..n], calls[n], id);
      MentionsSnoc(CallsFor(home, calls[..n], b), calls[n], id);
      assert CallsFor(home, calls[..n], b) + [] == CallsFor(home, calls[..n], b);
    }
  }

  lemma {:induction false} NothingMentioned(id: NodeId)
    ensures !Mentions([], id)
  {
  }

  /** The list of last calls ends with the last calls of any end of the calls. */
  lemma {:induction false} LatestEnds(x: seq<Peer>, y: seq<Peer>) returns (front: seq<Peer>)
    ensures Latest(x + y) == front + Latest(y)
  {
    hide Latest, Mentions;
    if x == [] {
      front := [];
      assert x + y == y;
    } else {
      front := LatestEnds(x[1..], y);
      assert x + y == [x[0]] + (x[1..] + y);
      LatestCons(x[0], x[1..] + y);
      if !Mentions(x[1..] + y, x[0].id) {
        assert [x[0]] + (front + Latest(y)) == [x[0]] + front + Latest(y);
        front := [x[0]] + front;
      }
    }
  }

  /** The identifiers of one bucket that are called after call number `i`. */
  ghost function LaterIds(home: Home, calls: seq<Peer>, i: nat, b: nat): set<NodeId> {
    set j | i < j < |calls| && home(calls[j].id) == Some(b) :: calls[j].id
  }

  ghost function IdsOf(s: seq<Peer>): set<NodeId> {
    set p | p in s :: p.id
  }

  lemma {:induction false} IdsMention(s: seq<Peer>, id: NodeId)
    ensures id in IdsOf(s) <==> Mentions(s, id)
  {
    if i :| 0 <= i < |s| && s[i].id == id {
      assert s[i] in s;
    }
  }

  lemma {:induction false} DistinctCount(s: seq<Peer>)
    requires DistinctIds(s)
    ensures |IdsOf(s)| == |s|
  {
    if s == [] {
      assert IdsOf(s) == {};
    } else {
      var u, p := s[..|s| - 1], s[|s| - 1];
      DistinctCount(u);
      assert s == u + [p];
      assert IdsOf(s) == IdsOf(u) + {p.id};
    }
  }

  lemma {:induction false} LaterMention(home: Home, calls: seq<Peer>, i: nat, b: nat, id: NodeId)
    requires i < |calls|
    ensures id in LaterIds(home, calls, i, b) <==> Mentions(calls[i + 1..], id) && home(id) == Some(b)
  {
    var s := calls[i + 1..];
    if k :| 0 <= k < |s| && s[k].id == id {
      assert calls[i + 1 + k].id == id;
    }
    if id in LaterIds(home, calls, i, b) {
      var j :| i < j < |calls| && home(calls[j].id) == Some(b) && calls[j].id == id;
      assert s[j - i - 1].id == id;
    }
  }

  lemma {:induction false} LaterCount(home: Home, calls: seq<Peer>, i: nat, b: nat)
    requires i < |calls|
    ensures |Latest(CallsFor(home, calls[i + 1..], b))| == |LaterIds(home, calls, i, b)|
  {
    hide Mentions, Latest, CallsFor, LaterIds, IdsOf, DistinctIds;
    var mine := CallsFor(home, calls[i + 1..], b);
    forall id
      ensures id in IdsOf(Latest(mine)) <==> id in LaterIds(home, calls, i, b)
    {
      IdsMention(Latest(mine), id);
      LatestMentions(mine, id);
      CallsForMentions(home, calls[i + 1..], b, id);
      LaterMention(home, calls, i, b, id);
    }
    LatestMentions(mine, calls[i].id);
    DistinctCount(Latest(mine));
    assert IdsOf(Latest(mine)) == LaterIds(home, calls, i, b);
  }

  lemma {:induction false} CallsForAround(home: Home, calls: seq<Peer>, i: nat, b: nat)
    requires i < |calls| && home(calls[i].id) == Some(b)
    ensures CallsFor(home, calls, b)
         == CallsFor(home, calls[..i], b) + ([calls[i]] + CallsFor(home, calls[i + 1..], b))
  {
    var x, p, y := calls[..i], calls[i], calls[i + 1..];
    assert calls == x + ([p] + y);
    CallsForAppend(home, x, [p] + y, b);
    CallsForAppend(home, [p], y, b);
    assert [p][..0] == [] && CallsFor(home, [p], b) == [p];
  }

  /** Where the last call of an identifier stands in the list of last calls of its bucket. */
  lemma {:induction false} LastCallStands(home: Home, calls: seq<Peer>, i: nat, b: nat) returns (front: seq<Peer>)
    requires i < |calls| && home(calls[i].id) == Some(b) && !Mentions(calls[i + 1..], calls[i].id)
    ensures var rest := Latest(CallsFor(home, calls[i + 1..], b));
            Latest(CallsFor(home, calls, b)) == front + ([calls[i]] + rest)
            && |rest| == |LaterIds(home, calls, i, b)|
  {
    hide Mentions, Latest, CallsFor, LaterIds;
    var y := CallsFor(home, calls[i + 1..], b);
    CallsForAround(home, calls, i, b);
    CallsForMentions(home, calls[i + 1..], b, calls[i].id);
    LatestCons(calls[i], y);
    front := LatestEnds(CallsFor(home, calls[..i], b), [calls[i]] + y);
    LaterCount(home, calls, i, b);
  }

  lemma {:induction false} AmongLast(front: seq<Peer>, p: Peer, rest: seq<Peer>, n: nat)
    requires DistinctIds(front + ([p] + rest))
    ensures p in Last(front + ([p] + rest), n) <==> |rest| < n
  {
    var list := front + ([p] + rest);
    assert list[|front|] == p;
    var end := Last(list, n);
    if |rest| < n {
      assert end[|end| - 1 - |rest|] == p;
    }
    if i :| 0 <= i < |end| && end[i] == p {
      assert list[|list| - |end| + i] == p;
      assert |list| - |end| + i == |front|;
    }
  }

  lemma {:induction false} LastMention(calls: seq<Peer>, id: NodeId) returns (i: nat)
    requires Mentions(calls, id)
    ensures i < |calls| && calls[i].id == id && !Mentions(calls[i + 1..], id)
  {
    var n := |calls| - 1;
    if calls[n].id == id {
      i := n;
    } else {
      assert calls == calls[..n] + [calls[n]];
      MentionsSnoc(calls[..n], calls[n], id);
      i := LastMention(calls[..n], id);
      assert calls[i + 1..] == calls[..n][i + 1..] + [calls[n]];
      MentionsSnoc(calls[..n][i + 1..], calls[n], id);
    }
  }

  /** Call number `i` is the last one for `p`'s identifier, and fewer than 20 identifiers of the same bucket are
      called after it. */
  ghost predicate Remembered(home: Home, calls: seq<Peer>, b: nat, i: nat, p: Peer)
    requires i < |calls|
  {
    LastCallAt(calls, i, p) && |LaterIds(home, calls, i, b)| < 20
  }

  /** After any sequence of calls a bucket holds exactly the peers that belong to it whose last call is
      followed by calls for fewer than 20 other identifiers of that bucket. */
  lemma {:induction false} BucketHoldsIff(home: Home, calls: seq<Peer>, b: nat, p: Peer)
    requires b < 256
    ensures |AddAll(home, EmptyTable(), calls)| == 256
    ensures p in AddAll(home, EmptyTable(), calls)[b]
            <==> home(p.id) == Some(b) && exists i :: 0 <= i < |calls| && Remembered(home, calls, b, i, p)
  {
    hide Mentions, Latest, CallsFor, LaterIds, AddAll, Last, DistinctIds;
    BucketIsLru(home, calls, b);
    var mine := CallsFor(home, calls, b);
    LatestMentions(mine, p.id);
    CallsForMentions(home, calls, b, p.id);
    if Mentions(mine, p.id) {
      var i := LastMention(calls, p.id);
      LastCallDecides(home, calls, b, i, p);
    } else {
      NotMentioned(calls, mine, home, b, p);
    }
  }

  lemma {:induction false} NotMentioned(calls: seq<Peer>, mine: seq<Peer>, home: Home, b: nat, p: Peer)
    requires !Mentions(Latest(mine), p.id) && !(Mentions(calls, p.id) && home(p.id) == Some(b))
    ensures p !in Last(Latest(mine), 20)
    ensures home(p.id) == Some(b) ==> forall i :: 0 <= i < |calls| ==> !Remembered(home, calls, b, i, p)
  {
    hide Latest;
    InLast(Latest(mine), 20, p);
  }

  lemma {:induction false} LastCallDecides(home: Home, calls: seq<Peer>, b: nat, i: nat, p: Peer)
    requires home(p.id) == Some(b) && i < |calls| && calls[i].id == p.id && !Mentions(calls[i + 1..], p.id)
    ensures p in Last(Latest(CallsFor(home, calls, b)), 20)
            <==> exists k :: 0 <= k < |calls| && Remembered(home, calls, b, k, p)
  {
    hide Latest, CallsFor, LaterIds, Last, Mentions;
    var list := Latest(CallsFor(home, calls, b));
    LatestMentions(CallsFor(home, calls, b), p.id);
    var front := LastCallStands(home, calls, i, b);
    var rest := Latest(CallsFor(home, calls[i + 1..], b));
    AmongLast(front, calls[i], rest, 20);
    OnlyOne(list, |front|, p);
    InLast(list, 20, p);
    assert LastCallAt(calls, i, p) <==> calls[i] == p;
    forall k | 0 <= k < |calls| && LastCallAt(calls, k, p)
      ensures k == i
    {
      SameLastCall(calls, i, k, p.id);
    }
    assert Remembered(home, calls, b, i, p) <==> p in Last(list, 20);
  }

  lemma {:induction false} InLast(list: seq<Peer>, n: nat, p: Peer)
    ensures p in Last(list, n) ==> p in list
  {
  }

  lemma {:induction false} OnlyOne(list: seq<Peer>, i: nat, p: Peer)
    requires DistinctIds(list) && i < |list| && list[i].id == p.id
    ensures p in list <==> list[i] == p
  {
  }

  lemma {:induction false} SameLastCall(calls: seq<Peer>, i: nat, k: nat, id: NodeId)
    requires i < |calls| && calls[i].id == id && !Mentions(calls[i + 1..], id)
    requires k < |calls| && calls[k].id == id && !Mentions(calls[k + 1..], id)
    ensures k == i
  {
    hide Mentions;
    MentionedLater(calls, i, k);
    MentionedLater(calls, k, i);
  }

  lemma {:induction false} MentionedLater(calls: seq<Peer>, i: nat, k: nat)
    requires i < |calls| && k < |calls|
    ensures i < k ==> Mentions(calls[i + 1..], calls[k].id)
  {
    if i < k {
      assert calls[i + 1..][k - i - 1] == calls[k];
    }
  }

  // ---------- Closest peers ----------

  /** Two lists without repeated identifiers that hold the same peers hold the same addresses. */
  lemma {:induction false} SameEntriesSameAddrs(a: seq<Peer>, b: seq<Peer>)
    requires DistinctIds(a) && DistinctIds(b)
    requires forall p :: p in a <==> p in b
    ensures FirstAddrs(a) == FirstAddrs(b)
  {
    FirstAddrsKeys(a);
    FirstAddrsKeys(b);
    forall id | id in FirstAddrs(a)
      ensures id in FirstAddrs(b) && FirstAddrs(b)[id] == FirstAddrs(a)[id]
    {
      FirstAddrsDistinct(b, Peer(id, FirstAddrs(a)[id]));
    }
    forall id | id in FirstAddrs(b)
      ensures id in FirstAddrs(a)
    {
      FirstAddrsDistinct(a, Peer(id, FirstAddrs(b)[id]));
    }
  }

  /** `closest_peers` is the beginning of the table's peers listed by distance. */
  lemma {:induction false} ClosestIsByRank(self: NodeId, t: Table, target: NodeId, count: nat)
    requires TableInv(HomeOf(self), t)
    ensures Injective(DistTo(target))
    ensures Closest(t, target, count) == Take(ByRank(FirstAddrs(Entries(t)), DistTo(target)), count)
  {
    DistToInjective(target);
    EntriesDistinct(self, t);
    SortDistinct(Entries(t), DistTo(target));
  }

  /** What a prefix of a sorted list leaves out lies behind everything in it. */
  lemma {:induction false} PrefixIsNearer(all: seq<Peer>, n: nat, rank: Rank, p: Peer, q: Peer)
    requires Nearing(all, rank)
    requires p in Take(all, n) && q in all && q !in Take(all, n)
    ensures rank(p.id) < rank(q.id)
  {
    var r := Take(all, n);
    var i :| 0 <= i < |r| && r[i] == p;
    var j :| 0 <= j < |all| && all[j] == q;
    assert forall k :: 0 <= k < |r| ==> all[k] in r;
    assert all[i] == p;
  }

  /** It returns as many peers as asked for or held, by strictly increasing distance, and leaves out
      none that is nearer than a returned one. */
  lemma {:induction false} ClosestAreNearest(self: NodeId, t: Table, target: NodeId, count: nat)
    requires TableInv(HomeOf(self), t)
    ensures var r := Closest(t, target, count);
            && |r| == (if count < |Entries(t)| then count else |Entries(t)|)
            && Nearing(r, DistTo(target))
            && (forall p :: p in r ==> p in Entries(t))
            && (forall p, q :: p in r && q in Entries(t) && q !in r ==> DistTo(target)(p.id) < DistTo(target)(q.id))
  {
    var rank := DistTo(target);
    var all := SortBy(Entries(t), PeerKey(rank));
    assert Nearing(all, rank) by {
      DistToInjective(target);
      EntriesDistinct(self, t);
      SortDistinct(Entries(t), rank);
      ByRankSorted(FirstAddrs(Entries(t)), rank);
    }
    SortBySorts(Entries(t), PeerKey(rank));
    SameMembers(all, Entries(t));
    var r := Closest(t, target, count);
    forall p, q | p in r && q in Entries(t) && q !in r
      ensures rank(p.id) < rank(q.id)
    {
      PrefixIsNearer(all, count, rank, p, q);
    }
  }

  /** The answer depends on the set of entries only, not on how they are spread over buckets or in
      which order they came. */
  lemma {:induction false} ClosestDependsOnEntrySet(self: NodeId, t: Table, self': NodeId, t': Table, target: NodeId,
                                                    count: nat)
    requires TableInv(HomeOf(self), t) && TableInv(HomeOf(self'), t')
    requires forall p :: p in Entries(t) <==> p in Entries(t')
    ensures Closest(t, target, count) == Closest(t', target, count)
  {
    ClosestIsByRank(self, t, target, count);
    ClosestIsByRank(self', t', target, count);
    EntriesDistinct(self, t);
    EntriesDistinct(self', t');
    SameEntriesSameAddrs(Entries(t), Entries(t'));
  }
}
