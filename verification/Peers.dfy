/** Lists of known peers ordered by a rank of their identifiers. The rank in use is the distance from
    a target; all that matters here is that no two identifiers have the same rank. */
module Peers {
  import opened Bits
  import opened NodeIds
  import opened Sorting

  datatype NodeAddr = NodeAddr(ip: seq<Byte>, port: nat)

  datatype Peer = Peer(id: NodeId, addr: NodeAddr)

  type Rank = NodeId -> int

  function DistTo(t: NodeId): Rank {
    (id: NodeId) => Dist(t, id)
  }

  function PeerKey(rank: Rank): Peer -> int {
    (p: Peer) => rank(p.id)
  }

  ghost predicate Injective(rank: Rank) {
    forall a, b :: rank(a) == rank(b) ==> a == b
  }

  ghost predicate DistinctIds(s: seq<Peer>) {
    forall i, j :: 0 <= i < j < |s| ==> s[i].id != s[j].id
  }

  /** Strictly nearer peers stand strictly further to the left. */
  ghost predicate Nearing(s: seq<Peer>, rank: Rank) {
    forall i, j :: 0 <= i < j < |s| ==> rank(s[i].id) < rank(s[j].id)
  }

  /** Rust's `dedup_by_key` on the identifier: of equal neighbours the first one stays. */
  function Dedup(s: seq<Peer>): seq<Peer>
    decreases |s|
  {
    if |s| < 2 then s
    else if s[0].id == s[1].id then Dedup([s[0]] + s[2..])
    else [s[0]] + Dedup(s[1..])
  }

  /** The first address a list gives for each identifier. */
  function FirstAddrs(s: seq<Peer>): map<NodeId, NodeAddr> {
    if s == [] then map[] else FirstAddrs(s[1..])[s[0].id := s[0].addr]
  }

  lemma {:induction false} DistToInjective(t: NodeId)
    ensures Injective(DistTo(t))
  {
    forall a, b | DistTo(t)(a) == DistTo(t)(b)
      ensures a == b
    {
      DistInjective(t, a, b);
    }
  }

  // ---------- The first address of each identifier ----------

  /** An identifier has a first address exactly when it is listed. */
  lemma {:induction false} FirstAddrsKeys(s: seq<Peer>)
    ensures forall p :: p in s ==> p.id in FirstAddrs(s)
    ensures forall id :: id in FirstAddrs(s) ==> Peer(id, FirstAddrs(s)[id]) in s
  {
    if s == [] {
    } else {
      FirstAddrsKeys(s[1..]);
      assert s == [s[0]] + s[1..];
    }
  }

  lemma {:induction false} FirstAddrsAppend(a: seq<Peer>, b: seq<Peer>)
    ensures FirstAddrs(a + b) == FirstAddrs(b) + FirstAddrs(a)
  {
    if a == [] {
      assert a + b == b;
    } else {
      FirstAddrsAppend(a[1..], b);
      assert (a + b)[1..] == a[1..] + b;
    }
  }

  lemma {:induction false} HeadRepeats(s: seq<Peer>)
    requires s != []
    ensures s[0].id in FirstAddrs(s[1..]) <==> exists j :: 0 < j < |s| && s[j].id == s[0].id
  {
    var u := s[1..];
    FirstAddrsKeys(u);
    if s[0].id in FirstAddrs(u) {
      var p := Peer(s[0].id, FirstAddrs(u)[s[0].id]);
      var j :| 0 <= j < |u| && u[j] == p;
      assert s[j + 1].id == s[0].id;
    }
    if j :| 0 < j < |s| && s[j].id == s[0].id {
      assert s[j] in u;
    }
  }

  /** As many identifiers as entries means that none repeats, and the other way round. */
  lemma {:induction false} DistinctByCount(s: seq<Peer>)
    ensures |FirstAddrs(s)| <= |s|
    ensures |FirstAddrs(s)| == |s| <==> DistinctIds(s)
  {
    if s == [] {
    } else {
      DistinctByCount(s[1..]);
      HeadRepeats(s);
      SizeAfterSet(FirstAddrs(s[1..]), s[0].id, s[0].addr);
    }
  }

  lemma {:induction false} SizeAfterSet(m: map<NodeId, NodeAddr>, id: NodeId, addr: NodeAddr)
    ensures |m[id := addr]| == if id in m then |m| else |m| + 1
  {
    assert m[id := addr].Keys == m.Keys + {id};
  }

  /** In a list without repeated identifiers every peer carries the first address. */
  lemma {:induction false} FirstAddrsDistinct(s: seq<Peer>, p: Peer)
    requires DistinctIds(s)
    ensures p in s <==> p.id in FirstAddrs(s) && FirstAddrs(s)[p.id] == p.addr
  {
    if s == [] {
    } else {
      FirstAddrsDistinct(s[1..], p);
      assert s == [s[0]] + s[1..];
      assert p in s[1..] ==> p.id != s[0].id;
    }
  }

  // ---------- A set of peers as a sorted list ----------

  ghost function Nearest(ids: set<NodeId>, rank: Rank): (id: NodeId)
    requires ids != {} && Injective(rank)
    ensures id in ids
    ensures forall other :: other in ids && other != id ==> rank(id) < rank(other)
  {
    var x :| x in ids;
    if ids == {x} then x
    else
      var y := Nearest(ids - {x}, rank);
      assert rank(x) != rank(y);
      if rank(x) < rank(y) then x else y
  }

  /** A set of peers as its list by increasing rank. */
  ghost function ByRank(m: map<NodeId, NodeAddr>, rank: Rank): (r: seq<Peer>)
    requires Injective(rank)
  {
    if m == map[] then []
    else
      var id := Nearest(m.Keys, rank);
      [Peer(id, m[id])] + ByRank(m - {id}, rank)
  }

  lemma {:induction false} HeadFirst(p: Peer, rest: seq<Peer>, rank: Rank)
    requires Nearing(rest, rank)
    requires forall id :: id in FirstAddrs(rest) ==> rank(p.id) < rank(id)
    ensures Nearing([p] + rest, rank)
  {
    FirstAddrsKeys(rest);
    assert forall j :: 0 <= j < |rest| ==> rest[j] in rest;
  }

  /** The list is strictly sorted and holds exactly the peers of the set. */
  lemma {:induction false} ByRankSorted(m: map<NodeId, NodeAddr>, rank: Rank)
    requires Injective(rank)
    ensures Nearing(ByRank(m, rank), rank)
    ensures FirstAddrs(ByRank(m, rank)) == m
    ensures |ByRank(m, rank)| == |m|
    decreases m
  {
    hide Nearest, Injective;
    if m != map[] {
      var id := Nearest(m.Keys, rank);
      var rest := ByRank(m - {id}, rank);
      ByRankSorted(m - {id}, rank);
      HeadFirst(Peer(id, m[id]), rest, rank);
      assert ([Peer(id, m[id])] + rest)[1..] == rest;
      assert (m - {id})[id := m[id]] == m;
      assert m.Keys == (m - {id}).Keys + {id};
      assert |m.Keys| == |(m - {id}).Keys| + 1;
    }
  }

  lemma {:induction false} HeadIsNearest(s: seq<Peer>, rank: Rank)
    requires Nearing(s, rank) && s != []
    ensures forall id :: id in FirstAddrs(s[1..]) ==> rank(s[0].id) < rank(id)
  {
    var u := s[1..];
    forall id | id in FirstAddrs(u)
      ensures rank(s[0].id) < rank(id)
    {
      FirstAddrsKeys(u);
      var j :| 0 <= j < |u| && u[j] == Peer(id, FirstAddrs(u)[id]);
      assert s[j + 1].id == id;
    }
  }

  lemma {:induction false} TailOfNearing(s: seq<Peer>, rank: Rank)
    requires Nearing(s, rank) && s != []
    ensures Nearing(s[1..], rank)
    ensures FirstAddrs(s[1..]) == FirstAddrs(s) - {s[0].id}
    ensures forall id :: id in FirstAddrs(s) && id != s[0].id ==> rank(s[0].id) < rank(id)
  {
    HeadIsNearest(s, rank);
    assert s[0].id !in FirstAddrs(s[1..]);
  }

  /** A strictly sorted list is determined by the set of peers it holds. */
  lemma {:induction false} NearingIsUnique(s: seq<Peer>, rank: Rank)
    requires Nearing(s, rank) && Injective(rank)
    ensures s == ByRank(FirstAddrs(s), rank)
  {
    if s == [] {
    } else {
      TailOfNearing(s, rank);
      NearingIsUnique(s[1..], rank);
      assert s[0].id in FirstAddrs(s);
      assert Nearest(FirstAddrs(s).Keys, rank) == s[0].id;
      assert s == [s[0]] + s[1..];
    }
  }

  // ---------- Sort, then deduplicate ----------

  lemma {:induction false} InsertKeepsFirst(x: Peer, s: seq<Peer>, rank: Rank)
    ensures FirstAddrs(Insert(x, s, PeerKey(rank))) == FirstAddrs(s)[x.id := x.addr]
  {
    if s == [] || rank(x.id) <= rank(s[0].id) {
      assert ([x] + s)[1..] == s;
    } else {
      var r := Insert(x, s[1..], PeerKey(rank));
      InsertKeepsFirst(x, s[1..], rank);
      assert ([s[0]] + r)[1..] == r;
    }
  }

  /** A stable sort keeps the first address of every identifier first. */
  lemma {:induction false} SortKeepsFirst(s: seq<Peer>, rank: Rank)
    ensures FirstAddrs(SortBy(s, PeerKey(rank))) == FirstAddrs(s)
  {
    if s == [] {
    } else {
      SortKeepsFirst(s[1..], rank);
      InsertKeepsFirst(s[0], SortBy(s[1..], PeerKey(rank)), rank);
    }
  }

  lemma {:induction false} DedupKeepsFirst(s: seq<Peer>)
    ensures FirstAddrs(Dedup(s)) == FirstAddrs(s)
    ensures s != [] ==> Dedup(s) != [] && Dedup(s)[0] == s[0]
    decreases |s|
  {
    if |s| >= 2 {
      if s[0].id == s[1].id {
        var u := [s[0]] + s[2..];
        DedupKeepsFirst(u);
        assert u[1..] == s[2..] && s[1..][1..] == s[2..];
      } else {
        DedupKeepsFirst(s[1..]);
        assert ([s[0]] + Dedup(s[1..]))[1..] == Dedup(s[1..]);
      }
    }
  }

  lemma {:induction false} DedupStrict(s: seq<Peer>, rank: Rank)
    requires Ordered(s, PeerKey(rank)) && Injective(rank)
    ensures Nearing(Dedup(s), rank)
    decreases |s|
  {
    if |s| >= 2 {
      if s[0].id == s[1].id {
        var u := [s[0]] + s[2..];
        assert forall i :: 0 < i < |u| ==> u[i] == s[i + 1];
        DedupStrict(u, rank);
      } else {
        var d := Dedup(s[1..]);
        DedupStrict(s[1..], rank);
        DedupKeepsFirst(s[1..]);
        assert PeerKey(rank)(s[0]) <= PeerKey(rank)(s[1]);
        assert rank(s[0].id) < rank(d[0].id);
      }
    }
  }

  /** Sorting by rank and dropping equal neighbours lists each identifier once, by strictly
      increasing rank, with the address that came first. */
  lemma {:induction false} SortDedupIsByRank(s: seq<Peer>, rank: Rank)
    requires Injective(rank)
    ensures Dedup(SortBy(s, PeerKey(rank))) == ByRank(FirstAddrs(s), rank)
  {
    var r := SortBy(s, PeerKey(rank));
    SortBySorts(s, PeerKey(rank));
    SortKeepsFirst(s, rank);
    DedupStrict(r, rank);
    DedupKeepsFirst(r);
    NearingIsUnique(Dedup(r), rank);
  }

  /** Sorting a list without repeated identifiers needs no deduplication. */
  lemma {:induction false} SortDistinct(s: seq<Peer>, rank: Rank)
    requires DistinctIds(s) && Injective(rank)
    ensures SortBy(s, PeerKey(rank)) == ByRank(FirstAddrs(s), rank)
  {
    var r := SortBy(s, PeerKey(rank));
    SortBySorts(s, PeerKey(rank));
    SortKeepsFirst(s, rank);
    DistinctByCount(s);
    DistinctByCount(r);
    forall i, j | 0 <= i < j < |r|
      ensures rank(r[i].id) < rank(r[j].id)
    {
      assert PeerKey(rank)(r[i]) <= PeerKey(rank)(r[j]);
    }
    NearingIsUnique(r, rank);
  }
}
