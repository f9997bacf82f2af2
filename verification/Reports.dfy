/** What a walk learns, which peers it offers to the routing table and how it ends, said of the answers themselves
    (crates/bitcord-core/src/dht/kademlia.rs:60-102). A place is a round, a position in that round's batch and a
    position in the reply that came back there. */
module Reports {
  import opened Wrappers
  import opened NodeIds
  import opened Peers
  import opened RoutingTable
  import opened Walk

  datatype Place = Place(round: nat, position: nat, entry: nat)

  predicate Earlier(a: Place, b: Place) {
    || a.round < b.round
    || (a.round == b.round && (a.position < b.position || (a.position == b.position && a.entry < b.entry)))
  }

  /** The reply at place `x` names `p` there. */
  predicate Names(rpc: Rpc, x: Place, p: Peer) {
    && x.round < |rpc| && x.position < |rpc[x.round]| && rpc[x.round][x.position].Replied?
    && x.entry < |rpc[x.round][x.position].peers| && rpc[x.round][x.position].peers[x.entry] == p
  }

  /** A peer is contacted at that round and position. */
  ghost predicate Asked(seeds: seq<Peer>, rank: Rank, rpc: Rpc, round: nat, position: nat)
    requires Injective(rank)
  {
    position < |Batch(After(seeds, rank, rpc, round), rank)|
  }

  // ---------- Addresses ----------

  /** The first entry of a list with that identifier. */
  ghost predicate FirstEntry(s: seq<Peer>, j: nat, id: NodeId, addr: NodeAddr) {
    j < |s| && s[j] == Peer(id, addr) && forall l :: 0 <= l < j ==> s[l].id != id
  }

  /** An identifier is mapped to the address of its first entry, and only listed ones are mapped. */
  lemma {:induction false} FirstAddrIs(s: seq<Peer>, id: NodeId, addr: NodeAddr)
    ensures id in FirstAddrs(s) && FirstAddrs(s)[id] == addr <==> exists j :: 0 <= j < |s| && FirstEntry(s, j, id, addr)
    ensures id in FirstAddrs(s) <==> exists j :: 0 <= j < |s| && s[j].id == id
  {
    if s == [] {
    } else {
      var u := s[1..];
      FirstAddrIs(u, id, addr);
      assert forall l :: 0 <= l < |u| ==> u[l] == s[l + 1];
      if s[0] == Peer(id, addr) {
        assert FirstEntry(s, 0, id, addr);
      } else if s[0].id != id {
        if j :| 0 <= j < |u| && FirstEntry(u, j, id, addr) {
          assert FirstEntry(s, j + 1, id, addr);
        }
        if j :| 0 <= j < |s| && FirstEntry(s, j, id, addr) {
          assert FirstEntry(u, j - 1, id, addr);
        }
      }
    }
  }

  // ---------- What one round reports ----------

  lemma {:induction false} ReplyIs(rpc: Rpc, round: nat, i: nat)
    ensures forall j :: 0 <= j < |ReplyPeers(Answer(rpc, round, i))| ==>
                          Names(rpc, Place(round, i, j), ReplyPeers(Answer(rpc, round, i))[j])
    ensures forall j: nat, p :: Names(rpc, Place(round, i, j), p) ==>
                                  j < |ReplyPeers(Answer(rpc, round, i))| && ReplyPeers(Answer(rpc, round, i))[j] == p
  {
  }

  /** A place before the first `n` answers of the round that names `id` with that address, and the first to name it. */
  ghost predicate FirstInRound(rpc: Rpc, round: nat, n: nat, x: Place, id: NodeId, addr: NodeAddr) {
    && x.round == round && x.position < n && Names(rpc, x, Peer(id, addr))
    && forall y: Place, b :: y.round == round && y.position < n && Names(rpc, y, Peer(id, b)) ==> !Earlier(y, x)
  }

  lemma {:induction false} ReportedHas(rpc: Rpc, round: nat, n: nat, x: Place, p: Peer)
    requires x.round == round && x.position < n && Names(rpc, x, p)
    ensures p.id in FirstAddrs(Reported(rpc, round, n))
  {
    hide FirstAddrs, Names;
    var reply := ReplyPeers(Answer(rpc, round, n - 1));
    FirstAddrsAppend(Reported(rpc, round, n - 1), reply);
    if x.position == n - 1 {
      ReplyIs(rpc, round, n - 1);
      assert x == Place(round, n - 1, x.entry);
      FirstAddrIs(reply, p.id, p.addr);
    } else {
      ReportedHas(rpc, round, n - 1, x, p);
    }
  }

  lemma {:induction false} ReportedFirst(rpc: Rpc, round: nat, n: nat, id: NodeId) returns (x: Place)
    requires id in FirstAddrs(Reported(rpc, round, n))
    ensures FirstInRound(rpc, round, n, x, id, FirstAddrs(Reported(rpc, round, n))[id])
  {
    hide FirstAddrs, Names;
    if n == 0 {
      NothingReported(rpc, round);
      assert false;
    }
    var before, reply := Reported(rpc, round, n - 1), ReplyPeers(Answer(rpc, round, n - 1));
    var addr := FirstAddrs(Reported(rpc, round, n))[id];
    FirstAddrsAppend(before, reply);
    if id in FirstAddrs(before) {
      x := ReportedFirst(rpc, round, n - 1, id);
    } else {
      ReplyIs(rpc, round, n - 1);
      FirstAddrIs(reply, id, addr);
      var j :| 0 <= j < |reply| && FirstEntry(reply, j, id, addr);
      x := Place(round, n - 1, j);
      forall y: Place, b | y.round == round && y.position < n && Names(rpc, y, Peer(id, b))
        ensures !Earlier(y, x)
      {
        if y.position < n - 1 {
          ReportedHas(rpc, round, n - 1, y, Peer(id, b));
          assert false;
        }
        assert y == Place(round, n - 1, y.entry);
      }
    }
  }

  lemma {:induction false} NothingReported(rpc: Rpc, round: nat)
    ensures FirstAddrs(Reported(rpc, round, 0)) == map[]
  {
  }

  // ---------- What is known ----------

  lemma {:induction false} KnownStep(seeds: seq<Peer>, rank: Rank, rpc: Rpc, n: nat)
    requires Injective(rank)
    ensures var w := After(seeds, rank, rpc, n);
            After(seeds, rank, rpc, n + 1).known == FirstAddrs(Reported(rpc, n, |Batch(w, rank)|)) + w.known
    ensures After(seeds, rank, rpc, 0).known == FirstAddrs(seeds)
  {
    hide FirstAddrs, Reported, Batch;
  }

  /** Everything a contacted peer names is known from the next round on. */
  lemma {:induction false} NamedIsKnown(seeds: seq<Peer>, rank: Rank, rpc: Rpc, n: nat, x: Place, p: Peer)
    requires Injective(rank) && x.round < n && Asked(seeds, rank, rpc, x.round, x.position) && Names(rpc, x, p)
    ensures p.id in After(seeds, rank, rpc, n).known
  {
    hide After, Names, FirstAddrs, Reported, Batch;
    KnownStep(seeds, rank, rpc, n - 1);
    if x.round == n - 1 {
      ReportedHas(rpc, n - 1, |Batch(After(seeds, rank, rpc, n - 1), rank)|, x, p);
    } else {
      NamedIsKnown(seeds, rank, rpc, n - 1, x, p);
    }
  }

  lemma {:induction false} SeedIsKnown(seeds: seq<Peer>, rank: Rank, rpc: Rpc, n: nat, id: NodeId)
    requires Injective(rank) && id in FirstAddrs(seeds)
    ensures id in After(seeds, rank, rpc, n).known && After(seeds, rank, rpc, n).known[id] == FirstAddrs(seeds)[id]
  {
    hide After, FirstAddrs, Reported, Batch;
    KnownStep(seeds, rank, rpc, if n == 0 then 0 else n - 1);
    if n == 0 {
    } else {
      SeedIsKnown(seeds, rank, rpc, n - 1, id);
    }
  }

  /** The first place of the whole walk that names `id`, with that address. */
  ghost predicate FirstNamed(seeds: seq<Peer>, rank: Rank, rpc: Rpc, x: Place, id: NodeId, addr: NodeAddr)
    requires Injective(rank)
  {
    && Asked(seeds, rank, rpc, x.round, x.position) && Names(rpc, x, Peer(id, addr))
    && forall y: Place, b :: Asked(seeds, rank, rpc, y.round, y.position) && Names(rpc, y, Peer(id, b))
                             ==> !Earlier(y, x)
  }

  /** An identifier is known with an address if and only if its first seed has that address, or it is no seed and the
      first contacted peer to name it, in an earlier round, names it with that address. */
  lemma {:induction false} KnownIff(seeds: seq<Peer>, rank: Rank, rpc: Rpc, n: nat, id: NodeId, addr: NodeAddr)
    requires Injective(rank)
    ensures var known := After(seeds, rank, rpc, n).known;
            id in known && known[id] == addr <==>
            || (exists j :: 0 <= j < |seeds| && FirstEntry(seeds, j, id, addr))
            || ((forall j :: 0 <= j < |seeds| ==> seeds[j].id != id)
                && exists x: Place :: x.round < n && FirstNamed(seeds, rank, rpc, x, id, addr))
  {
    hide After, FirstEntry, Asked, Names, FirstAddrs;
    FirstAddrIs(seeds, id, addr);
    if id in FirstAddrs(seeds) {
      SeedIsKnown(seeds, rank, rpc, n, id);
      FirstAddrIs(seeds, id, FirstAddrs(seeds)[id]);
    } else {
      var known := After(seeds, rank, rpc, n).known;
      if id in known {
        var x := FirstPlace(seeds, rank, rpc, n, id);
        forall y: Place | y.round < n && FirstNamed(seeds, rank, rpc, y, id, addr)
          ensures known[id] == addr
        {
          OnePlace(seeds, rank, rpc, x, known[id], y, addr, id);
        }
      } else {
        forall y: Place | y.round < n
          ensures !FirstNamed(seeds, rank, rpc, y, id, addr)
        {
          if FirstNamed(seeds, rank, rpc, y, id, addr) {
            NamedIsKnown(seeds, rank, rpc, n, y, Peer(id, addr));
          }
        }
      }
    }
  }

  lemma {:induction false} OnePlace(seeds: seq<Peer>, rank: Rank, rpc: Rpc, x: Place, a: NodeAddr, y: Place,
                                    b: NodeAddr, id: NodeId)
    requires Injective(rank) && FirstNamed(seeds, rank, rpc, x, id, a) && FirstNamed(seeds, rank, rpc, y, id, b)
    ensures x == y && a == b
  {
    hide Asked;
    assert !Earlier(x, y) && !Earlier(y, x);
  }

  lemma {:induction false} FirstPlace(seeds: seq<Peer>, rank: Rank, rpc: Rpc, n: nat, id: NodeId) returns (x: Place)
    requires Injective(rank) && id !in FirstAddrs(seeds) && id in After(seeds, rank, rpc, n).known
    ensures x.round < n && FirstNamed(seeds, rank, rpc, x, id, After(seeds, rank, rpc, n).known[id])
  {
    hide After, Names, FirstAddrs, Reported, Batch, Earlier;
    KnownStep(seeds, rank, rpc, if n == 0 then 0 else n - 1);
    if n == 0 {
      assert false;
    }
    var w := After(seeds, rank, rpc, n - 1);
    if id in w.known {
      x := FirstPlace(seeds, rank, rpc, n - 1, id);
    } else {
      var size := |Batch(w, rank)|;
      x := ReportedFirst(rpc, n - 1, size, id);
      forall y: Place, b | Asked(seeds, rank, rpc, y.round, y.position) && Names(rpc, y, Peer(id, b))
        ensures !Earlier(y, x)
      {
        if y.round < n - 1 {
          NamedIsKnown(seeds, rank, rpc, n - 1, y, Peer(id, b));
          assert false;
        } else if y.round > n - 1 {
          LaterRound(x, y);
        }
      }
    }
  }

  lemma {:induction false} LaterRound(x: Place, y: Place)
    requires x.round < y.round
    ensures !Earlier(y, x) && Earlier(x, y)
  {
  }

  // ---------- What is offered to the routing table ----------

  /** `places` lists, in order, places that name the given peers. */
  ghost predicate Located(rpc: Rpc, calls: seq<Peer>, places: seq<Place>) {
    && |places| == |calls|
    && (forall m :: 0 <= m < |calls| ==> Names(rpc, places[m], calls[m]))
    && forall m, l :: 0 <= m < l < |places| ==> Earlier(places[m], places[l])
  }

  lemma {:induction false} LocatedAppend(rpc: Rpc, a: seq<Peer>, x: seq<Place>, b: seq<Peer>, y: seq<Place>)
    requires Located(rpc, a, x) && Located(rpc, b, y)
    requires forall m, l :: 0 <= m < |x| && 0 <= l < |y| ==> Earlier(x[m], y[l])
    ensures Located(rpc, a + b, x + y)
  {
    hide Earlier, Names;
  }

  /** The places of one reply whose peers are taken up. */
  lemma {:induction false} ReplyPlaces(rpc: Rpc, round: nat, i: nat, reply: seq<Peer>, visited: set<NodeId>)
    returns (places: seq<Place>)
    requires forall j :: 0 <= j < |reply| ==> Names(rpc, Place(round, i, j), reply[j])
    ensures Located(rpc, Accepted(reply, visited), places)
    ensures forall x :: x in places <==>
                          x.round == round && x.position == i && x.entry < |reply| && reply[x.entry].id !in visited
  {
    hide Names, Accepted, Located, Earlier;
    if reply == [] {
      NoneAccepted(visited);
      NoCalls(rpc);
      return [];
    } else {
      var n := |reply| - 1;
      var more := ReplyPlaces(rpc, round, i, reply[..n], visited);
      AcceptedLast(reply, visited);
      if reply[n].id in visited {
        assert Accepted(reply[..n], visited) + [] == Accepted(reply[..n], visited);
        places := more;
      } else {
        places := more + [Place(round, i, n)];
        OneMorePlace(rpc, Accepted(reply[..n], visited), more, reply[n], round, i, n);
      }
      forall x
        ensures x in places <==>
                x.round == round && x.position == i && x.entry < |reply| && reply[x.entry].id !in visited
      {
        assert x in places <==> x in more || (reply[n].id !in visited && x == Place(round, i, n));
        assert x in more <==>
               x.round == round && x.position == i && x.entry < n && reply[..n][x.entry].id !in visited;
      }
    }
  }

  lemma {:induction false} OneMorePlace(rpc: Rpc, calls: seq<Peer>, places: seq<Place>, p: Peer, round: nat, i: nat,
                                        n: nat)
    requires Located(rpc, calls, places) && Names(rpc, Place(round, i, n), p)
    requires forall x :: x in places ==> x.round == round && x.position == i && x.entry < n
    ensures Located(rpc, calls + [p], places + [Place(round, i, n)])
  {
    hide Names;
    forall m | 0 <= m < |places|
      ensures Earlier(places[m], Place(round, i, n))
    {
      assert places[m] in places;
    }
  }

  /** The places of the first `n` answers of a round whose peers are taken up. */
  lemma {:induction false} RoundPlaces(rpc: Rpc, round: nat, n: nat, visited: set<NodeId>) returns (places: seq<Place>)
    ensures Located(rpc, Accepted(Reported(rpc, round, n), visited), places)
    ensures forall x :: x in places <==>
                          && x.round == round && x.position < n
                          && exists p :: Names(rpc, x, p) && p.id !in visited
  {
    hide Accepted, Located;
    if n == 0 {
      NoPlaces(rpc, round, visited);
      return [];
    } else {
      var i := n - 1;
      var reply := ReplyPeers(Answer(rpc, round, i));
      ReplyIs(rpc, round, i);
      var before := RoundPlaces(rpc, round, i, visited);
      var more := ReplyPlaces(rpc, round, i, reply, visited);
      AcceptedAppend(Reported(rpc, round, i), reply, visited);
      InOrder(before, more, round, i);
      LocatedAppend(rpc, Accepted(Reported(rpc, round, i), visited), before, Accepted(reply, visited), more);
      hide Names;
      places := before + more;
      forall x
        ensures x in places <==>
                && x.round == round && x.position < n && exists p :: Names(rpc, x, p) && p.id !in visited
      {
        assert x in places <==> x in before || x in more;
        if x.round == round && x.position == i {
          assert x == Place(round, i, x.entry);
          if x.entry < |reply| {
            assert Names(rpc, x, reply[x.entry]);
          }
        }
      }
    }
  }

  lemma {:induction false} NoPlaces(rpc: Rpc, round: nat, visited: set<NodeId>)
    ensures Located(rpc, Accepted(Reported(rpc, round, 0), visited), [])
  {
  }

  lemma {:induction false} InOrder(a: seq<Place>, b: seq<Place>, round: nat, i: nat)
    requires forall x :: x in a ==> x.round < round || (x.round == round && x.position < i)
    requires forall x :: x in b ==> x.round == round && x.position >= i
    ensures forall m, l :: 0 <= m < |a| && 0 <= l < |b| ==> Earlier(a[m], b[l])
  {
    forall m, l | 0 <= m < |a| && 0 <= l < |b|
      ensures Earlier(a[m], b[l])
    {
      assert a[m] in a && b[l] in b;
    }
  }

  /** The peer named at `x` is offered: it was not visited by the end of that round's contacts. */
  ghost predicate Offered(seeds: seq<Peer>, rank: Rank, rpc: Rpc, x: Place)
    requires Injective(rank)
  {
    && Asked(seeds, rank, rpc, x.round, x.position)
    && exists p :: Names(rpc, x, p) && p.id !in After(seeds, rank, rpc, x.round + 1).visited
  }

  lemma {:induction false} VisitedNext(seeds: seq<Peer>, rank: Rank, rpc: Rpc, n: nat)
    requires Injective(rank)
    ensures var w := After(seeds, rank, rpc, n);
            After(seeds, rank, rpc, n + 1).visited == w.visited + IdSet(Batch(w, rank))
  {
    hide FirstAddrs, Reported, Batch, IdSet;
  }

  lemma {:induction false} AddedPlaces(seeds: seq<Peer>, rank: Rank, rpc: Rpc, n: nat) returns (places: seq<Place>)
    requires Injective(rank)
    ensures Located(rpc, Added(seeds, rank, rpc, n), places)
    ensures forall x :: x in places <==> x.round < n && Offered(seeds, rank, rpc, x)
  {
    hide Located, Accepted, Reported, Batch, After, IdSet, Names, Asked;
    if n == 0 {
      places := [];
      NoCalls(rpc);
    } else {
      var k := n - 1;
      var w := After(seeds, rank, rpc, k);
      var visited := w.visited + IdSet(Batch(w, rank));
      var before := AddedPlaces(seeds, rank, rpc, k);
      var more := RoundPlaces(rpc, k, |Batch(w, rank)|, visited);
      VisitedNext(seeds, rank, rpc, k);
      AskedIs(seeds, rank, rpc, k);
      InOrder(before, more, k, 0);
      LocatedAppend(rpc, Added(seeds, rank, rpc, k), before,
                    Accepted(Reported(rpc, k, |Batch(w, rank)|), visited), more);
      places := before + more;
      assert forall x :: x in places <==> x in before || x in more;
    }
  }

  lemma {:induction false} NoCalls(rpc: Rpc)
    ensures Located(rpc, [], [])
  {
  }

  lemma {:induction false} AskedIs(seeds: seq<Peer>, rank: Rank, rpc: Rpc, n: nat)
    requires Injective(rank)
    ensures forall i: nat :: Asked(seeds, rank, rpc, n, i) <==> i < |Batch(After(seeds, rank, rpc, n), rank)|
  {
  }

  /** However a lookup ends, it offers to the routing table, in the order of their places, exactly the peers that
      contacted peers named before the end and that were not visited by then, each as often as it was named. */
  lemma {:induction false} CallsAreNamed(seeds: seq<Peer>, rank: Rank, rpc: Rpc, wanted: bool, ending: Ending,
                                         contacted: seq<Peer>, rounds: nat, at: nat, calls: seq<Peer>)
    returns (places: seq<Place>)
    requires Injective(rank) && Outcome(seeds, rank, rpc, wanted, ending, contacted, rounds, at, calls)
    ensures Located(rpc, calls, places)
    ensures forall x :: x in places <==>
                          && Offered(seeds, rank, rpc, x)
                          && (x.round < rounds || (!ending.Walked? && x.round == rounds && x.position < at))
  {
    var w := After(seeds, rank, rpc, rounds);
    var visited, added := w.visited + IdSet(Batch(w, rank)), Added(seeds, rank, rpc, rounds);
    if ending.Walked? {
      assert calls == added;
    } else {
      assert calls == added + Accepted(Reported(rpc, rounds, at), visited) && at < |Batch(w, rank)|;
    }
    hide *;
    VisitedNext(seeds, rank, rpc, rounds);
    AskedIs(seeds, rank, rpc, rounds);
    var before := AddedPlaces(seeds, rank, rpc, rounds);
    if ending.Walked? {
      places := before;
    } else {
      var more := RoundPlaces(rpc, rounds, at, visited);
      InOrder(before, more, rounds, 0);
      LocatedAppend(rpc, added, before, Accepted(Reported(rpc, rounds, at), visited), more);
      places := before + more;
      assert forall x :: x in places <==> x in before || x in more;
      forall x
        ensures x in more <==> x.round == rounds && x.position < at && Offered(seeds, rank, rpc, x)
      {
        OfferedIs(seeds, rank, rpc, x);
      }
    }
  }

  lemma {:induction false} OfferedIs(seeds: seq<Peer>, rank: Rank, rpc: Rpc, x: Place)
    requires Injective(rank)
    ensures Offered(seeds, rank, rpc, x) <==>
            && Asked(seeds, rank, rpc, x.round, x.position)
            && exists p :: Names(rpc, x, p) && p.id !in After(seeds, rank, rpc, x.round + 1).visited
  {
  }

  // ---------- How it ends ----------

  /** The answer at that round and position is there and is a reply with a mailbox. */
  predicate NamesMailbox(rpc: Rpc, round: nat, position: nat, addr: NodeAddr) {
    && round < |rpc| && position < |rpc[round]| && rpc[round][position].Replied?
    && rpc[round][position].mailbox == Some(addr)
  }

  /** The answer at that round and position does not come before the caller gives up. */
  predicate IsPending(rpc: Rpc, round: nat, position: nat) {
    round < |rpc| && position < |rpc[round]| && rpc[round][position].Pending?
  }

  /** That answer is not pending and, where a mailbox is wanted, names none. */
  ghost predicate GoesOn(rpc: Rpc, wanted: bool, round: nat, position: nat) {
    !IsPending(rpc, round, position) && (wanted ==> forall addr :: !NamesMailbox(rpc, round, position, addr))
  }

  lemma {:induction false} QuietMeans(seeds: seq<Peer>, rank: Rank, rpc: Rpc, wanted: bool, rounds: nat, k: nat)
    requires Injective(rank) && Quiet(seeds, rank, rpc, wanted, rounds) && k < rounds
    ensures QuietRound(rpc, wanted, k, |Batch(After(seeds, rank, rpc, k), rank)|)
  {
    hide QuietRound, After, Batch;
    if k < rounds - 1 {
      QuietMeans(seeds, rank, rpc, wanted, rounds - 1, k);
    }
  }

  /** A lookup ends with the mailbox that the answer at its last position names, is abandoned where that answer is
      pending, and otherwise has gone eight rounds or has nothing left to visit. No earlier answer of a contacted
      peer is pending, and where a mailbox is wanted none names one. */
  lemma {:induction false} EndingMeans(seeds: seq<Peer>, rank: Rank, rpc: Rpc, wanted: bool, ending: Ending,
                                       contacted: seq<Peer>, rounds: nat, at: nat, calls: seq<Peer>)
    requires Injective(rank) && Outcome(seeds, rank, rpc, wanted, ending, contacted, rounds, at, calls)
    ensures ending.Found? ==>
              wanted && Asked(seeds, rank, rpc, rounds, at) && NamesMailbox(rpc, rounds, at, ending.addr)
    ensures ending.Abandoned? ==> Asked(seeds, rank, rpc, rounds, at) && IsPending(rpc, rounds, at)
    ensures ending.Walked? ==>
              var w := After(seeds, rank, rpc, rounds);
              rounds == 8 || (rounds < 8 && forall id :: id in w.known ==> id in w.visited)
    ensures !ending.Walked? ==> rounds < 8
    ensures forall k: nat, i: nat ::
              Asked(seeds, rank, rpc, k, i) && (k < rounds || (!ending.Walked? && k == rounds && i < at))
              ==> GoesOn(rpc, wanted, k, i)
  {
    hide *;
    forall k: nat, i: nat | Asked(seeds, rank, rpc, k, i)
                            && (k < rounds || (!ending.Walked? && k == rounds && i < at))
      ensures GoesOn(rpc, wanted, k, i)
    {
      NotBefore(seeds, rank, rpc, wanted, ending, contacted, rounds, at, calls, k, i);
    }
    LastAnswer(seeds, rank, rpc, wanted, ending, contacted, rounds, at, calls);
    if ending.Walked? {
      NothingLeft(After(seeds, rank, rpc, rounds));
    }
  }

  lemma {:induction false} NotBefore(seeds: seq<Peer>, rank: Rank, rpc: Rpc, wanted: bool, ending: Ending,
                                     contacted: seq<Peer>, rounds: nat, at: nat, calls: seq<Peer>,
                                     k: nat, i: nat)
    requires Injective(rank) && Outcome(seeds, rank, rpc, wanted, ending, contacted, rounds, at, calls)
    requires Asked(seeds, rank, rpc, k, i) && (k < rounds || (!ending.Walked? && k == rounds && i < at))
    ensures GoesOn(rpc, wanted, k, i)
  {
    if k < rounds {
      QuietMeans(seeds, rank, rpc, wanted, rounds, k);
    }
    assert !Stops(Answer(rpc, k, i), wanted);
  }

  lemma {:induction false} LastAnswer(seeds: seq<Peer>, rank: Rank, rpc: Rpc, wanted: bool, ending: Ending,
                                      contacted: seq<Peer>, rounds: nat, at: nat, calls: seq<Peer>)
    requires Injective(rank) && Outcome(seeds, rank, rpc, wanted, ending, contacted, rounds, at, calls)
    ensures !ending.Walked? ==> rounds < 8 && Asked(seeds, rank, rpc, rounds, at)
    ensures ending.Found? ==> wanted && NamesMailbox(rpc, rounds, at, ending.addr)
    ensures ending.Abandoned? ==> IsPending(rpc, rounds, at)
    ensures ending.Walked? ==> rounds == 8 || (rounds < 8 && Exhausted(After(seeds, rank, rpc, rounds)))
  {
  }

  lemma {:induction false} NothingLeft(w: Journey)
    ensures Exhausted(w) ==> forall id :: id in w.known ==> id in w.visited
  {
    forall id | id in w.known && id !in w.visited
      ensures !Exhausted(w)
    {
      assert id in Frontier(w);
    }
  }

  // ---------- Numbers ----------

  /** The seeds of a walk are the up to 20 entries of the routing table nearest to the target. */
  lemma {:induction false} SeedsAreNearest(self: NodeId, t: Table, target: NodeId)
    requires TableInv(HomeOf(self), t)
    ensures var r := Closest(t, target, K_SEED);
            && |r| == (if 20 < |Entries(t)| then 20 else |Entries(t)|)
            && (forall p :: p in r ==> p in Entries(t))
            && forall p, q :: p in r && q in Entries(t) && q !in r ==> Dist(target, p.id) < Dist(target, q.id)
  {
    ClosestAreNearest(self, t, target, 20);
    hide TableInv, Closest, Entries, Dist;
  }

  /** A round contacts the up to three peers nearest to the target that are known and were not contacted before. */
  lemma {:induction false} RoundContacts(seeds: seq<Peer>, target: NodeId, rpc: Rpc, n: nat)
    requires Injective(DistTo(target))
    ensures var w, next := After(seeds, DistTo(target), rpc, n), After(seeds, DistTo(target), rpc, n + 1);
            var left := w.known.Keys - w.visited;
            && next.contacted[..|w.contacted|] == w.contacted
            && var batch := next.contacted[|w.contacted|..];
            && |batch| == (if |left| < 3 then |left| else 3)
            && (forall p :: p in batch ==> p.id in left && w.known[p.id] == p.addr)
            && (forall p, id :: p in batch && id in left && (forall q :: q in batch ==> q.id != id)
                                ==> Dist(target, p.id) < Dist(target, id))
            && (forall id :: id in w.visited <==> exists p :: p in w.contacted && p.id == id)
  {
    hide After, Batch, ByRank, FirstAddrs, Dist, Injective, DistTo;
    var rank := DistTo(target);
    var w, next := After(seeds, rank, rpc, n), After(seeds, rank, rpc, n + 1);
    var batch := Batch(w, rank);
    ContactedNext(seeds, rank, rpc, n);
    BatchMeans(w, target);
    WalkInvHolds(seeds, rank, rpc, n);
    VisitedIs(w, n);
    assert next.contacted[|w.contacted|..] == batch;
  }

  lemma {:induction false} ContactedNext(seeds: seq<Peer>, rank: Rank, rpc: Rpc, n: nat)
    requires Injective(rank)
    ensures var w := After(seeds, rank, rpc, n);
            After(seeds, rank, rpc, n + 1).contacted == w.contacted + Batch(w, rank)
  {
    hide FirstAddrs, Reported, Batch, IdSet;
  }

  lemma {:induction false} VisitedIs(w: Journey, n: nat)
    requires WalkInv(w, n)
    ensures forall id :: id in w.visited <==> exists p :: p in w.contacted && p.id == id
  {
    hide FirstAddrs;
    FirstAddrsKeys(w.contacted);
  }

  lemma {:induction false} BatchMeans(w: Journey, target: NodeId)
    requires Injective(DistTo(target))
    ensures var batch, left := Batch(w, DistTo(target)), w.known.Keys - w.visited;
            && |batch| == (if |left| < 3 then |left| else 3)
            && (forall p :: p in batch ==> p.id in left && w.known[p.id] == p.addr)
            && forall p, id :: p in batch && id in left && (forall q :: q in batch ==> q.id != id)
                               ==> Dist(target, p.id) < Dist(target, id)
  {
    var rank := DistTo(target);
    var batch, left := Batch(w, rank), w.known.Keys - w.visited;
    BatchIsNearest(w, rank);
    LeftIsFrontier(w);
    FirstAddrsKeys(batch);
    hide Batch, FirstAddrs, Dist, Injective;
    forall p, id | p in batch && id in left && (forall q :: q in batch ==> q.id != id)
      ensures Dist(target, p.id) < Dist(target, id)
    {
      assert id in Frontier(w) && id !in IdSet(batch);
    }
  }

  lemma {:induction false} LeftIsFrontier(w: Journey)
    ensures Frontier(w).Keys == w.known.Keys - w.visited && |Frontier(w)| == |w.known.Keys - w.visited|
  {
    var f := Frontier(w);
    assert f.Keys == w.known.Keys - w.visited;
    assert |f| == |f.Keys|;
  }
}
