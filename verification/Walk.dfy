/** The iterative lookup (crates/bitcord-core/src/dht/kademlia.rs). Peers answer as they like: `rpc` gives,
    for every round and every position in its batch, what comes back. First comes the walk as it reads on
    paper, over the set of known peers; then the loops of the source, which compute it with a sorted and
    deduplicated work list. */
module Walk {
  import opened Wrappers
  import opened NodeIds
  import opened Sorting
  import opened Peers
  import opened RoutingTable

  const ALPHA: nat := 3
  const MAX_ROUNDS: nat := 8
  const K_SEED: nat := 20

  /** What a contacted peer answers: a reply, nothing, or nothing before the caller gives up. */
  datatype Response = Replied(peers: seq<Peer>, mailbox: Option<NodeAddr>) | Silent | Pending

  /** The answers, by round and position in the round's batch; what is missing is silent. */
  type Rpc = seq<seq<Response>>

  function Answer(rpc: Rpc, round: nat, i: nat): Response {
    if round < |rpc| && i < |rpc[round]| then rpc[round][i] else Silent
  }

  // ---------- The walk on paper ----------

  datatype Journey = Journey(known: map<NodeId, NodeAddr>, visited: set<NodeId>, contacted: seq<Peer>)

  ghost function IdSet(s: seq<Peer>): set<NodeId> {
    FirstAddrs(s).Keys
  }

  /** Peers known and not yet visited. */
  ghost function Frontier(w: Journey): map<NodeId, NodeAddr> {
    w.known - w.visited
  }

  /** The up to three nearest of them. */
  ghost function Batch(w: Journey, rank: Rank): seq<Peer>
    requires Injective(rank)
  {
    Take(ByRank(Frontier(w), rank), ALPHA)
  }

  /** What the first `n` peers of a round's batch report, in batch order. */
  ghost function Reported(rpc: Rpc, round: nat, n: nat): seq<Peer> {
    if n == 0 then []
    else Reported(rpc, round, n - 1) + ReplyPeers(Answer(rpc, round, n - 1))
  }

  function ReplyPeers(answer: Response): seq<Peer> {
    if answer.Replied? then answer.peers else []
  }

  /** Visit a batch and learn every reported peer that is not known yet. */
  ghost function Visit(w: Journey, batch: seq<Peer>, reported: seq<Peer>): Journey {
    Journey(FirstAddrs(reported) + w.known, w.visited + IdSet(batch), w.contacted + batch)
  }

  ghost function Round(w: Journey, rank: Rank, rpc: Rpc, round: nat): Journey
    requires Injective(rank)
  {
    Visit(w, Batch(w, rank), Reported(rpc, round, |Batch(w, rank)|))
  }

  ghost function After(seeds: seq<Peer>, rank: Rank, rpc: Rpc, rounds: nat): Journey
    requires Injective(rank)
  {
    if rounds == 0 then Journey(FirstAddrs(seeds), {}, [])
    else Round(After(seeds, rank, rpc, rounds - 1), rank, rpc, rounds - 1)
  }

  /** Everything heard of so far, in the order it was heard: the seeds, then each round's reports. */
  ghost function Heard(seeds: seq<Peer>, rank: Rank, rpc: Rpc, rounds: nat): seq<Peer>
    requires Injective(rank)
  {
    if rounds == 0 then seeds
    else
      Heard(seeds, rank, rpc, rounds - 1)
      + Reported(rpc, rounds - 1, |Batch(After(seeds, rank, rpc, rounds - 1), rank)|)
  }

  /** The peers of a report that a walk still takes up. */
  function Accepted(peers: seq<Peer>, visited: set<NodeId>): seq<Peer> {
    if peers == [] then []
    else
      var n := |peers| - 1;
      Accepted(peers[..n], visited) + (if peers[n].id in visited then [] else [peers[n]])
  }

  /** The `add_peer` calls the walk makes. */
  ghost function Added(seeds: seq<Peer>, rank: Rank, rpc: Rpc, rounds: nat): seq<Peer>
    requires Injective(rank)
  {
    if rounds == 0 then []
    else
      var w := After(seeds, rank, rpc, rounds - 1);
      Added(seeds, rank, rpc, rounds - 1)
      + Accepted(Reported(rpc, rounds - 1, |Batch(w, rank)|), w.visited + IdSet(Batch(w, rank)))
  }

  /** How a walk ends: on its own, with a mailbox, or because the caller's deadline passed. */
  datatype Ending = Walked | Found(addr: NodeAddr) | Abandoned

  /** An answer that ends the walk at once. `wanted` says whether a mailbox does. */
  predicate Stops(answer: Response, wanted: bool) {
    answer.Pending? || (answer.Replied? && answer.mailbox.Some? && wanted)
  }

  function EndingOf(answer: Response): Ending {
    if answer.Replied? && answer.mailbox.Some? then Found(answer.mailbox.value) else Abandoned
  }

  /** None of the first `n` answers of a round ends the walk. */
  ghost predicate QuietRound(rpc: Rpc, wanted: bool, round: nat, n: nat) {
    forall i: nat :: i < n ==> !Stops(Answer(rpc, round, i), wanted)
  }

  /** No answer of the first `rounds` rounds ends the walk. */
  ghost predicate Quiet(seeds: seq<Peer>, rank: Rank, rpc: Rpc, wanted: bool, rounds: nat)
    requires Injective(rank)
  {
    rounds == 0
    || (Quiet(seeds, rank, rpc, wanted, rounds - 1)
        && QuietRound(rpc, wanted, rounds - 1, |Batch(After(seeds, rank, rpc, rounds - 1), rank)|))
  }

  // ---------- What holds of every walk ----------

  lemma {:induction false} NothingVisited(seeds: seq<Peer>, rank: Rank, rpc: Rpc)
    requires Injective(rank)
    ensures After(seeds, rank, rpc, 0).known == FirstAddrs(seeds) && Heard(seeds, rank, rpc, 0) == seeds
  {
  }

  lemma {:induction false} RoundHears(seeds: seq<Peer>, rank: Rank, rpc: Rpc, rounds: nat)
    requires Injective(rank) && rounds > 0
    ensures var w := After(seeds, rank, rpc, rounds - 1);
            var more := Reported(rpc, rounds - 1, |Batch(w, rank)|);
            && After(seeds, rank, rpc, rounds).known == FirstAddrs(more) + w.known
            && Heard(seeds, rank, rpc, rounds) == Heard(seeds, rank, rpc, rounds - 1) + more
  {
    hide FirstAddrs, Reported, Batch, IdSet, Injective;
  }

  /** What is known is exactly what was heard, each identifier with the address heard first. */
  lemma {:induction false} KnownIsHeard(seeds: seq<Peer>, rank: Rank, rpc: Rpc, rounds: nat)
    requires Injective(rank)
    ensures After(seeds, rank, rpc, rounds).known == FirstAddrs(Heard(seeds, rank, rpc, rounds))
  {
    hide *;
    if rounds == 0 {
      NothingVisited(seeds, rank, rpc);
    } else {
      KnownIsHeard(seeds, rank, rpc, rounds - 1);
      var w := After(seeds, rank, rpc, rounds - 1);
      var heard, more := Heard(seeds, rank, rpc, rounds - 1), Reported(rpc, rounds - 1, |Batch(w, rank)|);
      RoundHears(seeds, rank, rpc, rounds);
      FirstAddrsAppend(heard, more);
    }
  }

  /** A batch holds the up to three nearest known unvisited peers: none left out is nearer than one
      taken, and each is taken with its known address. */
  lemma {:induction false} BatchIsNearest(w: Journey, rank: Rank)
    requires Injective(rank)
    ensures var b, f := Batch(w, rank), Frontier(w);
            && |b| == (if |f| < ALPHA then |f| else ALPHA)
            && Nearing(b, rank)
            && (forall p :: p in b ==> p.id in f && f[p.id] == p.addr)
            && forall p, id :: p in b && id in f && id !in IdSet(b) ==> rank(p.id) < rank(id)
  {
    var f, all := Frontier(w), ByRank(Frontier(w), rank);
    var b := Batch(w, rank);
    ByRankSorted(f, rank);
    forall p | p in b
      ensures p.id in f && f[p.id] == p.addr
    {
      assert p in all;
      FirstAddrsDistinct(all, p);
    }
    forall p, id | p in b && id in f && id !in IdSet(b)
      ensures rank(p.id) < rank(id)
    {
      var q := Peer(id, f[id]);
      FirstAddrsDistinct(all, q);
      FirstAddrsKeys(b);
      PrefixIsNearer(all, ALPHA, rank, p, q);
    }
  }

  ghost predicate WalkInv(w: Journey, rounds: nat) {
    && DistinctIds(w.contacted) && |w.contacted| <= ALPHA * rounds
    && w.visited == IdSet(w.contacted)
    && forall p :: p in w.contacted ==> p.id in w.known && w.known[p.id] == p.addr
  }

  lemma {:induction false} VisitKeepsInv(w: Journey, batch: seq<Peer>, reported: seq<Peer>, round: nat)
    requires WalkInv(w, round) && DistinctIds(batch) && |batch| <= ALPHA
    requires forall p :: p in batch ==> p.id in w.known && p.id !in w.visited && w.known[p.id] == p.addr
    ensures WalkInv(Visit(w, batch, reported), round + 1)
  {
    var next := Visit(w, batch, reported);
    FirstAddrsAppend(w.contacted, batch);
    FirstAddrsKeys(w.contacted);
    ConcatDistinct(w.contacted, batch);
    forall p | p in next.contacted
      ensures p.id in next.known && next.known[p.id] == p.addr
    {
      assert p in w.contacted || p in batch;
    }
  }

  lemma {:induction false} RoundKeepsInv(w: Journey, rank: Rank, rpc: Rpc, round: nat)
    requires Injective(rank) && WalkInv(w, round)
    ensures WalkInv(Round(w, rank, rpc, round), round + 1)
  {
    var b := Batch(w, rank);
    BatchIsNearest(w, rank);
    VisitKeepsInv(w, b, Reported(rpc, round, |b|), round);
  }

  /** No peer is contacted twice, at most three a round are, and always at the address heard first. */
  lemma {:induction false} WalkContacts(seeds: seq<Peer>, rank: Rank, rpc: Rpc, rounds: nat)
    requires Injective(rank)
    ensures WalkInv(After(seeds, rank, rpc, rounds), rounds)
    ensures forall p :: p in After(seeds, rank, rpc, rounds).contacted ==>
              p.id in FirstAddrs(Heard(seeds, rank, rpc, rounds))
              && FirstAddrs(Heard(seeds, rank, rpc, rounds))[p.id] == p.addr
  {
    WalkInvHolds(seeds, rank, rpc, rounds);
    KnownIsHeard(seeds, rank, rpc, rounds);
  }

  lemma {:induction false} WalkInvHolds(seeds: seq<Peer>, rank: Rank, rpc: Rpc, rounds: nat)
    requires Injective(rank)
    ensures WalkInv(After(seeds, rank, rpc, rounds), rounds)
  {
    hide WalkInv, Round, FirstAddrs;
    if rounds == 0 {
      StartInv(FirstAddrs(seeds));
    } else {
      WalkInvHolds(seeds, rank, rpc, rounds - 1);
      RoundKeepsInv(After(seeds, rank, rpc, rounds - 1), rank, rpc, rounds - 1);
    }
  }

  lemma {:induction false} StartInv(known: map<NodeId, NodeAddr>)
    ensures WalkInv(Journey(known, {}, []), 0)
  {
  }

  /** Nothing is left to visit. */
  ghost predicate Exhausted(w: Journey) {
    Frontier(w) == map[]
  }

  lemma {:induction false} EmptyBatch(w: Journey, rank: Rank)
    requires Injective(rank)
    ensures Exhausted(w) <==> Batch(w, rank) == []
  {
    ByRankSorted(Frontier(w), rank);
    assert |Frontier(w)| == 0 ==> Frontier(w) == map[];
  }

  // ---------- The work list refines the walk ----------

  lemma {:induction false} FirstAddrsSnoc(s: seq<Peer>, p: Peer)
    ensures FirstAddrs(s + [p]) == map[p.id := p.addr] + FirstAddrs(s)
  {
    FirstAddrsAppend(s, [p]);
    assert [p][1..] == [];
    assert FirstAddrs([p][1..]) == map[];
  }

  lemma {:induction false} FirstAccepted(peers: seq<Peer>, visited: set<NodeId>)
    ensures FirstAddrs(Accepted(peers, visited)) == FirstAddrs(peers) - visited
  {
    if peers == [] {
    } else {
      var u, p := peers[..|peers| - 1], peers[|peers| - 1];
      var rest := Accepted(u, visited);
      FirstAccepted(u, visited);
      assert peers == u + [p];
      assert Accepted(peers, visited) == if p.id in visited then rest else rest + [p];
      hide FirstAddrs, Accepted;
      FirstAddrsSnoc(u, p);
      FirstAddrsSnoc(rest, p);
      SnocWithout(FirstAddrs(u), p.id, p.addr, visited);
    }
  }

  lemma {:induction false} SnocWithout<X, Y>(m: map<X, Y>, x: X, y: Y, visited: set<X>)
    ensures map[x := y] + m - visited == if x in visited then m - visited else map[x := y] + (m - visited)
  {
  }

  lemma {:induction false} NoneAccepted(visited: set<NodeId>)
    ensures Accepted([], visited) == []
  {
  }

  lemma {:induction false} AcceptedLast(peers: seq<Peer>, visited: set<NodeId>)
    requires peers != []
    ensures var u, p := peers[..|peers| - 1], peers[|peers| - 1];
            Accepted(peers, visited) == Accepted(u, visited) + (if p.id in visited then [] else [p])
  {
  }

  lemma {:induction false} AcceptedAll(peers: seq<Peer>, visited: set<NodeId>)
    requires forall p :: p in peers ==> p.id !in visited
    ensures Accepted(peers, visited) == peers
  {
    hide Accepted;
    if peers == [] {
      NoneAccepted(visited);
    } else {
      var u, p := peers[..|peers| - 1], peers[|peers| - 1];
      assert p in peers && forall q :: q in u ==> q in peers;
      AcceptedAll(u, visited);
      AcceptedLast(peers, visited);
      assert peers == u + [p];
    }
  }

  lemma {:induction false} AcceptedAppend(a: seq<Peer>, b: seq<Peer>, visited: set<NodeId>)
    ensures Accepted(a + b, visited) == Accepted(a, visited) + Accepted(b, visited)
  {
    if b == [] {
      assert a + b == a;
    } else {
      var n := |b| - 1;
      AcceptedAppend(a, b[..n], visited);
      assert (a + b)[..|a + b| - 1] == a + b[..n];
    }
  }

  /** Splitting a sorted list splits the set it lists. */
  lemma {:induction false} SplitListing(b: seq<Peer>, rest: seq<Peer>)
    requires DistinctIds(b + rest)
    ensures FirstAddrs(rest) == FirstAddrs(b + rest) - IdSet(b)
  {
    FirstAddrsAppend(b, rest);
    FirstAddrsKeys(b);
    FirstAddrsKeys(rest);
    forall id | id in FirstAddrs(b)
      ensures id !in FirstAddrs(rest)
    {
      var all := b + rest;
      var i :| 0 <= i < |b| && b[i] == Peer(id, FirstAddrs(b)[id]);
      assert all[i].id == id;
      assert forall j :: 0 <= j < |rest| ==> rest[j] == all[|b| + j];
    }
  }

  lemma {:induction false} MergeMaps<X, Y>(reported: map<X, Y>, known: map<X, Y>, visited: set<X>, batch: set<X>)
    ensures (reported - (visited + batch)) + (known - visited - batch) == (reported + known) - (visited + batch)
  {
  }

  /** Draining the batch, pushing the accepted reports, sorting and deduplicating gives the list of the
      next round's frontier. */
  lemma {:induction false} WorkListRefines(w: Journey, rank: Rank, rpc: Rpc, round: nat, rest: seq<Peer>)
    requires Injective(rank) && Batch(w, rank) + rest == ByRank(Frontier(w), rank)
    ensures var next := Round(w, rank, rpc, round);
            var accepted := Accepted(Reported(rpc, round, |Batch(w, rank)|), next.visited);
            Dedup(SortBy(rest + accepted, PeerKey(rank))) == ByRank(Frontier(next), rank)
  {
    var b := Batch(w, rank);
    ByRankSorted(Frontier(w), rank);
    VisitRefines(w, rank, b, rest, Reported(rpc, round, |b|));
  }

  lemma {:induction false} VisitRefines(w: Journey, rank: Rank, batch: seq<Peer>, rest: seq<Peer>, reported: seq<Peer>)
    requires Injective(rank) && Nearing(batch + rest, rank) && FirstAddrs(batch + rest) == Frontier(w)
    ensures var next := Visit(w, batch, reported);
            Dedup(SortBy(rest + Accepted(reported, next.visited), PeerKey(rank))) == ByRank(Frontier(next), rank)
  {
    var visited := w.visited + IdSet(batch);
    var accepted := Accepted(reported, visited);
    SplitListing(batch, rest);
    FirstAccepted(reported, visited);
    FirstAddrsAppend(rest, accepted);
    MergeMaps(FirstAddrs(reported), w.known, w.visited, IdSet(batch));
    SortDedupIsByRank(rest + accepted, rank);
  }

  // ---------- Loop variables and outcome ----------

  /** The end of a walk. It stops after `rounds` rounds: all eight, or fewer when nothing is left to visit,
      or when the answer at position `at` of the next batch is the first to end it. */
  ghost predicate Outcome(seeds: seq<Peer>, rank: Rank, rpc: Rpc, wanted: bool, ending: Ending,
                          contacted: seq<Peer>, rounds: nat, at: nat, calls: seq<Peer>)
    requires Injective(rank)
  {
    var w := After(seeds, rank, rpc, rounds);
    var batch := Batch(w, rank);
    && rounds <= MAX_ROUNDS
    && Quiet(seeds, rank, rpc, wanted, rounds)
    && (ending.Walked? ==>
          && (rounds == MAX_ROUNDS || Exhausted(w))
          && contacted == w.contacted
          && calls == Added(seeds, rank, rpc, rounds))
    && (!ending.Walked? ==>
          && rounds < MAX_ROUNDS && at < |batch|
          && QuietRound(rpc, wanted, rounds, at)
          && Stops(Answer(rpc, rounds, at), wanted) && ending == EndingOf(Answer(rpc, rounds, at))
          && contacted == w.contacted + batch
          && calls == Added(seeds, rank, rpc, rounds) + Accepted(Reported(rpc, rounds, at), w.visited + IdSet(batch)))
  }

  /** The loop's variables at the start of a round. */
  ghost predicate Tracks(seeds: seq<Peer>, rank: Rank, rpc: Rpc, wanted: bool, round: nat,
                         toVisit: seq<Peer>, visited: set<NodeId>, contacted: seq<Peer>, calls: seq<Peer>)
    requires Injective(rank)
  {
    var w := After(seeds, rank, rpc, round);
    && toVisit == ByRank(Frontier(w), rank) && visited == w.visited && contacted == w.contacted
    && calls == Added(seeds, rank, rpc, round)
    && Quiet(seeds, rank, rpc, wanted, round)
  }

  /** The next round starts as on paper. */
  lemma {:induction false} TracksNext(seeds: seq<Peer>, rank: Rank, rpc: Rpc, wanted: bool, round: nat,
                                      toVisit: seq<Peer>, visited: set<NodeId>, contacted: seq<Peer>, calls: seq<Peer>,
                                      toVisit': seq<Peer>, visited': set<NodeId>, contacted': seq<Peer>,
                                      calls': seq<Peer>,
                                      n: nat)
    requires Injective(rank) && Tracks(seeds, rank, rpc, wanted, round, toVisit, visited, contacted, calls)
    requires var w := After(seeds, rank, rpc, round);
             && n == |Batch(w, rank)|
             && contacted' == w.contacted + Batch(w, rank)
             && visited' == w.visited + IdSet(Batch(w, rank))
             && QuietRound(rpc, wanted, round, n)
             && toVisit' == ByRank(Frontier(Round(w, rank, rpc, round)), rank)
             && calls' == calls + Accepted(Reported(rpc, round, n), visited')
    ensures Tracks(seeds, rank, rpc, wanted, round + 1, toVisit', visited', contacted', calls')
  {
  }

  lemma {:induction false} EndsByItself(seeds: seq<Peer>, rank: Rank, rpc: Rpc, wanted: bool, rounds: nat, at: nat,
                                        toVisit: seq<Peer>, visited: set<NodeId>, contacted: seq<Peer>,
                                        calls: seq<Peer>)
    requires Injective(rank) && Tracks(seeds, rank, rpc, wanted, rounds, toVisit, visited, contacted, calls)
    requires rounds == MAX_ROUNDS || (rounds < MAX_ROUNDS && Exhausted(After(seeds, rank, rpc, rounds)))
    ensures Outcome(seeds, rank, rpc, wanted, Walked, contacted, rounds, at, calls)
  {
  }

  lemma {:induction false} EndsEarly(seeds: seq<Peer>, rank: Rank, rpc: Rpc, wanted: bool, rounds: nat, at: nat,
                                     toVisit: seq<Peer>, visited: set<NodeId>, contacted: seq<Peer>, calls: seq<Peer>)
    requires Injective(rank) && Tracks(seeds, rank, rpc, wanted, rounds, toVisit, visited, contacted, calls)
    requires rounds < MAX_ROUNDS && at < |Batch(After(seeds, rank, rpc, rounds), rank)|
    requires QuietRound(rpc, wanted, rounds, at) && Stops(Answer(rpc, rounds, at), wanted)
    ensures var w := After(seeds, rank, rpc, rounds);
            Outcome(seeds, rank, rpc, wanted, EndingOf(Answer(rpc, rounds, at)), w.contacted + Batch(w, rank), rounds,
              at,
                    calls + Accepted(Reported(rpc, rounds, at), w.visited + IdSet(Batch(w, rank))))
  {
  }

  /** What a round of the loop leaves: `i` answers of the batch were handled. */
  ghost predicate RoundDone(w: Journey, rank: Rank, rpc: Rpc, wanted: bool, round: nat, ending: Ending,
                            toVisit': seq<Peer>, visited': set<NodeId>, contacted': seq<Peer>, i: nat, done: bool)
    requires Injective(rank)
  {
    var batch := Batch(w, rank);
    && (done <==> Exhausted(w))
    && visited' == w.visited + IdSet(batch) && contacted' == w.contacted + batch
    && i <= |batch| && QuietRound(rpc, wanted, round, i)
    && (ending.Walked? ==> i == |batch|)
    && (ending.Walked? && !done ==> toVisit' == ByRank(Frontier(Round(w, rank, rpc, round)), rank))
    && (!ending.Walked? ==> i < |batch| && !done)
    && (!ending.Walked? ==> Stops(Answer(rpc, round, i), wanted) && ending == EndingOf(Answer(rpc, round, i)))
  }

  /** Such a round leaves the walk going on as on paper or ended as on paper. */
  lemma {:induction false} StepIsRight(seeds: seq<Peer>, rank: Rank, rpc: Rpc, wanted: bool, rounds: nat,
                                       toVisit: seq<Peer>, visited: set<NodeId>, contacted: seq<Peer>, calls: seq<Peer>,
                                       ending: Ending, toVisit': seq<Peer>, visited': set<NodeId>,
                                       contacted': seq<Peer>,
                                       calls': seq<Peer>, i: nat, done: bool)
    requires Injective(rank) && Tracks(seeds, rank, rpc, wanted, rounds, toVisit, visited, contacted, calls)
    requires rounds < MAX_ROUNDS && calls' == calls + Accepted(Reported(rpc, rounds, i), visited')
    requires RoundDone(After(seeds, rank, rpc, rounds), rank, rpc, wanted, rounds, ending, toVisit', visited',
             contacted', i, done)
    ensures done || !ending.Walked? ==> Outcome(seeds, rank, rpc, wanted, ending, contacted', rounds, i, calls')
    ensures !done && ending.Walked?
            ==> Tracks(seeds, rank, rpc, wanted, rounds + 1, toVisit', visited', contacted', calls')
  {
    var w := After(seeds, rank, rpc, rounds);
    if done {
      EmptyBatch(w, rank);
      assert contacted' == contacted && calls' == calls;
      EndsByItself(seeds, rank, rpc, wanted, rounds, i, toVisit, visited, contacted, calls);
    } else if ending.Walked? {
      TracksNext(seeds, rank, rpc, wanted, rounds, toVisit, visited, contacted, calls,
                 toVisit', visited', contacted', calls', i);
    } else {
      EndsEarly(seeds, rank, rpc, wanted, rounds, i, toVisit, visited, contacted, calls);
    }
  }

  /** However a walk ends, it has contacted at most 24 peers, none of them twice, each at the address
      heard first. When it ended by itself before the eighth round, everything heard of was contacted. */
  lemma {:induction false} OutcomeContacts(seeds: seq<Peer>, rank: Rank, rpc: Rpc, wanted: bool, ending: Ending,
                                           contacted: seq<Peer>, rounds: nat, at: nat, calls: seq<Peer>)
    requires Injective(rank) && Outcome(seeds, rank, rpc, wanted, ending, contacted, rounds, at, calls)
    ensures DistinctIds(contacted) && |contacted| <= 24
    ensures var heard := FirstAddrs(Heard(seeds, rank, rpc, if ending.Walked? then rounds else rounds + 1));
            && (forall p :: p in contacted ==> p.id in heard && heard[p.id] == p.addr)
            && (ending.Walked? && rounds != 8 ==> forall id :: id in heard ==> Peer(id, heard[id]) in contacted)
  {
    var k := if ending.Walked? then rounds else rounds + 1;
    WalkContacts(seeds, rank, rpc, k);
    var w := After(seeds, rank, rpc, k);
    assert contacted == w.contacted;
    KnownIsHeard(seeds, rank, rpc, k);
    if ending.Walked? && rounds < MAX_ROUNDS {
      AllContacted(w, k);
    }
  }

  lemma {:induction false} AllContacted(w: Journey, rounds: nat)
    requires WalkInv(w, rounds) && Exhausted(w)
    ensures forall id :: id in w.known ==> Peer(id, w.known[id]) in w.contacted
  {
    hide FirstAddrs;
    forall id | id in w.known
      ensures Peer(id, w.known[id]) in w.contacted
    {
      assert id !in Frontier(w);
      FirstAddrsDistinct(w.contacted, Peer(id, FirstAddrs(w.contacted)[id]));
    }
  }
}
