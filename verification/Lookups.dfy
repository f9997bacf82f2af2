/** The three lookups of crates/bitcord-core/src/dht/kademlia.rs with their loops. */
module Lookups {
  import opened Wrappers
  import opened NodeIds
  import opened Sorting
  import opened Peers
  import opened RoutingTable
  import opened Walk
  import opened Dht
  import Records
  import Expiry

  /** Marks the batch as visited before any of it answers. */
  method MarkBatch(batch: seq<Peer>, visited: set<NodeId>, contacted: seq<Peer>)
    returns (visited': set<NodeId>, contacted': seq<Peer>)
    ensures visited' == visited + IdSet(batch)
    ensures contacted' == contacted + batch
  {
    visited', contacted' := visited, contacted;
    for i := 0 to |batch|
      invariant visited' == visited + IdSet(batch[..i])
      invariant contacted' == contacted + batch[..i]
    {
      visited' := visited' + {batch[i].id};
      contacted' := contacted' + [batch[i]];
      assert batch[..i + 1] == batch[..i] + [batch[i]];
      FirstAddrsSnoc(batch[..i], batch[i]);
    }
    assert batch[..|batch|] == batch;
  }

  lemma {:induction false} NothingAccepted(peers: seq<Peer>, visited: set<NodeId>)
    ensures Accepted(peers[..0], visited) == []
  {
  }

  lemma {:induction false} AcceptedSnoc(peers: seq<Peer>, j: nat, visited: set<NodeId>)
    requires j < |peers|
    ensures var done := Accepted(peers[..j], visited);
            Accepted(peers[..j + 1], visited) == if peers[j].id in visited then done else done + [peers[j]]
  {
    assert peers[..j + 1][..j] == peers[..j];
  }

  lemma {:induction false} AddAllSnoc(home: Home, t: Table, calls: seq<Peer>, p: Peer)
    ensures AddAll(home, t, calls + [p]) == RoutingTable.AddPeer(home, AddAll(home, t, calls), p)
  {
    assert (calls + [p])[..|calls|] == calls;
  }

  /** Adds the unvisited peers of one reply to the routing table and to the work list. */
  method TakeUp(state: DhtState, peers: seq<Peer>, visited: set<NodeId>, toVisit: seq<Peer>) returns (pushed: seq<Peer>)
    requires state.Wired()
    modifies state.buckets
    ensures pushed == toVisit + Accepted(peers, visited)
    ensures state.Table() == AddAll(HomeOf(state.nodeId), old(state.Table()), Accepted(peers, visited))
  {
    hide AddAll, Accepted, HomeOf;
    pushed := toVisit;
    NoCallsYet(HomeOf(state.nodeId), state.Table());
    NothingAccepted(peers, visited);
    for j := 0 to |peers|
      invariant pushed == toVisit + Accepted(peers[..j], visited)
      invariant state.Table() == AddAll(HomeOf(state.nodeId), old(state.Table()), Accepted(peers[..j], visited))
    {
      var p := peers[j];
      ghost var done := Accepted(peers[..j], visited);
      AcceptedSnoc(peers, j, visited);
      AddAllSnoc(HomeOf(state.nodeId), old(state.Table()), done, p);
      if p.id !in visited {
        state.AddPeer(p.id, p.addr);
        pushed := pushed + [p];
      }
    }
    assert peers[..|peers|] == peers;
  }

  lemma {:induction false} ReportStep(home: Home, t: Table, rpc: Rpc, round: nat, i: nat, visited: set<NodeId>)
    ensures var a := Accepted(Reported(rpc, round, i), visited);
            var b := Accepted(ReplyPeers(Answer(rpc, round, i)), visited);
            && Accepted(Reported(rpc, round, i + 1), visited) == a + b
            && AddAll(home, t, a + b) == AddAll(home, AddAll(home, t, a), b)
  {
    var a, b := Reported(rpc, round, i), ReplyPeers(Answer(rpc, round, i));
    AcceptedAppend(a, b, visited);
    AddAllAppend(home, t, Accepted(a, visited), Accepted(b, visited));
  }

  /** Awaits the answers of a batch in order; one that ends the walk ends it at once. */
  method AwaitReplies(state: DhtState, n: nat, visited: set<NodeId>, toVisit: seq<Peer>, rpc: Rpc, round: nat,
                      wanted: bool)
    returns (ending: Ending, pushed: seq<Peer>, i: nat)
    requires state.Wired()
    modifies state.buckets
    ensures i <= n
    ensures state.Table()
            == AddAll(HomeOf(state.nodeId), old(state.Table()), Accepted(Reported(rpc, round, i), visited))
    ensures pushed == toVisit + Accepted(Reported(rpc, round, i), visited)
    ensures QuietRound(rpc, wanted, round, i)
    ensures ending.Walked? ==> i == n
    ensures !ending.Walked?
            ==> i < n && Stops(Answer(rpc, round, i), wanted) && ending == EndingOf(Answer(rpc, round, i))
  {
    pushed, ending, i := toVisit, Walked, 0;
    ghost var home, table, accepted := HomeOf(state.nodeId), state.Table(), [];
    while i < n
      invariant i <= n && ending.Walked?
      invariant accepted == Accepted(Reported(rpc, round, i), visited)
      invariant pushed == toVisit + accepted
      invariant state.Table() == AddAll(home, table, accepted)
      invariant QuietRound(rpc, wanted, round, i)
    {
      var answer := Answer(rpc, round, i);
      if answer.Pending? {
        ending := Abandoned;
        return;
      }
      if answer.Replied? && answer.mailbox.Some? && wanted {
        ending := Found(answer.mailbox.value);
        return;
      }
      assert QuietRound(rpc, wanted, round, i + 1);
      ghost var more := Accepted(ReplyPeers(answer), visited);
      ReportStep(home, table, rpc, round, i, visited);
      pushed := TakeUp(state, ReplyPeers(answer), visited, pushed);
      Regroup(toVisit, accepted, more);
      accepted := accepted + more;
      i := i + 1;
    }
  }

  lemma {:induction false} Regroup(a: seq<Peer>, b: seq<Peer>, c: seq<Peer>)
    ensures a + b + c == a + (b + c)
  {
  }

  /** The seeds are listed by distance. */
  lemma {:induction false} SeedsAreListed(self: NodeId, table: Table, target: NodeId, rpc: Rpc)
    requires TableInv(HomeOf(self), table)
    ensures Injective(DistTo(target))
    ensures var seeds := Closest(table, target, K_SEED);
            seeds == ByRank(Frontier(After(seeds, DistTo(target), rpc, 0)), DistTo(target))
  {
    hide DistTo, TableInv, Closest, ByRank, Nearing;
    var seeds := Closest(table, target, K_SEED);
    DistToInjective(target);
    ClosestAreNearest(self, table, target, K_SEED);
    NearingIsUnique(seeds, DistTo(target));
    assert FirstAddrs(seeds) - {} == FirstAddrs(seeds);
  }

  lemma {:induction false} BatchIsPrefix(s: seq<Peer>, n: nat)
    requires n == if |s| < ALPHA then |s| else ALPHA
    ensures s[..n] == Take(s, ALPHA) && s[..n] + s[n..] == s
  {
  }

  /** Draining up to three entries of the work list takes the batch; none of them was visited before. */
  lemma {:induction false} DrainedIsBatch(w: Journey, rank: Rank, toVisit: seq<Peer>, n: nat)
    requires Injective(rank) && toVisit == ByRank(Frontier(w), rank)
    requires n == if |toVisit| < ALPHA then |toVisit| else ALPHA
    ensures Accepted(toVisit[..n], w.visited) == Batch(w, rank) == toVisit[..n]
    ensures Batch(w, rank) + toVisit[n..] == toVisit
  {
    hide ByRank, Accepted, FirstAddrs, Injective, Nearing, IdSet;
    var b := Batch(w, rank);
    BatchIsPrefix(toVisit, n);
    assert toVisit[..n] == b;
    hide Batch, Take;
    assert forall p :: p in b ==> p.id !in w.visited by {
      BatchIsNearest(w, rank);
    }
    AcceptedAll(b, w.visited);
  }

  /** One round: drains the batch, marks it, awaits it, then sorts and deduplicates the work list. */
  method OneRound(state: DhtState, rank: Rank, rpc: Rpc, round: nat, wanted: bool,
                  toVisit: seq<Peer>, visited: set<NodeId>, contacted: seq<Peer>, ghost w: Journey)
    returns (ending: Ending, toVisit': seq<Peer>, visited': set<NodeId>, contacted': seq<Peer>, i: nat, done: bool)
    requires state.Wired() && Injective(rank)
    requires toVisit == ByRank(Frontier(w), rank) && visited == w.visited && contacted == w.contacted
    modifies state.buckets
    ensures RoundDone(w, rank, rpc, wanted, round, ending, toVisit', visited', contacted', i, done)
    ensures state.Table()
            == AddAll(HomeOf(state.nodeId), old(state.Table()), Accepted(Reported(rpc, round, i), visited'))
  {
    var n := if |toVisit| < ALPHA then |toVisit| else ALPHA;
    var batch := Accepted(toVisit[..n], visited);
    DrainedIsBatch(w, rank, toVisit, n);
    EmptyBatch(w, rank);
    var rest := toVisit[n..];
    done := batch == [];
    visited', contacted' := MarkBatch(batch, visited, contacted);
    if done {
      ending, toVisit', i := Walked, rest, 0;
      return;
    }
    var pushed;
    ending, pushed, i := AwaitReplies(state, |batch|, visited', rest, rpc, round, wanted);
    WorkListRefines(w, rank, rpc, round, rest);
    toVisit' := if ending.Walked? then Dedup(SortBy(pushed, PeerKey(rank))) else pushed;
  }

  /** One round with its bookkeeping: the walk either goes on as on paper or has ended as on paper. */
  method StepWalk(state: DhtState, seeds: seq<Peer>, rank: Rank, rpc: Rpc, wanted: bool, rounds: nat,
                  toVisit: seq<Peer>, visited: set<NodeId>, contacted: seq<Peer>, ghost calls: seq<Peer>)
    returns (ended: bool, ending: Ending, toVisit': seq<Peer>, visited': set<NodeId>, contacted': seq<Peer>,
             ghost at: nat, ghost more: seq<Peer>)
    requires state.Wired() && Injective(rank) && rounds < MAX_ROUNDS
    requires Tracks(seeds, rank, rpc, wanted, rounds, toVisit, visited, contacted, calls)
    modifies state.buckets
    ensures state.Table() == AddAll(HomeOf(state.nodeId), old(state.Table()), more)
    ensures ended ==> Outcome(seeds, rank, rpc, wanted, ending, contacted', rounds, at, calls + more)
    ensures !ended ==> Tracks(seeds, rank, rpc, wanted, rounds + 1, toVisit', visited', contacted', calls + more)
  {
    ghost var w := After(seeds, rank, rpc, rounds);
    var i, done;
    ending, toVisit', visited', contacted', i, done :=
      OneRound(state, rank, rpc, rounds, wanted, toVisit, visited, contacted, w);
    at, more := i, Accepted(Reported(rpc, rounds, i), visited');
    ended := done || !ending.Walked?;
    StepIsRight(seeds, rank, rpc, wanted, rounds, toVisit, visited, contacted, calls,
                ending, toVisit', visited', contacted', calls + more, i, done);
  }

  lemma {:induction false} NoCallsYet(home: Home, t: Table)
    ensures AddAll(home, t, []) == t
  {
  }

  /** The rounds from given seeds. */
  method WalkFrom(state: DhtState, seeds: seq<Peer>, rank: Rank, rpc: Rpc, wanted: bool)
    returns (ending: Ending, contacted: seq<Peer>, rounds: nat, ghost at: nat, ghost calls: seq<Peer>)
    requires state.Wired() && Injective(rank)
    requires Tracks(seeds, rank, rpc, wanted, 0, seeds, {}, [], [])
    modifies state.buckets
    ensures Outcome(seeds, rank, rpc, wanted, ending, contacted, rounds, at, calls)
    ensures state.Table() == AddAll(HomeOf(state.nodeId), old(state.Table()), calls)
  {
    hide *;
    var toVisit, visited: set<NodeId> := seeds, {};
    NoCallsYet(HomeOf(state.nodeId), state.Table());
    contacted, ending, rounds, at, calls := [], Walked, 0, 0, [];
    while rounds < MAX_ROUNDS
      invariant rounds <= MAX_ROUNDS
      invariant Tracks(seeds, rank, rpc, wanted, rounds, toVisit, visited, contacted, calls)
      invariant state.Table() == AddAll(HomeOf(state.nodeId), old(state.Table()), calls)
    {
      var ended;
      ghost var more;
      ended, ending, toVisit, visited, contacted, at, more :=
        StepWalk(state, seeds, rank, rpc, wanted, rounds, toVisit, visited, contacted, calls);
      AddAllAppend(HomeOf(state.nodeId), old(state.Table()), calls, more);
      calls := calls + more;
      if ended {
        return;
      }
      rounds := rounds + 1;
    }
    ending := Walked;
    EndsByItself(seeds, rank, rpc, wanted, rounds, at, toVisit, visited, contacted, calls);
  }

  /** The shared `FIND_NODE` walk: it ends as on paper and makes the `add_peer` calls of the walk. */
  method FindNodes(state: DhtState, target: NodeId, rpc: Rpc, wanted: bool)
    returns (ending: Ending, contacted: seq<Peer>, rounds: nat, ghost at: nat, ghost calls: seq<Peer>)
    requires state.Valid()
    modifies state.buckets
    ensures state.Valid() && Injective(DistTo(target))
    ensures Outcome(Closest(old(state.Table()), target, K_SEED), DistTo(target), rpc, wanted,
                    ending, contacted, rounds, at, calls)
    ensures state.Table() == AddAll(HomeOf(state.nodeId), old(state.Table()), calls)
  {
    var toVisit := state.ClosestPeers(target, K_SEED);
    SeedsAreListed(state.nodeId, state.Table(), target, rpc);
    ending, contacted, rounds, at, calls := WalkFrom(state, toVisit, DistTo(target), rpc, wanted);
    AddAllKeepsInv(HomeOf(state.nodeId), old(state.Table()), calls);
  }

  /** Iterative mailbox lookup: the address comes from the first peer, in contact order, that names a
      mailbox, and is then stored for the target. */
  method KademliaLookup(state: DhtState, target: NodeId, rpc: Rpc, instant: nat)
    returns (ending: Ending, contacted: seq<Peer>, rounds: nat, ghost at: nat, ghost calls: seq<Peer>)
    requires state.Valid()
    modifies state`mailboxes, state.buckets
    ensures state.Valid() && Injective(DistTo(target))
    ensures Outcome(Closest(old(state.Table()), target, K_SEED), DistTo(target), rpc, true,
                    ending, contacted, rounds, at, calls)
    ensures state.Table() == AddAll(HomeOf(state.nodeId), old(state.Table()), calls)
    ensures state.mailboxes
            == if ending.Found? then Expiry.SetMailbox(old(state.mailboxes), target, ending.addr, instant)
                               else old(state.mailboxes)
  {
    hide *;
    ending, contacted, rounds, at, calls := FindNodes(state, target, rpc, true);
    if ending.Found? {
      state.AddMailboxRecord(target, ending.addr, instant);
    }
  }

  // ---------- Second phase ----------

  /** The nodes asked in the second phase: the 20 nearest of those contacted in the first. */
  ghost function Queried(contacted: seq<Peer>, target: NodeId): seq<Peer>
    requires Injective(DistTo(target))
  {
    Take(ByRank(FirstAddrs(contacted), DistTo(target)), K_SEED)
  }

  /** `queried` are distinct contacted nodes by increasing distance, as many as there are up to 20, and no
      other contacted node is nearer than one of them. */
  ghost predicate NearestContacted(queried: seq<Peer>, contacted: seq<Peer>, target: NodeId) {
    && |queried| == (if |contacted| < 20 then |contacted| else 20)
    && Nearing(queried, DistTo(target))
    && (forall p :: p in queried ==> p in contacted)
    && forall p, o :: p in queried && o in contacted && o !in queried ==> DistTo(target)(p.id) < DistTo(target)(o.id)
  }

  lemma {:induction false} QueriedAreNearest(contacted: seq<Peer>, target: NodeId)
    requires Injective(DistTo(target)) && DistinctIds(contacted)
    ensures NearestContacted(Queried(contacted, target), contacted, target)
  {
    hide DistTo, FirstAddrs, ByRank, Injective;
    var rank := DistTo(target);
    var m, all := FirstAddrs(contacted), ByRank(FirstAddrs(contacted), rank);
    ByRankSorted(m, rank);
    DistinctByCount(contacted);
    NearingDistinct(all, rank);
    forall p
      ensures p in all <==> p in contacted
    {
      FirstAddrsDistinct(all, p);
      FirstAddrsDistinct(contacted, p);
    }
    var q := Queried(contacted, target);
    forall p, o | p in q && o in contacted && o !in q
      ensures rank(p.id) < rank(o.id)
    {
      PrefixIsNearer(all, K_SEED, rank, p, o);
    }
  }

  /** Picks the nodes of the second phase: sort by distance, drop repeats, keep 20. */
  method PickNearest(contacted: seq<Peer>, target: NodeId) returns (queried: seq<Peer>)
    requires Injective(DistTo(target)) && DistinctIds(contacted)
    ensures queried == Queried(contacted, target)
    ensures NearestContacted(queried, contacted, target)
  {
    hide *;
    SortDedupIsByRank(contacted, DistTo(target));
    queried := Dedup(SortBy(contacted, PeerKey(DistTo(target))));
    queried := Take(queried, K_SEED);
    QueriedIs(contacted, target);
    QueriedAreNearest(contacted, target);
  }

  lemma {:induction false} QueriedIs(contacted: seq<Peer>, target: NodeId)
    requires Injective(DistTo(target))
    ensures Queried(contacted, target) == Take(ByRank(FirstAddrs(contacted), DistTo(target)), K_SEED)
  {
  }

  lemma {:induction false} NearingDistinct(s: seq<Peer>, rank: Rank)
    requires Nearing(s, rank)
    ensures DistinctIds(s)
  {
  }

  // ---------- Community peers ----------

  /** The records each queried node answers with; a node that is missing does not answer. */
  type PeerAnswers = map<Peer, seq<Records.CommunityPeerRecord>>

  function AnswerOf(answers: PeerAnswers, p: Peer): seq<Records.CommunityPeerRecord> {
    if p in answers then answers[p] else []
  }

  /** What the given nodes answer, one after the other. */
  ghost function Remote(answers: PeerAnswers, queried: seq<Peer>): seq<Records.CommunityPeerRecord> {
    if queried == [] then []
    else Remote(answers, queried[..|queried| - 1]) + AnswerOf(answers, queried[|queried| - 1])
  }

  /** Only the first record of every node. */
  ghost function KeepFirst(list: seq<Records.CommunityPeerRecord>): seq<Records.CommunityPeerRecord> {
    if list == [] then []
    else
      var kept, r := KeepFirst(list[..|list| - 1]), list[|list| - 1];
      if Records.RecordOf(kept, r.nodePk).Some? then kept else kept + [r]
  }

  lemma {:induction false} RecordOfSnoc(list: seq<Records.CommunityPeerRecord>, r: Records.CommunityPeerRecord, pk: Key)
    ensures Records.RecordOf(list + [r], pk)
         == if Records.RecordOf(list, pk).Some? then Records.RecordOf(list, pk)
            else if r.nodePk == pk then Some(r) else None
  {
    hide Records.Find;
    var i, j := Records.Find(list, pk), Records.Find(list + [r], pk);
    if i < |list| {
      assert (list + [r])[i].nodePk == pk;
    } else if r.nodePk == pk {
      assert (list + [r])[|list|].nodePk == pk;
    }
    if j < |list| {
      assert list[j].nodePk == pk;
    }
  }

  /** A merged list names every node once, and exactly the nodes of the whole list, each with the
      earliest record of that node. */
  lemma {:induction false} KeepFirstRecords(list: seq<Records.CommunityPeerRecord>, pk: Key)
    ensures Records.DistinctNodes(KeepFirst(list))
    ensures Records.RecordOf(KeepFirst(list), pk) == Records.RecordOf(list, pk)
  {
    if list == [] {
    } else {
      var u, r := list[..|list| - 1], list[|list| - 1];
      assert list == u + [r];
      KeepFirstRecords(u, pk);
      KeepFirstRecords(u, r.nodePk);
      RecordOfSnoc(u, r, pk);
      RecordOfSnoc(KeepFirst(u), r, pk);
    }
  }

  /** The earliest remote record of a node wins; a local one only fills a gap. */
  lemma {:induction false} RemoteFirst(remote: seq<Records.CommunityPeerRecord>,
                                       local: seq<Records.CommunityPeerRecord>, pk: Key)
    ensures Records.RecordOf(KeepFirst(remote + local), pk)
         == if Records.RecordOf(remote, pk).Some? then Records.RecordOf(remote, pk) else Records.RecordOf(local, pk)
  {
    KeepFirstRecords(remote + local, pk);
    hide Records.Find, KeepFirst;
    var all, i, j := remote + local, Records.Find(remote, pk), Records.Find(remote + local, pk);
    var k := Records.Find(local, pk);
    if i < |remote| {
      assert all[i].nodePk == pk;
    } else if k < |local| {
      assert all[|remote| + k].nodePk == pk;
    }
  }

  /** Pushes the records of nodes not seen before. */
  method Merge(records: seq<Records.CommunityPeerRecord>, seen: set<Key>, all: seq<Records.CommunityPeerRecord>,
               ghost before: seq<Records.CommunityPeerRecord>)
    returns (seen': set<Key>, all': seq<Records.CommunityPeerRecord>)
    requires all == KeepFirst(before) && forall k :: k in seen <==> Records.RecordOf(all, k).Some?
    ensures all' == KeepFirst(before + records)
    ensures forall k :: k in seen' <==> Records.RecordOf(all', k).Some?
  {
    hide Records.Find, Records.RecordOf;
    seen', all' := seen, all;
    assert before + records[..0] == before;
    for i := 0 to |records|
      invariant all' == KeepFirst(before + records[..i])
      invariant forall k :: k in seen' <==> Records.RecordOf(all', k).Some?
    {
      var r := records[i];
      ghost var next := before + records[..i + 1];
      assert next[..|next| - 1] == before + records[..i];
      forall k
        ensures Records.RecordOf(all' + [r], k).Some? <==> Records.RecordOf(all', k).Some? || k == r.nodePk
      {
        RecordOfSnoc(all', r, k);
      }
      if r.nodePk !in seen' {
        seen' := seen' + {r.nodePk};
        all' := all' + [r];
      }
    }
    assert records[..|records|] == records;
  }

  /** The records of a lookup: every node once, with its earliest remote record in query order, or with
      its local record if no queried node has one. */
  ghost predicate Merged(all: seq<Records.CommunityPeerRecord>, remote: seq<Records.CommunityPeerRecord>,
                         local: seq<Records.CommunityPeerRecord>) {
    && Records.DistinctNodes(all)
    && forall pk :: Records.RecordOf(all, pk)
                    == if Records.RecordOf(remote, pk).Some? then Records.RecordOf(remote, pk)
                      else Records.RecordOf(local, pk)
  }

  lemma {:induction false} KeepFirstMerges(remote: seq<Records.CommunityPeerRecord>,
                                           local: seq<Records.CommunityPeerRecord>)
    ensures Merged(KeepFirst(remote + local), remote, local)
  {
    hide KeepFirst, Records.RecordOf, Records.DistinctNodes;
    forall pk
      ensures Records.RecordOf(KeepFirst(remote + local), pk)
           == if Records.RecordOf(remote, pk).Some? then Records.RecordOf(remote, pk) else Records.RecordOf(local, pk)
    {
      RemoteFirst(remote, local, pk);
    }
    KeepFirstRecords(remote + local, seq(32, i => 0));
  }

  /** Every node in a queried node's answer or in the local records is in the list, and every record of the
      list stands in a queried node's answer or is a local one. */
  ghost predicate Collects(all: seq<Records.CommunityPeerRecord>, answers: PeerAnswers, queried: seq<Peer>,
                           local: seq<Records.CommunityPeerRecord>) {
    && (forall p, r :: p in queried && p in answers && r in answers[p] ==> HasNode(all, r.nodePk))
    && (forall r :: r in local ==> HasNode(all, r.nodePk))
    && forall r :: r in all ==> r in local || exists p :: p in queried && p in answers && r in answers[p]
  }

  ghost predicate HasNode(list: seq<Records.CommunityPeerRecord>, pk: Key) {
    exists i :: 0 <= i < |list| && list[i].nodePk == pk
  }

  lemma {:induction false} RemoteAre(answers: PeerAnswers, queried: seq<Peer>, r: Records.CommunityPeerRecord)
    ensures r in Remote(answers, queried) <==> exists p :: p in queried && p in answers && r in answers[p]
  {
    if queried == [] {
    } else {
      var n := |queried| - 1;
      RemoteAre(answers, queried[..n], r);
      assert queried == queried[..n] + [queried[n]];
    }
  }

  lemma {:induction false} KeepFirstAre(list: seq<Records.CommunityPeerRecord>, r: Records.CommunityPeerRecord)
    ensures r in list ==> HasNode(KeepFirst(list), r.nodePk)
    ensures r in KeepFirst(list) ==> r in list
  {
    KeepFirstRecords(list, r.nodePk);
    hide KeepFirst;
    if r in KeepFirst(list) {
      Records.RecordOfMember(KeepFirst(list), r);
    }
  }

  lemma {:induction false} KeepFirstCollects(answers: PeerAnswers, queried: seq<Peer>,
                                             local: seq<Records.CommunityPeerRecord>)
    ensures Collects(KeepFirst(Remote(answers, queried) + local), answers, queried, local)
  {
    hide KeepFirst, Remote, HasNode;
    var list := Remote(answers, queried) + local;
    forall r
      ensures r in list ==> HasNode(KeepFirst(list), r.nodePk)
      ensures r in KeepFirst(list) ==> r in list
      ensures r in Remote(answers, queried) <==> exists p :: p in queried && p in answers && r in answers[p]
    {
      KeepFirstAre(list, r);
      RemoteAre(answers, queried, r);
    }
  }

  /** No node before the `i`-th queried one answers about `pk`. */
  ghost predicate FirstAbout(answers: PeerAnswers, queried: seq<Peer>, i: nat, pk: Key)
    requires i < |queried|
  {
    && queried[i] in answers && HasNode(answers[queried[i]], pk)
    && forall k :: 0 <= k < i && queried[k] in answers ==> !HasNode(answers[queried[k]], pk)
  }

  lemma {:induction false} AppendFinds(a: seq<Records.CommunityPeerRecord>, b: seq<Records.CommunityPeerRecord>,
                                       pk: Key)
    ensures Records.RecordOf(a + b, pk)
         == if Records.RecordOf(a, pk).Some? then Records.RecordOf(a, pk) else Records.RecordOf(b, pk)
    ensures Records.RecordOf(a, pk).Some? <==> HasNode(a, pk)
  {
    RemoteFirst(a, b, pk);
    KeepFirstRecords(a + b, pk);
  }

  /** The record returned for a node is the one in the answer of the first queried node that has one. */
  lemma {:induction false} FirstAnswerWins(answers: PeerAnswers, queried: seq<Peer>,
                                           local: seq<Records.CommunityPeerRecord>, i: nat, pk: Key)
    requires i < |queried| && FirstAbout(answers, queried, i, pk)
    ensures var all := KeepFirst(Remote(answers, queried) + local);
            Records.RecordOf(all, pk) == Records.RecordOf(answers[queried[i]], pk)
  {
    hide KeepFirst, Records.RecordOf, HasNode;
    RemoteFirst(Remote(answers, queried), local, pk);
    FirstRemote(answers, queried, i, pk);
    AppendFinds(answers[queried[i]], [], pk);
  }

  lemma {:induction false} FirstRemote(answers: PeerAnswers, queried: seq<Peer>, i: nat, pk: Key)
    requires i < |queried| && FirstAbout(answers, queried, i, pk)
    ensures Records.RecordOf(Remote(answers, queried), pk) == Records.RecordOf(answers[queried[i]], pk)
  {
    hide Records.RecordOf, HasNode;
    var n := |queried| - 1;
    var u, last := Remote(answers, queried[..n]), AnswerOf(answers, queried[n]);
    AppendFinds(u, last, pk);
    if i < n {
      FirstRemote(answers, queried[..n], i, pk);
      AppendFinds(answers[queried[i]], [], pk);
    } else {
      NobodyKnows(answers, queried[..n], pk);
    }
  }

  lemma {:induction false} NobodyKnows(answers: PeerAnswers, queried: seq<Peer>, pk: Key)
    requires forall k :: 0 <= k < |queried| && queried[k] in answers ==> !HasNode(answers[queried[k]], pk)
    ensures Records.RecordOf(Remote(answers, queried), pk).None?
  {
    if queried == [] {
    } else {
      var n := |queried| - 1;
      NobodyKnows(answers, queried[..n], pk);
      AppendFinds(Remote(answers, queried[..n]), AnswerOf(answers, queried[n]), pk);
      AppendFinds(AnswerOf(answers, queried[n]), [], pk);
    }
  }

  /** Discovery of community peers: walk to the community's key, ask the nearest contacted nodes, merge
      their answers in query order and add unexpired local records last. Nothing comes back if the walk is
      abandoned. */
  method FindCommunityPeers(state: DhtState, c: Key, rpc: Rpc, answers: PeerAnswers, now: nat)
    returns (all: seq<Records.CommunityPeerRecord>, ending: Ending, contacted: seq<Peer>, queried: seq<Peer>,
             rounds: nat,
             ghost at: nat, ghost calls: seq<Peer>)
    requires state.Valid()
    modifies state.buckets
    ensures state.Valid() && Injective(DistTo(c)) && !ending.Found?
    ensures Outcome(Closest(old(state.Table()), c, K_SEED), DistTo(c), rpc, false, ending, contacted, rounds, at, calls)
    ensures state.Table() == AddAll(HomeOf(state.nodeId), old(state.Table()), calls)
    ensures ending.Abandoned? ==> queried == [] && all == []
    ensures ending.Walked? ==> queried == Queried(contacted, c) && NearestContacted(queried, contacted, c)
    ensures ending.Walked? ==>
              var local := Records.LookupPeers(state.communityPeers, c, now);
              && all == KeepFirst(Remote(answers, queried) + local) && Merged(all, Remote(answers, queried), local)
              && Collects(all, answers, queried, local)
  {
    hide *;
    ending, contacted, rounds, at, calls := FindNodes(state, c, rpc, false);
    OutcomeWithoutMailbox(Closest(old(state.Table()), c, K_SEED), DistTo(c), rpc, ending, contacted, rounds, at, calls);
    if ending.Abandoned? {
      return [], ending, contacted, [], rounds, at, calls;
    }
    queried := PickNearest(contacted, c);
    var cached := state.LookupCommunityPeers(c, now);
    all := MergeAnswers(answers, queried, cached);
    KeepFirstMerges(Remote(answers, queried), cached);
    KeepFirstCollects(answers, queried, cached);
  }

  lemma {:induction false} OutcomeWithoutMailbox(seeds: seq<Peer>, rank: Rank, rpc: Rpc, ending: Ending,
                                                 contacted: seq<Peer>, rounds: nat, at: nat, calls: seq<Peer>)
    requires Injective(rank) && Outcome(seeds, rank, rpc, false, ending, contacted, rounds, at, calls)
    ensures !ending.Found? && DistinctIds(contacted)
  {
    OutcomeContacts(seeds, rank, rpc, false, ending, contacted, rounds, at, calls);
  }

  /** Awaits the queried nodes in query order, then adds what is known locally. */
  method MergeAnswers(answers: PeerAnswers, queried: seq<Peer>, cached: seq<Records.CommunityPeerRecord>)
    returns (all: seq<Records.CommunityPeerRecord>)
    ensures all == KeepFirst(Remote(answers, queried) + cached)
  {
    hide Records.Find;
    var seen: set<Key> := {};
    all := [];
    for i := 0 to |queried|
      invariant all == KeepFirst(Remote(answers, queried[..i]))
      invariant forall k :: k in seen <==> Records.RecordOf(all, k).Some?
    {
      assert queried[..i + 1][..i] == queried[..i];
      seen, all := Merge(AnswerOf(answers, queried[i]), seen, all, Remote(answers, queried[..i]));
    }
    assert queried[..|queried|] == queried;
    seen, all := Merge(cached, seen, all, Remote(answers, queried));
  }

  // ---------- Peer info ----------

  /** The record each queried node has; a node that is missing has none or does not answer. */
  type InfoAnswers = map<Peer, Records.PeerInfoRecord>

  /** The `j`-th task to end asked one of the queried nodes and brings a record. */
  predicate Brings(answers: InfoAnswers, queried: seq<Peer>, arrival: seq<nat>, j: nat)
    requires j < |arrival|
  {
    arrival[j] < |queried| && queried[arrival[j]] in answers
  }

  /** `r` is the first record to arrive, or nothing if no task that ended brings one. */
  ghost predicate FirstToArrive(answers: InfoAnswers, queried: seq<Peer>, arrival: seq<nat>,
                                r: Option<Records.PeerInfoRecord>) {
    && (r.Some? ==> exists j :: 0 <= j < |arrival| && Brings(answers, queried, arrival, j)
                                && r == Some(answers[queried[arrival[j]]])
                                && forall i :: 0 <= i < j ==> !Brings(answers, queried, arrival, i))
    && (r.None? ==> forall j :: 0 <= j < |arrival| ==> !Brings(answers, queried, arrival, j))
  }

  /** When every queried node is waited for, nothing comes back exactly when none of them has a record. */
  lemma {:induction false} NothingArrivesIff(answers: InfoAnswers, queried: seq<Peer>, arrival: seq<nat>,
                                             r: Option<Records.PeerInfoRecord>)
    requires FirstToArrive(answers, queried, arrival, r) && forall i: nat :: i < |queried| ==> i in arrival
    ensures r.None? <==> forall p :: p in queried ==> p !in answers
  {
    if r.None? {
      forall p | p in queried
        ensures p !in answers
      {
        var i :| 0 <= i < |queried| && queried[i] == p;
        assert i in arrival;
        var j :| 0 <= j < |arrival| && arrival[j] == i;
        assert !Brings(answers, queried, arrival, j);
      }
    } else {
      var j :| 0 <= j < |arrival| && Brings(answers, queried, arrival, j);
      assert queried[arrival[j]] in queried;
    }
  }

  /** Peer info lookup: after the walk the nearest contacted nodes are asked all at once, and the first
      record to arrive is returned. `arrival` names the tasks in the order in which they end before the
      caller gives up. */
  method FindPeerInfo(state: DhtState, peerId: Key, rpc: Rpc, answers: InfoAnswers, arrival: seq<nat>)
    returns (r: Option<Records.PeerInfoRecord>, ending: Ending, contacted: seq<Peer>, queried: seq<Peer>, rounds: nat,
             ghost at: nat, ghost calls: seq<Peer>)
    requires state.Valid()
    modifies state.buckets
    ensures state.Valid() && Injective(DistTo(peerId)) && !ending.Found?
    ensures Outcome(Closest(old(state.Table()), peerId, K_SEED), DistTo(peerId), rpc, false, ending, contacted, rounds,
            at, calls)
    ensures state.Table() == AddAll(HomeOf(state.nodeId), old(state.Table()), calls)
    ensures ending.Abandoned? ==> queried == [] && r.None?
    ensures ending.Walked? ==> queried == Queried(contacted, peerId) && NearestContacted(queried, contacted, peerId)
    ensures ending.Walked? ==> FirstToArrive(answers, queried, arrival, r)
  {
    hide *;
    ending, contacted, rounds, at, calls := FindNodes(state, peerId, rpc, false);
    OutcomeWithoutMailbox(Closest(old(state.Table()), peerId, K_SEED), DistTo(peerId), rpc, ending, contacted, rounds,
      at, calls);
    if ending.Abandoned? {
      return None, ending, contacted, [], rounds, at, calls;
    }
    queried := PickNearest(contacted, peerId);
    r := FirstArrival(answers, queried, arrival);
  }

  method FirstArrival(answers: InfoAnswers, queried: seq<Peer>, arrival: seq<nat>)
    returns (r: Option<Records.PeerInfoRecord>)
    ensures FirstToArrive(answers, queried, arrival, r)
  {
    for j := 0 to |arrival|
      invariant forall i :: 0 <= i < j ==> !Brings(answers, queried, arrival, i)
    {
      if Brings(answers, queried, arrival, j) {
        return Some(answers[queried[arrival[j]]]);
      }
    }
    return None;
  }
}
