/** Community peers over many restarts (crates/bitcord-dht/src/expiry.rs, crates/bitcord-core/src/dht/mod.rs:84-98):
    announcements, additions, expiry ticks, snapshots and restarts in any order. A step is what the contract of the
    method of that name promises, so a behaviour is whatever these methods may do. */
module Restarts {
  import opened Wrappers
  import opened Peers
  import opened Records
  import opened Capping
  import opened Store

  /** What is in memory and what is on disk. */
  datatype Machine = Machine(lists: Lists, disk: PeerTable)

  datatype Step =
    | Announce(c: Key, pk: Key, addr: NodeAddr, unix: nat)
    | Add(c: Key, rec: CommunityPeerRecord)
    | Tick(unix: nat, now: nat)
    | Snapshot
    | Restart

  ghost predicate Takes(m: Machine, step: Step, m': Machine) {
    match step
    case Announce(c, pk, addr, unix) => m'.lists == AnnounceIn(m.lists, c, pk, addr, unix) && m'.disk == m.disk
    case Add(c, rec) => m'.lists == AddRecord(m.lists, c, rec) && m'.disk == m.disk
    case Tick(unix, now) =>
      && m'.lists == ExpireLists(m.lists, unix)
      && m'.disk == Prune(m.disk, SaturatingSub(now, COMMUNITY_PEER_TTL_SECS))
    case Snapshot => m'.lists == m.lists && Snapshotted(m'.disk, m.disk, m.lists)
    case Restart => Reloaded(m'.lists, m.disk) && m'.disk == m.disk
  }

  /** A node that starts with nothing and takes the given steps. */
  ghost predicate Behaviour(ms: seq<Machine>, steps: seq<Step>) {
    && |ms| == |steps| + 1 && ms[0] == Machine(map[], map[])
    && forall i :: 0 <= i < |steps| ==> Takes(ms[i], steps[i], ms[i + 1])
  }

  /** No tick reads a clock beyond `now`. */
  ghost predicate Before(steps: seq<Step>, now: nat) {
    forall i :: 0 <= i < |steps| && steps[i].Tick? ==> steps[i].unix <= now && steps[i].now <= now
  }

  lemma {:induction false} OneMoreState(ms: seq<Machine>, steps: seq<Step>)
    requires Behaviour(ms, steps)
    ensures |ms| == |steps| + 1
  {
  }

  // ---------- What the disk holds ----------

  /** Of the snapshots among the first `n` steps number `k` is the last that found node `r.nodePk` in memory, and
      it found record `r`. */
  ghost predicate SavedLast(ms: seq<Machine>, steps: seq<Step>, n: nat, k: nat, c: Key, r: CommunityPeerRecord)
    requires Behaviour(ms, steps) && n <= |steps|
  {
    && k < n && steps[k].Snapshot? && RecordAt(ms[k].lists, c, r.nodePk) == Some(r)
    && forall l :: k < l < n && steps[l].Snapshot? ==> RecordAt(ms[l].lists, c, r.nodePk).None?
  }

  ghost predicate Saved(ms: seq<Machine>, steps: seq<Step>, n: nat, c: Key, r: CommunityPeerRecord)
    requires Behaviour(ms, steps) && n <= |steps|
  {
    exists k :: 0 <= k < n && SavedLast(ms, steps, n, k, c, r)
  }

  /** One more step: a snapshot that finds the node replaces what was saved, anything else leaves it. */
  lemma {:induction false} SavedNext(ms: seq<Machine>, steps: seq<Step>, n: nat, c: Key, r: CommunityPeerRecord)
    requires Behaviour(ms, steps) && n < |steps|
    ensures Saved(ms, steps, n + 1, c, r) <==>
            if steps[n].Snapshot? && RecordAt(ms[n].lists, c, r.nodePk).Some?
            then RecordAt(ms[n].lists, c, r.nodePk) == Some(r)
            else Saved(ms, steps, n, c, r)
  {
    hide RecordAt, Takes;
    var next := n + 1;
    if steps[n].Snapshot? && RecordAt(ms[n].lists, c, r.nodePk).Some? {
      if RecordAt(ms[n].lists, c, r.nodePk) == Some(r) {
        assert SavedLast(ms, steps, next, n, c, r);
      }
      forall k | 0 <= k < n
        ensures !SavedLast(ms, steps, next, k, c, r)
      {
      }
    } else {
      forall k | 0 <= k < n
        ensures SavedLast(ms, steps, next, k, c, r) <==> SavedLast(ms, steps, n, k, c, r)
      {
      }
      assert !SavedLast(ms, steps, next, n, c, r);
    }
  }

  /** What one step does to the disk record of a pair. */
  lemma {:induction false} DiskStep(m: Machine, step: Step, m': Machine, c: Key, pk: Key)
    requires Takes(m, step, m')
    ensures var was, r := DiskAt(m.disk, c, pk), RecordAt(m.lists, c, pk);
            DiskAt(m'.disk, c, pk) ==
            match step
            case Snapshot => if r.Some? then r else was
            case Tick(_, now) =>
              if was.Some? && was.value.announcedAt < SaturatingSub(now, COMMUNITY_PEER_TTL_SECS) then None else was
            case _ => was
  {
    hide RecordAt, DiskAt, Prune, AnnounceIn, AddRecord, ExpireLists, Reloaded;
    if step.Tick? {
      PruneEffect(m.disk, SaturatingSub(step.now, COMMUNITY_PEER_TTL_SECS), c, pk);
    }
  }

  /** The disk holds nothing but what was saved last, and all of it that is still live. */
  lemma {:induction false} DiskIsSaved(ms: seq<Machine>, steps: seq<Step>, n: nat, c: Key, r: CommunityPeerRecord,
                                       now: nat)
    requires Behaviour(ms, steps) && Before(steps, now) && n <= |steps|
    ensures DiskAt(ms[n].disk, c, r.nodePk) == Some(r) ==> Saved(ms, steps, n, c, r)
    ensures Saved(ms, steps, n, c, r) && Live(r, now) ==> DiskAt(ms[n].disk, c, r.nodePk) == Some(r)
  {
    hide Saved, RecordAt, Takes;
    if n == 0 {
      NothingSaved(ms, steps, c, r);
    } else {
      DiskIsSaved(ms, steps, n - 1, c, r, now);
      SavedNext(ms, steps, n - 1, c, r);
      assert Takes(ms[n - 1], steps[n - 1], ms[n]);
      hide DiskAt, Behaviour;
      DiskStep(ms[n - 1], steps[n - 1], ms[n], c, r.nodePk);
    }
  }

  lemma {:induction false} NothingSaved(ms: seq<Machine>, steps: seq<Step>, c: Key, r: CommunityPeerRecord)
    requires Behaviour(ms, steps)
    ensures !Saved(ms, steps, 0, c, r) && DiskAt(ms[0].disk, c, r.nodePk) == None
  {
  }

  /** Which records a lookup finds after a restart, whatever announcements, additions, ticks, snapshots and earlier
      restarts came before: exactly those live records that were in memory at the last snapshot that found their
      node there. */
  lemma {:induction false} RestartFindsIff(ms: seq<Machine>, steps: seq<Step>, c: Key, r: CommunityPeerRecord, now: nat)
    requires Behaviour(ms, steps) && Before(steps, now) && steps != [] && steps[|steps| - 1].Restart?
    ensures r in LookupPeers(ms[|steps|].lists, c, now) <==> Live(r, now) && Saved(ms, steps, |steps|, c, r)
  {
    hide Saved, RecordAt, DiskAt, LookupPeers, ListsInv;
    var n := |steps|;
    assert Takes(ms[n - 1], steps[n - 1], ms[n]);
    hide Behaviour;
    LookupPeersAre(ms[n].lists, c, now, r);
    DiskIsSaved(ms, steps, n, c, r, now);
  }

  // ---------- A saved record survives ----------

  /** A step that stores a record of the pair. */
  predicate Stores(step: Step, c: Key, pk: Key) {
    (step.Announce? && step.c == c && step.pk == pk) || (step.Add? && step.c == c && step.rec.nodePk == pk)
  }

  lemma {:induction false} ListsStep(m: Machine, step: Step, m': Machine)
    requires Takes(m, step, m') && ListsInv(m.lists)
    ensures ListsInv(m'.lists)
  {
    match step
    case Announce(c, pk, addr, unix) => AnnounceInKeepsInv(m.lists, c, pk, addr, unix);
    case Add(c, rec) => AddRecordEffect(m.lists, c, rec, c, rec.nodePk);
    case Tick(unix, now) =>
      forall c | c in m.lists
        ensures DistinctNodes(LiveOnly(m.lists[c], unix))
      {
        LiveOnlyEffect(m.lists[c], unix);
      }
    case _ =>
  }

  /** Whatever else happens, memory holds an untouched pair's record, or what was on disk, or nothing. */
  lemma {:induction false} MemoryStep(m: Machine, step: Step, m': Machine, c: Key, pk: Key)
    requires Takes(m, step, m') && ListsInv(m.lists) && !Stores(step, c, pk)
    ensures var r := RecordAt(m'.lists, c, pk);
            || r == RecordAt(m.lists, c, pk)
            || (r.None? && (step.Tick? || (step.Announce? && step.c == c)))
            || (step.Restart? && r == DiskAt(m.disk, c, pk))
  {
    hide DiskAt, Prune, Snapshotted;
    match step
    case Announce(d, pk', addr, unix) => AnnounceOther(m.lists, d, pk', addr, unix, c, pk);
    case Add(d, rec) => AddRecordEffect(m.lists, d, rec, c, pk);
    case Tick(unix, now) => ExpireListsEffect(m.lists, unix, c, pk);
    case _ =>
  }

  lemma {:induction false} AnnounceOther(m: Lists, d: Key, pk': Key, addr: NodeAddr, unix: nat, c: Key, pk: Key)
    requires ListsInv(m) && !(d == c && pk' == pk)
    ensures var r := RecordAt(AnnounceIn(m, d, pk', addr, unix), c, pk);
            r == RecordAt(m, c, pk) || (d == c && r.None?)
  {
    if d == c {
      var list := ListOf(m, c);
      assert DistinctNodes(list);
      var r := RecordOf(Records.Announce(list, pk', addr, unix), pk);
      if r.Some? {
        AnnouncedWasListed(list, pk', addr, unix, r.value);
      }
    }
  }

  lemma {:induction false} AnnouncedWasListed(list: seq<CommunityPeerRecord>, pk: Key, addr: NodeAddr, now: nat,
                                              r: CommunityPeerRecord)
    requires DistinctNodes(list) && r.nodePk != pk
    requires RecordOf(Records.Announce(list, pk, addr, now), r.nodePk) == Some(r)
    ensures RecordOf(list, r.nodePk) == Some(r)
  {
    var after := Records.Announce(list, pk, addr, now);
    if RecordOf(list, pk).Some? {
      AnnounceAgain(list, pk, addr, now);
    } else {
      AnnounceNew(list, pk, addr, now);
    }
    hide Records.Announce;
    RecordOfMember(after, r);
    RecordOfMember(list, r);
    if RecordOf(list, pk).Some? {
      var i :| 0 <= i < |after| && after[i] == r;
      assert list[i] == r;
    }
  }

  /** A record that a snapshot found in memory, and that no later step replaces, is what memory and disk hold for
      that node ever after: nothing else, on disk always while it is live, and in memory again after every restart,
      whether the cap has dropped it in between or not. */
  lemma {:induction false} SnapshotSurvives(ms: seq<Machine>, steps: seq<Step>, n: nat, k: nat, c: Key,
                                            r: CommunityPeerRecord, now: nat)
    requires Behaviour(ms, steps) && Before(steps, now) && Live(r, now) && k < n <= |steps|
    requires steps[k].Snapshot? && RecordAt(ms[k].lists, c, r.nodePk) == Some(r)
    requires forall l :: k < l < n ==> !Stores(steps[l], c, r.nodePk)
    ensures ListsInv(ms[n].lists) && DiskAt(ms[n].disk, c, r.nodePk) == Some(r)
    ensures RecordAt(ms[n].lists, c, r.nodePk) == Some(r) || RecordAt(ms[n].lists, c, r.nodePk) == None
    ensures steps[n - 1].Restart? ==> r in LookupPeers(ms[n].lists, c, now)
  {
    hide RecordAt, DiskAt, LookupPeers, ListsInv, Takes;
    ListsAlways(ms, steps, n);
    ListsAlways(ms, steps, n - 1);
    assert Takes(ms[n - 1], steps[n - 1], ms[n]);
    hide Behaviour;
    DiskStep(ms[n - 1], steps[n - 1], ms[n], c, r.nodePk);
    if k == n - 1 {
      SnapshotKeepsLists(ms[k], ms[n]);
    } else {
      SnapshotSurvives(ms, steps, n - 1, k, c, r, now);
      MemoryStep(ms[n - 1], steps[n - 1], ms[n], c, r.nodePk);
      if steps[n - 1].Restart? {
        RestartEffect(ms[n - 1], ms[n], c, r, now);
      }
    }
  }

  lemma {:induction false} SnapshotKeepsLists(m: Machine, m': Machine)
    requires Takes(m, Snapshot, m')
    ensures m'.lists == m.lists
  {
  }

  lemma {:induction false} RestartEffect(m: Machine, m': Machine, c: Key, r: CommunityPeerRecord, now: nat)
    requires Takes(m, Restart, m') && DiskAt(m.disk, c, r.nodePk) == Some(r) && Live(r, now)
    ensures r in LookupPeers(m'.lists, c, now)
  {
    hide RecordAt, DiskAt, LookupPeers, ListsInv;
    LookupPeersAre(m'.lists, c, now, r);
  }

  lemma {:induction false} ListsAlways(ms: seq<Machine>, steps: seq<Step>, n: nat)
    requires Behaviour(ms, steps) && n <= |steps|
    ensures ListsInv(ms[n].lists)
  {
    hide Takes;
    if n == 0 {
    } else {
      ListsAlways(ms, steps, n - 1);
      assert Takes(ms[n - 1], steps[n - 1], ms[n]);
      ListsStep(ms[n - 1], steps[n - 1], ms[n]);
    }
  }

  // ---------- The cap does not bind a restart ----------

  /** So a list can come back longer than 20: a full list is saved, one newer node is announced and takes a place,
      the list is saved again, and after the restart all 21 nodes are found. */
  lemma {:induction false} RestartExceedsCap(ms: seq<Machine>, steps: seq<Step>, n: nat, c: Key, pk: Key,
                                             addr: NodeAddr,
                                             t: nat, now: nat)
    requires Behaviour(ms, steps) && Before(steps, now) && |steps| == n + 4
    requires steps[n..] == [Snapshot, Announce(c, pk, addr, t), Snapshot, Restart]
    requires |ListOf(ms[n].lists, c)| == 20 && RecordAt(ms[n].lists, c, pk).None?
    requires forall r :: r in ListOf(ms[n].lists, c) ==> r.announcedAt < t && Live(r, now)
    ensures |ListOf(ms[n + 3].lists, c)| == 20 && |LookupPeers(ms[n + 4].lists, c, now)| > 20
  {
    hide *;
    CapIsTwenty();
    ExceedsK(ms, steps, n, c, pk, addr, t, now);
  }

  lemma {:induction false} CapIsTwenty()
    ensures K == 20
  {
  }

  lemma {:induction false} ExceedsK(ms: seq<Machine>, steps: seq<Step>, n: nat, c: Key, pk: Key, addr: NodeAddr,
                                    t: nat, now: nat)
    requires Behaviour(ms, steps) && Before(steps, now) && |steps| == n + 4
    requires steps[n..] == [Snapshot, Announce(c, pk, addr, t), Snapshot, Restart]
    requires |ListOf(ms[n].lists, c)| == K && RecordAt(ms[n].lists, c, pk).None?
    requires forall r :: r in ListOf(ms[n].lists, c) ==> r.announcedAt < t && Live(r, now)
    ensures |ListOf(ms[n + 3].lists, c)| == K && |LookupPeers(ms[n + 4].lists, c, now)| > K
  {
    hide *;
    OneMoreState(ms, steps);
    var list, x := ListOf(ms[n].lists, c), CommunityPeerRecord(pk, addr, t);
    var after := Records.Announce(list, pk, addr, t);
    FourLists(ms, steps, n, c, pk, addr, t);
    NewestIsKept(list, pk, addr, t);
    var found := LookupPeers(ms[n + 4].lists, c, now);
    NewerIsLive(list, x, now);
    forall r | r in list
      ensures r in found && r.nodePk != pk
    {
      ListedAt(ms[n].lists, c, list, r, pk);
      SnapshotSurvives(ms, steps, n + 4, n, c, r, now);
    }
    ListedAt(ms[n + 2].lists, c, after, x, pk);
    SnapshotSurvives(ms, steps, n + 4, n + 2, c, x, now);
    CountFound(list, x, found);
  }

  lemma {:induction false} ListedAt(m: Lists, c: Key, list: seq<CommunityPeerRecord>, r: CommunityPeerRecord, pk: Key)
    requires list == ListOf(m, c) && DistinctNodes(list) && r in list
    ensures RecordAt(m, c, r.nodePk) == Some(r)
    ensures RecordAt(m, c, pk).None? ==> r.nodePk != pk
  {
    RecordOfMember(list, r);
  }

  lemma {:induction false} NewerIsLive(list: seq<CommunityPeerRecord>, x: CommunityPeerRecord, now: nat)
    requires |list| == K && forall r :: r in list ==> r.announcedAt < x.announcedAt && Live(r, now)
    ensures Live(x, now)
  {
    assert list[0] in list;
    LiveUpward(list[0], x, now);
  }

  lemma {:induction false} NewestIsKept(list: seq<CommunityPeerRecord>, pk: Key, addr: NodeAddr, t: nat)
    requires DistinctNodes(list) && RecordOf(list, pk).None? && |list| == K
    requires forall r :: r in list ==> r.announcedAt < t
    ensures var after := Records.Announce(list, pk, addr, t);
            |after| == K && DistinctNodes(after) && CommunityPeerRecord(pk, addr, t) in after
  {
    hide Records.Announce, DistinctNodes, RecordOf, AsNew;
    AnnounceNew(list, pk, addr, t);
    NoneAsNew(list, t);
    NewcomerKeptIff(list, pk, addr, t);
  }

  lemma {:induction false} FourLists(ms: seq<Machine>, steps: seq<Step>, n: nat, c: Key, pk: Key, addr: NodeAddr,
                                     t: nat)
    requires Behaviour(ms, steps) && |steps| == n + 4
    requires steps[n..] == [Snapshot, Announce(c, pk, addr, t), Snapshot, Restart]
    ensures var list := ListOf(ms[n].lists, c);
            && DistinctNodes(list) && RecordOf(list, pk) == RecordAt(ms[n].lists, c, pk)
            && ListOf(ms[n + 2].lists, c) == Records.Announce(list, pk, addr, t) == ListOf(ms[n + 3].lists, c)
    ensures steps[n].Snapshot? && steps[n + 2].Snapshot? && steps[n + 3].Restart?
    ensures forall l, k :: n < l < n + 4 && k != pk ==> !Stores(steps[l], c, k)
    ensures !Stores(steps[n + 3], c, pk)
  {
    LastFour(ms, steps, n);
    ListsAlways(ms, steps, n);
    hide Behaviour, Snapshotted, Reloaded, Records.Announce, Prune;
    assert steps[n] == Snapshot && steps[n + 1] == Announce(c, pk, addr, t) && steps[n + 2] == Snapshot;
    assert steps[n + 3] == Restart;
  }

  lemma {:induction false} CountFound(list: seq<CommunityPeerRecord>, x: CommunityPeerRecord,
                                      found: seq<CommunityPeerRecord>)
    requires DistinctNodes(list) && x in found && forall r :: r in list ==> r in found && r.nodePk != x.nodePk
    ensures |found| > |list|
  {
    hide DistinctNodes;
    SetSize(list);
    AtMostLength(found);
    assert x !in SetOf(list);
    SubsetSize(SetOf(list) + {x}, SetOf(found));
  }

  lemma {:induction false} AtMostLength(list: seq<CommunityPeerRecord>)
    ensures |SetOf(list)| <= |list|
  {
    if list == [] {
    } else {
      AtMostLength(list[1..]);
      assert list == [list[0]] + list[1..];
      assert SetOf(list) == SetOf(list[1..]) + {list[0]};
    }
  }

  lemma {:induction false} NoneAsNew(list: seq<CommunityPeerRecord>, t: nat)
    requires forall r :: r in list ==> r.announcedAt < t
    ensures AsNew(list, t) == 0
  {
    if list == [] {
    } else {
      assert list[0] in list;
      NoneAsNew(list[1..], t);
    }
  }

  lemma {:induction false} LastFour(ms: seq<Machine>, steps: seq<Step>, n: nat)
    requires Behaviour(ms, steps) && |steps| == n + 4
    ensures Takes(ms[n], steps[n..][0], ms[n + 1]) && Takes(ms[n + 1], steps[n..][1], ms[n + 2])
    ensures Takes(ms[n + 2], steps[n..][2], ms[n + 3]) && Takes(ms[n + 3], steps[n..][3], ms[n + 4])
    ensures forall i :: 0 <= i < 4 ==> steps[n + i] == steps[n..][i]
  {
    hide Takes;
    assert forall i :: 0 <= i < 4 ==> steps[n..][i] == steps[n + i];
    assert Takes(ms[n + 1], steps[n + 1], ms[n + 2]);
  }
}
