/** The DHT database on disk, its pruning and snapshots, and the reload at start-up
    (crates/bitcord-dht/src/store.rs, crates/bitcord-dht/src/expiry.rs,
    crates/bitcord-core/src/dht/mod.rs). A stored value either decodes to a record or does not. */
module Store {
  import opened Bits
  import opened Wrappers
  import opened NodeIds
  import opened Peers
  import RoutingTable
  import opened Records
  import opened Dht
  import Expiry

  datatype Stored<T> = Readable(rec: T) | Unreadable

  type PeerTable = map<seq<Byte>, Stored<CommunityPeerRecord>>
  type InfoTable = map<seq<Byte>, Stored<PeerInfoRecord>>

  // ---------- The table as a value ----------

  /** Every record stands under the key of its own node. */
  ghost predicate WellKeyed(db: PeerTable) {
    forall k :: k in db && db[k].Readable? ==> |k| == 64 && k[32..] == db[k].rec.nodePk
  }

  ghost function DiskAt(db: PeerTable, c: Key, pk: Key): Option<CommunityPeerRecord> {
    if c + pk in db && db[c + pk].Readable? then Some(db[c + pk].rec) else None
  }

  function Put(db: PeerTable, c: Key, rec: CommunityPeerRecord): PeerTable {
    db[c + rec.nodePk := Readable(rec)]
  }

  predicate Expired(v: Stored<CommunityPeerRecord>, cutoff: nat) {
    v.Readable? && v.rec.announcedAt < cutoff
  }

  predicate InfoExpired(v: Stored<PeerInfoRecord>, cutoff: nat) {
    v.Readable? && v.rec.announcedAt < cutoff
  }

  function Prune(db: PeerTable, cutoff: nat): PeerTable {
    map k | k in db && !Expired(db[k], cutoff) :: db[k]
  }

  function PruneInfos(db: InfoTable, cutoff: nat): InfoTable {
    map k | k in db && !InfoExpired(db[k], cutoff) :: db[k]
  }

  /** Keys of different (community, node) pairs differ. */
  lemma {:induction false} KeyInjective(c: Key, pk: Key, c': Key, pk': Key)
    requires c + pk == c' + pk'
    ensures c == c' && pk == pk'
  {
    assert c == (c + pk)[..32] == (c' + pk')[..32] == c';
    assert pk == (c + pk)[32..] == (c' + pk')[32..] == pk';
  }

  lemma {:induction false} PutEffect(db: PeerTable, c: Key, rec: CommunityPeerRecord, c': Key, pk: Key)
    ensures WellKeyed(db) ==> WellKeyed(Put(db, c, rec))
    ensures DiskAt(Put(db, c, rec), c', pk) == if c' == c && pk == rec.nodePk then Some(rec) else DiskAt(db, c', pk)
  {
    if c' + pk == c + rec.nodePk {
      KeyInjective(c', pk, c, rec.nodePk);
    }
    assert (c + rec.nodePk)[32..] == rec.nodePk;
  }

  lemma {:induction false} PruneEffect(db: PeerTable, cutoff: nat, c: Key, pk: Key)
    ensures WellKeyed(db) ==> WellKeyed(Prune(db, cutoff))
    ensures var r := DiskAt(db, c, pk);
            DiskAt(Prune(db, cutoff), c, pk) == if r.Some? && r.value.announcedAt < cutoff then None else r
  {
  }

  /** In-memory lists that hold exactly the readable records of the disk. */
  ghost predicate Reloaded(lists: Lists, db: PeerTable) {
    ListsInv(lists) && forall c, pk :: RecordAt(lists, c, pk) == DiskAt(db, c, pk)
  }

  // ---------- Disk and memory agree ----------

  /** Pruning cannot be observed: restarting from the pruned disk and from the whole one give the same
      peers for every community from the time of the pruning on. */
  lemma {:induction false} PruningIsUnobservable(db: PeerTable, now: nat, lists: Lists, pruned: Lists, later: nat,
                                                 c: Key)
    requires Reloaded(lists, db) && Reloaded(pruned, Prune(db, SaturatingSub(now, COMMUNITY_PEER_TTL_SECS)))
    requires now <= later
    ensures forall r :: r in LookupPeers(pruned, c, later) <==> r in LookupPeers(lists, c, later)
  {
    var cutoff := SaturatingSub(now, COMMUNITY_PEER_TTL_SECS);
    forall r
      ensures r in LookupPeers(pruned, c, later) <==> r in LookupPeers(lists, c, later)
    {
      hide LookupPeers, RecordAt, DiskAt, ListsInv, Prune;
      LookupPeersAre(pruned, c, later, r);
      LookupPeersAre(lists, c, later, r);
      PruneEffect(db, cutoff, c, r.nodePk);
    }
  }

  /** The disk after the snapshot of some lists. */
  ghost predicate Snapshotted(db': PeerTable, db: PeerTable, lists: Lists) {
    forall c, pk :: DiskAt(db', c, pk) == (var r := RecordAt(lists, c, pk); if r.Some? then r else DiskAt(db, c, pk))
  }

  /** A restart after a snapshot restores the record of every (community, node) pair that was in memory,
      and adds nothing but records of other pairs that were on disk before. */
  lemma {:induction false} RestartAfterSnapshot(db: PeerTable, lists: Lists, db': PeerTable, restored: Lists, c: Key,
                                                pk: Key)
    requires Snapshotted(db', db, lists) && Reloaded(restored, db')
    ensures RecordAt(lists, c, pk).Some? ==> RecordAt(restored, c, pk) == RecordAt(lists, c, pk)
    ensures RecordAt(lists, c, pk).None? ==> RecordAt(restored, c, pk) == DiskAt(db, c, pk)
  {
    hide RecordAt, DiskAt;
    assert RecordAt(restored, c, pk) == DiskAt(db', c, pk);
  }

  /** Snapshot, prune, crash, restart: whoever looks a community up afterwards finds every live record
      that was in memory. */
  lemma {:induction false} NothingLiveIsLost(db: PeerTable, lists: Lists, db': PeerTable, now: nat, restored: Lists,
                                             later: nat, c: Key)
    requires ListsInv(lists) && Snapshotted(db', db, lists)
    requires Reloaded(restored, Prune(db', SaturatingSub(now, COMMUNITY_PEER_TTL_SECS))) && now <= later
    ensures forall r :: r in LookupPeers(lists, c, later) ==> r in LookupPeers(restored, c, later)
    ensures forall r :: r in LookupPeers(restored, c, later) ==>
                          r in LookupPeers(lists, c, later)
                          || (RecordAt(lists, c, r.nodePk).None? && DiskAt(db, c, r.nodePk) == Some(r))
  {
    hide LookupPeers, RecordAt, DiskAt, ListsInv, Prune;
    var cutoff := SaturatingSub(now, COMMUNITY_PEER_TTL_SECS);
    forall r
      ensures r in LookupPeers(restored, c, later) <==>
              Live(r, later) && DiskAt(db', c, r.nodePk) == Some(r)
      ensures r in LookupPeers(lists, c, later) <==> Live(r, later) && RecordAt(lists, c, r.nodePk) == Some(r)
    {
      LookupPeersAre(restored, c, later, r);
      LookupPeersAre(lists, c, later, r);
      PruneEffect(db', cutoff, c, r.nodePk);
    }
  }

  // ---------- The database object ----------

  /** Fills the 64-byte key. */
  method DhtPeerKey(c: Key, pk: Key) returns (k: array<Byte>)
    ensures fresh(k) && k[..] == c + pk
  {
    k := new Byte[64](i => 0);
    for i := 0 to 32
      invariant forall j :: 0 <= j < i ==> k[j] == c[j]
    {
      k[i] := c[i];
    }
    for i := 0 to 32
      invariant forall j :: 0 <= j < 32 ==> k[j] == c[j]
      invariant forall j :: 0 <= j < i ==> k[32 + j] == pk[j]
    {
      k[32 + i] := pk[i];
    }
    assert k[..] == c + pk;
  }

  class DhtStore {
    var peers: PeerTable
    var infos: InfoTable

    constructor ()
      ensures WellKeyed(peers) && peers == map[] && infos == map[]
    {
      peers, infos := map[], map[];
    }

    method SetCommunityPeerRecord(c: Key, rec: CommunityPeerRecord)
      modifies this`peers
      ensures peers == Put(old(peers), c, rec)
      ensures old(WellKeyed(peers)) ==> WellKeyed(peers)
    {
      var key := DhtPeerKey(c, rec.nodePk);
      PutEffect(peers, c, rec, c, rec.nodePk);
      peers := peers[key[..] := Readable(rec)];
    }

    /** Reads every record back with its community, in whatever order the table is read. Keys that are
        too short and values that do not decode are skipped. */
    method AllCommunityPeerRecords() returns (r: seq<(Key, CommunityPeerRecord)>)
      requires WellKeyed(peers)
      ensures forall c, rec :: (c, rec) in r <==> DiskAt(peers, c, rec.nodePk) == Some(rec)
    {
      r := [];
      var left := peers.Keys;
      while left != {}
        invariant left <= peers.Keys
        invariant forall c: Key, rec :: (c, rec) in r <==>
                                        DiskAt(peers, c, rec.nodePk) == Some(rec) && c + rec.nodePk !in left
        decreases left
      {
        var k :| k in left;
        ghost var before := left;
        left := left - {k};
        if |k| >= 64 && peers[k].Readable? {
          var c, rec := k[..32], peers[k].rec;
          assert k == c + rec.nodePk;
          forall c': Key, rec'
            ensures (c', rec') in r + [(c, rec)] <==>
                    DiskAt(peers, c', rec'.nodePk) == Some(rec') && c' + rec'.nodePk !in left
          {
            if c' + rec'.nodePk == k {
              KeyInjective(c', rec'.nodePk, c, rec.nodePk);
            }
          }
          r := r + [(c, rec)];
        }
      }
    }

    /** Removes every record announced before the cutoff. */
    method RemoveExpiredCommunityPeers(cutoff: nat)
      modifies this`peers
      ensures peers == Prune(old(peers), cutoff)
    {
      var expired := set k | k in peers && Expired(peers[k], cutoff);
      if expired == {} {
        assert forall k :: k in peers ==> k !in expired;
        assert peers == Prune(peers, cutoff);
        return;
      }
      ghost var whole := expired;
      while expired != {}
        invariant expired <= whole
        invariant peers == map k | k in old(peers) && !(k in whole && k !in expired) :: old(peers)[k]
        decreases expired
      {
        var k :| k in expired;
        peers := peers - {k};
        expired := expired - {k};
      }
    }

    method RemoveExpiredPeerInfos(cutoff: nat)
      modifies this`infos
      ensures infos == PruneInfos(old(infos), cutoff)
    {
      var expired := set k | k in infos && InfoExpired(infos[k], cutoff);
      infos := infos - expired;
    }
  }

  // ---------- The background tasks and the reload ----------

  ghost predicate Keeps<T>(db: map<seq<Byte>, Stored<T>>, k: seq<Byte>, v: Stored<T>) {
    k in db && db[k] == v
  }

  /** Pruning leaves exactly the values that do not decode and the records no older than an hour and a day. */
  lemma {:induction false} TickPrunes(peers: PeerTable, infos: InfoTable, now: nat)
    ensures forall k, v :: Keeps(Prune(peers, SaturatingSub(now, COMMUNITY_PEER_TTL_SECS)), k, v)
                           <==> Keeps(peers, k, v) && (v.Readable? ==> now <= v.rec.announcedAt + 3600)
    ensures forall k, v :: Keeps(PruneInfos(infos, SaturatingSub(now, PEER_INFO_TTL_SECS)), k, v)
                           <==> Keeps(infos, k, v) && (v.Readable? ==> now <= v.rec.announcedAt + 86_400)
  {
  }

  /** The ten-minute tick: memory is expired and the disk pruned with saturating cutoffs. */
  method ExpiryTick(state: DhtState, store: DhtStore, instant: nat, unix: nat, unix': nat, now: nat)
    requires state.Valid()
    modifies state`mailboxes, state`communityPeers, state`peerInfos, store`peers, store`infos
    ensures state.Valid()
    ensures state.RecordState() == Expiry.Step(old(state.RecordState()), Expiry.Expire(instant, unix, unix'))
    ensures store.peers == Prune(old(store.peers), SaturatingSub(now, COMMUNITY_PEER_TTL_SECS))
    ensures store.infos == PruneInfos(old(store.infos), SaturatingSub(now, PEER_INFO_TTL_SECS))
    ensures forall k, v :: Keeps(store.peers, k, v)
                           <==> Keeps(old(store.peers), k, v) && (v.Readable? ==> now <= v.rec.announcedAt + 3600)
    ensures forall k, v :: Keeps(store.infos, k, v)
                           <==> Keeps(old(store.infos), k, v) && (v.Readable? ==> now <= v.rec.announcedAt + 86_400)
  {
    TickPrunes(store.peers, store.infos, now);
    hide *;
    state.ExpireRecords(instant, unix, unix');
    store.RemoveExpiredCommunityPeers(SaturatingSub(now, COMMUNITY_PEER_TTL_SECS));
    store.RemoveExpiredPeerInfos(SaturatingSub(now, PEER_INFO_TTL_SECS));
  }

  /** The hourly snapshot of all community peers. */
  method Snapshot(state: DhtState, store: DhtStore)
    requires state.Valid()
    modifies store`peers
    ensures Snapshotted(store.peers, old(store.peers), state.communityPeers)
    ensures old(WellKeyed(store.peers)) ==> WellKeyed(store.peers)
  {
    var snapshot := state.communityPeers;
    var left := snapshot.Keys;
    while left != {}
      invariant left <= snapshot.Keys
      invariant old(WellKeyed(store.peers)) ==> WellKeyed(store.peers)
      invariant forall c: Key, pk :: DiskAt(store.peers, c, pk) ==
                                     (var r := if c in left then None else RecordAt(snapshot, c, pk);
                                      if r.Some? then r else DiskAt(old(store.peers), c, pk))
      decreases left
    {
      var c :| c in left;
      WriteList(store, c, snapshot[c]);
      left := left - {c};
    }
  }

  /** Writes one community's list record by record. */
  method WriteList(store: DhtStore, c: Key, list: seq<CommunityPeerRecord>)
    requires DistinctNodes(list)
    modifies store`peers
    ensures old(WellKeyed(store.peers)) ==> WellKeyed(store.peers)
    ensures forall c': Key, pk :: DiskAt(store.peers, c', pk) ==
                                  (var r := if c' == c then RecordOf(list, pk) else None;
                                   if r.Some? then r else DiskAt(old(store.peers), c', pk))
  {
    hide DiskAt, RecordOf, WellKeyed, Put;
    ghost var was := store.peers;
    NoRecords(list);
    for i := 0 to |list|
      invariant old(WellKeyed(store.peers)) ==> WellKeyed(store.peers)
      invariant forall c': Key, pk :: DiskAt(store.peers, c', pk) ==
                                      (var r := if c' == c then RecordOf(list[..i], pk) else None;
                                       if r.Some? then r else DiskAt(was, c', pk))
    {
      ghost var before := store.peers;
      store.SetCommunityPeerRecord(c, list[i]);
      forall c': Key, pk
        ensures DiskAt(store.peers, c', pk) ==
                (var r := if c' == c then RecordOf(list[..i + 1], pk) else None;
                 if r.Some? then r else DiskAt(was, c', pk))
      {
        PutEffect(before, c, list[i], c', pk);
        PrefixRecord(list, i, pk);
      }
    }
    assert list[..|list|] == list;
  }

  lemma {:induction false} NoRecords(list: seq<CommunityPeerRecord>)
    ensures forall pk :: RecordOf(list[..0], pk) == None
  {
  }

  lemma {:induction false} PrefixRecord(list: seq<CommunityPeerRecord>, i: nat, pk: Key)
    requires DistinctNodes(list) && i < |list|
    ensures RecordOf(list[..i + 1], pk) == if list[i].nodePk == pk then Some(list[i]) else RecordOf(list[..i], pk)
  {
    assert list[..i + 1] == list[..i] + [list[i]];
    hide Find;
    var j, k := Find(list[..i], pk), Find(list[..i + 1], pk);
    if j < i {
      assert list[j].nodePk == pk && list[..i + 1][j] == list[j];
    } else if list[i].nodePk == pk {
      assert list[..i + 1][i].nodePk == pk;
    }
  }

  /** The nodes of the records read from disk, in the order of reading. */
  ghost function Offered(read: seq<(Key, CommunityPeerRecord)>): seq<Peer> {
    if read == [] then []
    else
      var rec := read[|read| - 1].1;
      Offered(read[..|read| - 1]) + [Peer(rec.nodePk, rec.addr)]
  }

  lemma {:induction false} OfferedAre(read: seq<(Key, CommunityPeerRecord)>)
    ensures Offered(read) == seq(|read|, i requires 0 <= i < |read| => Peer(read[i].1.nodePk, read[i].1.addr))
  {
    if read == [] {
    } else {
      OfferedAre(read[..|read| - 1]);
    }
  }

  lemma {:induction false} OfferedNext(read: seq<(Key, CommunityPeerRecord)>, i: nat,
                                       home: RoutingTable.Home, t: RoutingTable.Table)
    requires i < |read|
    ensures var rec := read[i].1;
            RoutingTable.AddAll(home, t, Offered(read[..i + 1]))
            == RoutingTable.AddPeer(home, RoutingTable.AddAll(home, t, Offered(read[..i])), Peer(rec.nodePk, rec.addr))
  {
    hide RoutingTable.AddPeer;
    var u, p := Offered(read[..i]), Peer(read[i].1.nodePk, read[i].1.addr);
    assert read[..i + 1][..i] == read[..i];
    assert Offered(read[..i + 1]) == u + [p];
    assert (u + [p])[..|u|] == u;
  }

  lemma {:induction false} NothingOffered(home: RoutingTable.Home, read: seq<(Key, CommunityPeerRecord)>)
    ensures RoutingTable.AddAll(home, RoutingTable.EmptyTable(), Offered(read[..0])) == RoutingTable.EmptyTable()
  {
  }

  lemma {:induction false} NewState(state: DhtState, selfAddr: Option<NodeAddr>)
    requires state.RecordState() == Expiry.State(selfAddr, map[], map[], map[])
    ensures state.selfAddr == selfAddr && state.mailboxes == map[] && state.peerInfos == map[]
  {
  }

  /** Start-up: the in-memory lists are filled from the disk, and each node is offered to the routing
      table in the order of reading. */
  method Reload(nodePk: NodeId, selfAddr: Option<NodeAddr>, store: DhtStore)
    returns (state: DhtState, ghost read: seq<(Key, CommunityPeerRecord)>)
    requires WellKeyed(store.peers)
    ensures fresh(state) && fresh(state.buckets) && state.Valid()
    ensures state.nodeId == nodePk && state.selfAddr == selfAddr && state.mailboxes == map[] && state.peerInfos == map[]
    ensures state.lastDiscover == map[] && state.lastAnnounce == map[]
    ensures Reloaded(state.communityPeers, store.peers)
    ensures forall c, rec :: (c, rec) in read <==> DiskAt(store.peers, c, rec.nodePk) == Some(rec)
    ensures state.Table() == RoutingTable.AddAll(RoutingTable.HomeOf(nodePk), RoutingTable.EmptyTable(), Offered(read))
  {
    hide *;
    state := new DhtState(nodePk, selfAddr);
    var records := store.AllCommunityPeerRecords();
    read := records;
    ghost var db, done: set<(Key, Key)> := store.peers, {};
    EmptyLists(db);
    NothingOffered(RoutingTable.HomeOf(nodePk), read);
    NewState(state, selfAddr);
    for i := 0 to |records|
      invariant state.nodeId == nodePk && state.selfAddr == selfAddr && state.mailboxes == map[]
                && state.peerInfos == map[] && state.lastDiscover == map[] && state.lastAnnounce == map[]
      invariant state.Table()
                == RoutingTable.AddAll(RoutingTable.HomeOf(nodePk), RoutingTable.EmptyTable(), Offered(read[..i]))
      invariant state.Valid() && state.Wired() && fresh(state) && fresh(state.buckets)
      invariant Filled(state.communityPeers, db, done)
      invariant forall j :: 0 <= j < i ==> (records[j].0, records[j].1.nodePk) in done
    {
      var c, rec := records[i].0, records[i].1;
      assert (c, rec) in records;
      state.AddPeer(rec.nodePk, rec.addr);
      OfferedNext(read, i, RoutingTable.HomeOf(nodePk), RoutingTable.EmptyTable());
      ghost var before := state.communityPeers;
      state.AddCommunityPeerRecord(c, rec);
      FillMore(before, db, done, c, rec);
      done := done + {(c, rec.nodePk)};
    }
    assert read[..|read|] == read;
    AllFilled(state.communityPeers, db, done, records);
  }

  /** The lists hold the disk's records of the pairs in `done` and nothing else. */
  ghost predicate Filled(lists: Lists, db: PeerTable, done: set<(Key, Key)>) {
    ListsInv(lists) && forall c, pk :: RecordAt(lists, c, pk) == if (c, pk) in done then DiskAt(db, c, pk) else None
  }

  lemma {:induction false} EmptyLists(db: PeerTable)
    ensures Filled(map[], db, {})
  {
  }

  lemma {:induction false} FillMore(lists: Lists, db: PeerTable, done: set<(Key, Key)>, c: Key,
                                    rec: CommunityPeerRecord)
    requires Filled(lists, db, done) && DiskAt(db, c, rec.nodePk) == Some(rec)
    ensures Filled(AddRecord(lists, c, rec), db, done + {(c, rec.nodePk)})
  {
    hide RecordAt, DiskAt, ListsInv, AddRecord;
    var next := AddRecord(lists, c, rec);
    AddRecordEffect(lists, c, rec, c, rec.nodePk);
    forall c', pk
      ensures RecordAt(next, c', pk) == if (c', pk) in done + {(c, rec.nodePk)} then DiskAt(db, c', pk) else None
    {
      AddRecordEffect(lists, c, rec, c', pk);
    }
  }

  lemma {:induction false} AllFilled(lists: Lists, db: PeerTable, done: set<(Key, Key)>,
                                     records: seq<(Key, CommunityPeerRecord)>)
    requires WellKeyed(db) && Filled(lists, db, done)
    requires forall c, rec :: (c, rec) in records <==> DiskAt(db, c, rec.nodePk) == Some(rec)
    requires forall j :: 0 <= j < |records| ==> (records[j].0, records[j].1.nodePk) in done
    ensures Reloaded(lists, db)
  {
    hide RecordAt, DiskAt, ListsInv, WellKeyed;
    forall c, pk
      ensures RecordAt(lists, c, pk) == DiskAt(db, c, pk)
    {
      var d := DiskAt(db, c, pk);
      if d.Some? {
        DiskNode(db, c, pk);
        assert (c, d.value) in records;
      }
    }
  }

  lemma {:induction false} DiskNode(db: PeerTable, c: Key, pk: Key)
    requires WellKeyed(db) && DiskAt(db, c, pk).Some?
    ensures DiskAt(db, c, pk).value.nodePk == pk
  {
    assert (c + pk)[32..] == pk;
  }
}
