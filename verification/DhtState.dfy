/** The in-memory DHT state as the mutable object it is (crates/bitcord-dht/src/routing.rs). Every method
    computes the function of the same purpose in `RoutingTable`, `Records`, `Expiry` and `Cooldown`. */
module Dht {
  import opened Wrappers
  import opened NodeIds
  import opened Sorting
  import opened Peers
  import opened RoutingTable
  import Records
  import Expiry
  import Cooldown

  type Key = Records.Key

  class KBucket {
    var entries: seq<Peer>

    constructor ()
      ensures entries == []
    {
      entries := [];
    }

    /** Moves a known identifier to the end; otherwise appends it, dropping the oldest entry of a full
        bucket. */
    method Upsert(p: Peer)
      modifies this
      ensures entries == RoutingTable.Upsert(old(entries), p)
    {
      var pos := 0;
      while pos < |entries| && entries[pos].id != p.id
        invariant pos <= |entries|
        invariant forall j :: 0 <= j < pos ==> entries[j].id != p.id
      {
        pos := pos + 1;
      }
      assert pos == IndexOf(entries, p.id);
      if pos < |entries| {
        entries := entries[..pos] + entries[pos + 1..];
      } else if |entries| >= K {
        entries := entries[1..];
      }
      entries := entries + [p];
    }
  }

  class DhtState {
    const nodeId: NodeId
    var selfAddr: Option<NodeAddr>
    const buckets: seq<KBucket>
    var mailboxes: Records.Mailboxes
    var communityPeers: Records.Lists
    var peerInfos: Records.PeerInfos
    var lastDiscover: Cooldown.Slots
    var lastAnnounce: Cooldown.Slots

    /** The routing table as a value. */
    ghost function Table(): Table
      reads buckets
    {
      seq(|buckets|, i requires 0 <= i < |buckets| reads buckets => buckets[i].entries)
    }

    ghost function RecordState(): Expiry.State
      reads this
    {
      Expiry.State(selfAddr, mailboxes, communityPeers, peerInfos)
    }

    ghost function Slots(): Cooldown.State
      reads this
    {
      Cooldown.State(lastDiscover, lastAnnounce)
    }

    /** 256 separate buckets; this never changes. */
    ghost predicate Wired() {
      |buckets| == BUCKETS && forall i, j :: 0 <= i < j < |buckets| ==> buckets[i] != buckets[j]
    }

    ghost predicate Valid()
      reads this, buckets
    {
      && Wired()
      && TableInv(HomeOf(nodeId), Table())
      && Records.ListsInv(communityPeers)
    }

    constructor (nodePk: NodeId, addr: Option<NodeAddr>)
      ensures Valid() && Wired() && nodeId == nodePk && fresh(buckets)
      ensures Table() == EmptyTable()
      ensures RecordState() == Expiry.State(addr, map[], map[], map[])
      ensures communityPeers == map[]
      ensures lastDiscover == map[] && lastAnnounce == map[]
    {
      var table: seq<KBucket> := [];
      for i := 0 to BUCKETS
        invariant |table| == i
        invariant forall j :: 0 <= j < i ==> fresh(table[j]) && table[j].entries == []
        invariant forall j, k :: 0 <= j < k < i ==> table[j] != table[k]
      {
        var b := new KBucket();
        table := table + [b];
      }
      nodeId, selfAddr, buckets := nodePk, addr, table;
      mailboxes, communityPeers, peerInfos := map[], map[], map[];
      lastDiscover, lastAnnounce := map[], map[];
      new;
      assert Table() == EmptyTable();
    }

    // ---------- Cooldowns ----------

    method AcquireDiscoverSlot(c: Key, now: nat, cooldown: nat) returns (granted: bool)
      modifies this`lastDiscover
      ensures granted == Cooldown.Free(old(lastDiscover), c, now, cooldown)
      ensures Slots() == Cooldown.Step(old(Slots()), Cooldown.Call(Cooldown.Discover, c, now), cooldown)
      ensures lastDiscover == Cooldown.Acquire(old(lastDiscover), c, now, cooldown)
    {
      if c !in lastDiscover || Records.SaturatingSub(now, lastDiscover[c]) >= cooldown {
        lastDiscover := lastDiscover[c := now];
        granted := true;
      } else {
        granted := false;
      }
    }

    method AcquireAnnounceSlot(c: Key, now: nat, cooldown: nat) returns (granted: bool)
      modifies this`lastAnnounce
      ensures granted == Cooldown.Free(old(lastAnnounce), c, now, cooldown)
      ensures Slots() == Cooldown.Step(old(Slots()), Cooldown.Call(Cooldown.Announce, c, now), cooldown)
      ensures lastAnnounce == Cooldown.Acquire(old(lastAnnounce), c, now, cooldown)
    {
      if c !in lastAnnounce || Records.SaturatingSub(now, lastAnnounce[c]) >= cooldown {
        lastAnnounce := lastAnnounce[c := now];
        granted := true;
      } else {
        granted := false;
      }
    }

    // ---------- Routing table ----------

    method AddPeer(id: NodeId, addr: NodeAddr)
      requires Wired()
      modifies buckets
      ensures old(Valid()) ==> Valid()
      ensures Table() == RoutingTable.AddPeer(HomeOf(nodeId), old(Table()), Peer(id, addr))
    {
      hide Value, XorBytes, TableInv, Upsert;
      BucketOfRange(nodeId, id, 0);
      if id == nodeId {
        return;
      }
      var dist := Distance(nodeId, id);
      var idx := BucketIndex(dist[..]);
      if idx.Some? {
        if Valid() {
          AddPeerKeepsInv(HomeOf(nodeId), Table(), Peer(id, addr));
        }
        buckets[idx.value].Upsert(Peer(id, addr));
        assert Table() == RoutingTable.AddPeer(HomeOf(nodeId), old(Table()), Peer(id, addr));
      }
    }

    method ClosestPeers(target: NodeId, count: nat) returns (r: seq<Peer>)
      requires Valid()
      ensures r == Closest(Table(), target, count)
    {
      var candidates: seq<Peer> := [];
      for i := 0 to |buckets|
        invariant candidates == Entries(Table()[..i])
      {
        candidates := candidates + buckets[i].entries;
        EntriesSnoc(Table()[..i], Table()[i]);
        assert Table()[..i + 1] == Table()[..i] + [Table()[i]];
      }
      assert Table()[..|buckets|] == Table();
      r := Take(SortBy(candidates, PeerKey(DistTo(target))), count);
    }

    // ---------- Records ----------

    method SetSelfAddr(addr: NodeAddr)
      modifies this`selfAddr
      ensures RecordState() == Expiry.Step(old(RecordState()), Expiry.SetSelfAddr(addr))
    {
      selfAddr := Some(addr);
    }

    method AnnounceMailbox(user: Key, instant: nat)
      modifies this`mailboxes
      ensures RecordState() == Expiry.Step(old(RecordState()), Expiry.AnnounceMailbox(user, instant))
    {
      if selfAddr.Some? {
        mailboxes := mailboxes[user := Records.MailboxRecord(selfAddr.value, instant + Records.MAILBOX_TTL)];
      }
    }

    method AddMailboxRecord(user: Key, addr: NodeAddr, instant: nat)
      modifies this`mailboxes
      ensures RecordState() == Expiry.Step(old(RecordState()), Expiry.AddMailbox(user, addr, instant))
      ensures mailboxes == Expiry.SetMailbox(old(mailboxes), user, addr, instant)
      ensures old(Valid()) ==> Valid()
    {
      hide TableInv, Records.ListsInv;
      mailboxes := mailboxes[user := Records.MailboxRecord(addr, instant + Records.MAILBOX_TTL)];
    }

    method LookupMailbox(user: Key, instant: nat) returns (r: Option<NodeAddr>)
      ensures r == Expiry.LookupMailbox(mailboxes, user, instant)
    {
      if user in mailboxes && mailboxes[user].expiresAt > instant {
        return Some(mailboxes[user].addr);
      }
      return None;
    }

    method AddCommunityPeerRecord(c: Key, rec: Records.CommunityPeerRecord)
      requires Valid()
      modifies this`communityPeers
      ensures Valid()
      ensures RecordState() == Expiry.Step(old(RecordState()), Expiry.AddCommunityPeer(c, rec))
      ensures communityPeers == Records.AddRecord(old(communityPeers), c, rec)
      ensures forall d :: d != c ==> (d in communityPeers <==> d in old(communityPeers))
      ensures forall d :: d != c && d in communityPeers ==> communityPeers[d] == old(communityPeers[d])
    {
      hide Records.Find, Records.RecordAt, Records.RecordOf, Records.DistinctNodes, Records.ListsInv, Records.SetRecord,
           TableInv, HomeOf, Table;
      Records.AddRecordEffect(communityPeers, c, rec, c, rec.nodePk);
      var list := ReplaceOrPush(if c in communityPeers then communityPeers[c] else [], rec);
      communityPeers := communityPeers[c := list];
    }

    /** Replaces the record of the same node where it stands, or appends. */
    static method ReplaceOrPush(list: seq<Records.CommunityPeerRecord>, rec: Records.CommunityPeerRecord)
      returns (r: seq<Records.CommunityPeerRecord>)
      ensures r == Records.SetRecord(list, rec)
    {
      var i := Records.Find(list, rec.nodePk);
      if i < |list| {
        return list[i := rec];
      }
      return list + [rec];
    }

    method AnnounceCommunityPeer(c: Key, nodePk: Key, addr: NodeAddr, now: nat)
      requires Valid()
      modifies this`communityPeers
      ensures Valid()
      ensures RecordState() == Expiry.Step(old(RecordState()), Expiry.AnnounceCommunityPeer(c, nodePk, addr, now))
      ensures forall d :: d != c ==> (d in communityPeers <==> d in old(communityPeers))
      ensures forall d :: d != c && d in communityPeers ==> communityPeers[d] == old(communityPeers[d])
    {
      Records.AnnounceInKeepsInv(communityPeers, c, nodePk, addr, now);
      var list := if c in communityPeers then communityPeers[c] else [];
      var i := Records.Find(list, nodePk);
      if i < |list| {
        list := list[i := list[i].(addr := addr, announcedAt := now)];
      } else {
        list := list + [Records.CommunityPeerRecord(nodePk, addr, now)];
        if |list| > K {
          list := SortBy(list, Records.NewestFirst());
          list := Take(list, K);
        }
      }
      communityPeers := communityPeers[c := list];
    }

    method LookupCommunityPeers(c: Key, now: nat) returns (r: seq<Records.CommunityPeerRecord>)
      ensures r == Records.LookupPeers(communityPeers, c, now)
    {
      r := if c in communityPeers then Records.LiveOnly(communityPeers[c], now) else [];
    }

    method AnnouncePeerInfo(peerId: Key, x25519Pk: Key, addr: NodeAddr, displayName: string, now: nat)
      modifies this`peerInfos
      ensures RecordState() == Expiry.Step(old(RecordState()),
                                Expiry.AnnouncePeerInfo(peerId,
                                  Records.PeerInfoRecord(x25519Pk, addr, now, displayName)))
    {
      peerInfos := peerInfos[peerId := Records.PeerInfoRecord(x25519Pk, addr, now, displayName)];
    }

    method AddPeerInfoRecord(peerId: Key, info: Records.PeerInfoRecord)
      modifies this`peerInfos
      ensures RecordState() == Expiry.Step(old(RecordState()), Expiry.AddPeerInfo(peerId, info))
    {
      peerInfos := peerInfos[peerId := info];
    }

    /** Drops dead records from all three stores; the clocks are read once for each. */
    method ExpireRecords(instant: nat, unix: nat, unix': nat)
      requires Valid()
      modifies this`mailboxes, this`communityPeers, this`peerInfos
      ensures Valid()
      ensures RecordState() == Expiry.Step(old(RecordState()), Expiry.Expire(instant, unix, unix'))
    {
      hide TableInv, Records.LiveOnly, Records.DistinctNodes;
      mailboxes := map k | k in mailboxes && mailboxes[k].expiresAt > instant :: mailboxes[k];
      Expiry.StepKeepsListsInv(RecordState(), Expiry.Expire(instant, unix, unix'));
      ExpireCommunityPeers(unix);
      peerInfos := map k | k in peerInfos && Records.InfoLive(peerInfos[k], unix') :: peerInfos[k];
    }

    method ExpireCommunityPeers(now: nat)
      modifies this`communityPeers
      ensures communityPeers == Records.ExpireLists(old(communityPeers), now)
    {
      hide Records.LiveOnly;
      var left := communityPeers.Keys;
      while left != {}
        invariant left <= communityPeers.Keys == old(communityPeers).Keys
        invariant forall c :: c in left ==> communityPeers[c] == old(communityPeers)[c]
        invariant forall c :: c in communityPeers && c !in left ==>
                                communityPeers[c] == Records.LiveOnly(old(communityPeers)[c], now)
        decreases left
      {
        var c :| c in left;
        communityPeers := communityPeers[c := Records.LiveOnly(communityPeers[c], now)];
        left := left - {c};
      }
      communityPeers := map c | c in communityPeers && communityPeers[c] != [] :: communityPeers[c];
    }
  }

  lemma {:induction false} EntriesSnoc(t: Table, b: seq<Peer>)
    ensures Entries(t + [b]) == Entries(t) + b
  {
    if t == [] {
      assert [b][1..] == [];
    } else {
      EntriesSnoc(t[1..], b);
      assert (t + [b])[1..] == t[1..] + [b];
    }
  }
}
