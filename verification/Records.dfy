/** The three record stores of the DHT state as values (crates/bitcord-dht/src/routing.rs): mailbox,
    community peer and peer info records, their announcements, lookups and expiry. `Instant` and Unix
    time are natural numbers handed in by the caller. */
module Records {
  import opened Wrappers
  import opened NodeIds
  import opened Sorting
  import opened Peers
  import RoutingTable

  type Key = NodeId

  /** 24 hours in nanoseconds, the unit of an `Instant`. */
  const MAILBOX_TTL: nat := 86_400 * 1_000_000_000
  /** One hour in seconds, the unit of Unix time. */
  const COMMUNITY_PEER_TTL_SECS: nat := 3600
  /** 24 hours in seconds. */
  const PEER_INFO_TTL_SECS: nat := 86_400
  const K: nat := RoutingTable.K

  datatype MailboxRecord = MailboxRecord(addr: NodeAddr, expiresAt: nat)

  datatype CommunityPeerRecord = CommunityPeerRecord(nodePk: Key, addr: NodeAddr, announcedAt: nat)

  datatype PeerInfoRecord =
    PeerInfoRecord(x25519Pk: Key, addr: NodeAddr, announcedAt: nat, displayName: string)

  type Mailboxes = map<Key, MailboxRecord>
  type Lists = map<Key, seq<CommunityPeerRecord>>
  type PeerInfos = map<Key, PeerInfoRecord>

  function SaturatingSub(a: nat, b: nat): nat {
    if a >= b then a - b else 0
  }

  predicate Live(r: CommunityPeerRecord, now: nat) {
    SaturatingSub(now, r.announcedAt) < COMMUNITY_PEER_TTL_SECS
  }

  predicate InfoLive(r: PeerInfoRecord, now: nat) {
    SaturatingSub(now, r.announcedAt) < PEER_INFO_TTL_SECS
  }

  // ---------- One community's list ----------

  /** The position of a node's record, or the length of the list. */
  function Find(list: seq<CommunityPeerRecord>, pk: Key): (i: nat)
    ensures i <= |list|
    ensures i < |list| ==> list[i].nodePk == pk
    ensures forall j :: 0 <= j < i ==> list[j].nodePk != pk
  {
    if list == [] || list[0].nodePk == pk then 0 else 1 + Find(list[1..], pk)
  }

  function SetRecord(list: seq<CommunityPeerRecord>, rec: CommunityPeerRecord): seq<CommunityPeerRecord> {
    var i := Find(list, rec.nodePk);
    if i < |list| then list[i := rec] else list + [rec]
  }

  function NewestFirst(): CommunityPeerRecord -> int {
    (r: CommunityPeerRecord) => -(r.announcedAt as int)
  }

  function Announce(list: seq<CommunityPeerRecord>, pk: Key, addr: NodeAddr, now: nat): seq<CommunityPeerRecord> {
    var i := Find(list, pk);
    if i < |list| then list[i := list[i].(addr := addr, announcedAt := now)]
    else
      var longer := list + [CommunityPeerRecord(pk, addr, now)];
      if |longer| > K then Take(SortBy(longer, NewestFirst()), K) else longer
  }

  function LiveOnly(list: seq<CommunityPeerRecord>, now: nat): seq<CommunityPeerRecord> {
    if list == [] then []
    else (if Live(list[0], now) then [list[0]] else []) + LiveOnly(list[1..], now)
  }

  ghost predicate DistinctNodes(list: seq<CommunityPeerRecord>) {
    forall i, j :: 0 <= i < j < |list| ==> list[i].nodePk != list[j].nodePk
  }

  ghost function RecordOf(list: seq<CommunityPeerRecord>, pk: Key): Option<CommunityPeerRecord> {
    var i := Find(list, pk);
    if i < |list| then Some(list[i]) else None
  }

  lemma {:induction false} RecordOfMember(list: seq<CommunityPeerRecord>, r: CommunityPeerRecord)
    requires DistinctNodes(list)
    ensures r in list <==> RecordOf(list, r.nodePk) == Some(r)
  {
    if r in list {
      var i :| 0 <= i < |list| && list[i] == r;
      var j := Find(list, r.nodePk);
      assert j == i;
    }
  }

  /** Storing a record replaces that node's record and leaves every other one alone. */
  lemma {:induction false} SetRecordEffect(list: seq<CommunityPeerRecord>, rec: CommunityPeerRecord, pk: Key)
    requires DistinctNodes(list)
    ensures DistinctNodes(SetRecord(list, rec))
    ensures RecordOf(SetRecord(list, rec), pk) == if pk == rec.nodePk then Some(rec) else RecordOf(list, pk)
  {
    var i := Find(list, rec.nodePk);
    var after := SetRecord(list, rec);
    assert after[i] == rec;
    var j := Find(list, pk);
    if pk == rec.nodePk {
      assert Find(after, pk) == i;
    } else if j < |list| {
      assert after[j] == list[j];
      assert Find(after, pk) == j;
    } else {
      assert forall k :: 0 <= k < |list| ==> list[k].nodePk != pk;
      assert Find(after, pk) == |after|;
    }
  }

  lemma {:induction false} LiveOnlyEffect(list: seq<CommunityPeerRecord>, now: nat)
    requires DistinctNodes(list)
    ensures DistinctNodes(LiveOnly(list, now))
    ensures forall r :: r in LiveOnly(list, now) <==> r in list && Live(r, now)
    ensures |LiveOnly(list, now)| <= |list|
  {
    LiveOnlyMembers(list, now);
    LiveOnlyDistinct(list, now);
  }

  lemma {:induction false} LiveOnlyMembers(list: seq<CommunityPeerRecord>, now: nat)
    ensures forall r :: r in LiveOnly(list, now) <==> r in list && Live(r, now)
    ensures |LiveOnly(list, now)| <= |list|
  {
    hide Live;
    if list == [] {
    } else {
      var first, u := list[0], list[1..];
      LiveOnlyMembers(u, now);
      assert list == [first] + u;
      assert LiveOnly(list, now) == (if Live(first, now) then [first] else []) + LiveOnly(u, now);
      hide LiveOnly;
    }
  }

  lemma {:induction false} LiveOnlyDistinct(list: seq<CommunityPeerRecord>, now: nat)
    requires DistinctNodes(list)
    ensures DistinctNodes(LiveOnly(list, now))
  {
    hide Live;
    if list == [] {
    } else {
      var first, u := list[0], list[1..];
      LiveOnlyDistinct(u, now);
      LiveOnlyMembers(u, now);
      assert LiveOnly(list, now) == (if Live(first, now) then [first] else []) + LiveOnly(u, now);
      hide LiveOnly;
      forall r | r in LiveOnly(u, now)
        ensures r.nodePk != first.nodePk
      {
        assert r in u;
      }
    }
  }

  /** Expiry drops exactly the records that are no longer live. */
  lemma {:induction false} LiveOnlyRecord(list: seq<CommunityPeerRecord>, now: nat, pk: Key)
    requires DistinctNodes(list)
    ensures var r := RecordOf(list, pk);
            RecordOf(LiveOnly(list, now), pk) == if r.Some? && Live(r.value, now) then r else None
  {
    var kept := LiveOnly(list, now);
    LiveOnlyEffect(list, now);
    var r := RecordOf(list, pk);
    if r.Some? {
      RecordOfMember(list, r.value);
      if Live(r.value, now) {
        RecordOfMember(kept, r.value);
      }
    }
    var k := RecordOf(kept, pk);
    if k.Some? {
      RecordOfMember(kept, k.value);
      RecordOfMember(list, k.value);
    }
  }

  // ---------- Capping ----------

  /** Announcing a node that is listed changes its record only. */
  lemma {:induction false} AnnounceAgain(list: seq<CommunityPeerRecord>, pk: Key, addr: NodeAddr, now: nat)
    requires DistinctNodes(list) && RecordOf(list, pk).Some?
    ensures var after := Announce(list, pk, addr, now);
            && |after| == |list| && DistinctNodes(after)
            && forall i :: 0 <= i < |list| ==>
                 after[i] == if list[i].nodePk == pk then CommunityPeerRecord(pk, addr, now) else list[i]
  {
    var i := Find(list, pk);
    assert forall j :: 0 <= j < |list| && list[j].nodePk == pk ==> j == i;
  }

  lemma {:induction false} DistinctFromMultiset(a: seq<CommunityPeerRecord>, b: seq<CommunityPeerRecord>)
    requires multiset(a) == multiset(b) && DistinctNodes(a)
    ensures DistinctNodes(b)
  {
    forall i, j | 0 <= i < j < |b|
      ensures b[i].nodePk != b[j].nodePk
    {
      SameMembers(a, b);
      assert b[i] in b && b[j] in b;
      var k :| 0 <= k < |a| && a[k] == b[i];
      var l :| 0 <= l < |a| && a[l] == b[j];
      OnceOnly(a, k);
      TwiceIn(b, i, j);
    }
  }

  lemma {:induction false} TwiceIn(b: seq<CommunityPeerRecord>, i: nat, j: nat)
    requires i < j < |b|
    ensures b[i] == b[j] ==> multiset(b)[b[i]] >= 2
  {
    assert b[..j][i] == b[i];
    assert b == b[..j] + [b[j]] + b[j + 1..];
  }

  lemma {:induction false} OnceOnly(a: seq<CommunityPeerRecord>, k: nat)
    requires DistinctNodes(a) && k < |a|
    ensures multiset(a)[a[k]] == 1
  {
    assert a == a[..k] + [a[k]] + a[k + 1..];
    assert a[k] !in a[..k] && a[k] !in a[k + 1..];
  }

  /** Announcing a new node leaves at most 20 records, all of them old records or the new one, and
      never drops a record that is strictly newer than one it keeps. */
  lemma {:induction false} AnnounceNew(list: seq<CommunityPeerRecord>, pk: Key, addr: NodeAddr, now: nat)
    requires DistinctNodes(list) && RecordOf(list, pk).None?
    ensures var after := Announce(list, pk, addr, now);
            var longer := list + [CommunityPeerRecord(pk, addr, now)];
            && |after| == (if |longer| < 20 then |longer| else 20)
            && DistinctNodes(after)
            && (forall r :: r in after ==> r in longer)
            && (forall kept, dropped :: kept in after && dropped in longer && dropped !in after
                                        ==> dropped.announcedAt <= kept.announcedAt)
            && (|longer| <= 20 ==> after == longer)
  {
    hide SortBy;
    var longer := list + [CommunityPeerRecord(pk, addr, now)];
    assert DistinctNodes(longer);
    SortedCap(longer);
  }

  /** The first 20 of a list sorted by age: none left out is strictly newer. */
  lemma {:induction false} SortedCap(longer: seq<CommunityPeerRecord>)
    requires DistinctNodes(longer)
    ensures var after := Take(SortBy(longer, NewestFirst()), K);
            && |after| == (if |longer| < K then |longer| else K)
            && DistinctNodes(after)
            && (forall r :: r in after ==> r in longer)
            && (forall kept, dropped :: kept in after && dropped in longer && dropped !in after
                                        ==> dropped.announcedAt <= kept.announcedAt)
  {
    hide SortBy;
    var sorted := SortBy(longer, NewestFirst());
    var after := Take(sorted, K);
    SortBySorts(longer, NewestFirst());
    SameMembers(sorted, longer);
    DistinctFromMultiset(longer, sorted);
    forall kept, dropped | kept in after && dropped in longer && dropped !in after
      ensures dropped.announcedAt <= kept.announcedAt
    {
      var i :| 0 <= i < |after| && after[i] == kept;
      var j :| 0 <= j < |sorted| && sorted[j] == dropped;
      assert forall k :: 0 <= k < |after| ==> sorted[k] in after;
      assert NewestFirst()(sorted[i]) <= NewestFirst()(sorted[j]);
    }
  }

  /** How many records were announced at `now` or later. */
  function AsNew(list: seq<CommunityPeerRecord>, now: nat): nat {
    if list == [] then 0 else (if list[0].announcedAt >= now then 1 else 0) + AsNew(list[1..], now)
  }

  /** A record appended to a list sorts behind everything that is at least as new. */
  lemma {:induction false} PlaceOfLast(list: seq<CommunityPeerRecord>, x: CommunityPeerRecord) returns (i: nat)
    ensures i == AsNew(list, x.announcedAt)
    ensures i < |SortBy(list + [x], NewestFirst())| && SortBy(list + [x], NewestFirst())[i] == x
  {
    if list == [] {
      assert SortBy([x], NewestFirst()) == [x];
      return 0;
    }
    var u := list[1..];
    var k := PlaceOfLast(u, x);
    assert (list + [x])[1..] == u + [x];
    SortBySorts(u + [x], NewestFirst());
    var s := SortBy(u + [x], NewestFirst());
    InsertShifts(list[0], s, k);
    assert SortBy(list + [x], NewestFirst()) == Insert(list[0], s, NewestFirst());
    hide SortBy, Insert;
    i := if list[0].announcedAt >= x.announcedAt then k + 1 else k;
  }

  lemma {:induction false} InsertShifts(y: CommunityPeerRecord, s: seq<CommunityPeerRecord>, k: nat)
    requires Ordered(s, NewestFirst()) && k < |s|
    ensures var r := Insert(y, s, NewestFirst());
            var i := if y.announcedAt >= s[k].announcedAt then k + 1 else k;
            i < |r| && r[i] == s[k]
    decreases k
  {
    assert NewestFirst()(s[0]) <= NewestFirst()(s[k]);
    if y.announcedAt < s[0].announcedAt && k > 0 {
      InsertShifts(y, s[1..], k - 1);
    }
  }

  /** The node being announced survives the cap exactly when fewer than 20 listed records are as new
      as the announcement. With 20 or more of them it is the one that is dropped. */
  lemma {:induction false} NewcomerKeptIff(list: seq<CommunityPeerRecord>, pk: Key, addr: NodeAddr, now: nat)
    requires DistinctNodes(list) && RecordOf(list, pk).None?
    ensures CommunityPeerRecord(pk, addr, now) in Announce(list, pk, addr, now) <==> AsNew(list, now) < 20
  {
    var x := CommunityPeerRecord(pk, addr, now);
    var longer := list + [x];
    assert longer[|list|] == x;
    AsNewAtMost(list, now);
    if |longer| > K {
      var sorted := SortBy(longer, NewestFirst());
      var i := PlaceOfLast(list, x);
      SortBySorts(longer, NewestFirst());
      assert DistinctNodes(longer);
      DistinctFromMultiset(longer, sorted);
      var after := Announce(list, pk, addr, now);
      assert after == sorted[..K];
      if i < K {
        assert after[i] == x;
      } else {
        assert forall j :: 0 <= j < K ==> after[j] == sorted[j] && sorted[j].nodePk != sorted[i].nodePk;
      }
    }
  }

  lemma {:induction false} AsNewAtMost(list: seq<CommunityPeerRecord>, now: nat)
    ensures AsNew(list, now) <= |list|
  {
    if list == [] {
    } else {
      AsNewAtMost(list[1..], now);
    }
  }

  // ---------- All communities ----------

  function ListOf(m: Lists, c: Key): seq<CommunityPeerRecord> {
    if c in m then m[c] else []
  }

  function AddRecord(m: Lists, c: Key, rec: CommunityPeerRecord): Lists {
    m[c := SetRecord(ListOf(m, c), rec)]
  }

  function AnnounceIn(m: Lists, c: Key, pk: Key, addr: NodeAddr, now: nat): Lists {
    m[c := Announce(ListOf(m, c), pk, addr, now)]
  }

  function ExpireLists(m: Lists, now: nat): Lists {
    map c | c in m && LiveOnly(m[c], now) != [] :: LiveOnly(m[c], now)
  }

  function LookupPeers(m: Lists, c: Key, now: nat): seq<CommunityPeerRecord> {
    LiveOnly(ListOf(m, c), now)
  }

  ghost predicate ListsInv(m: Lists) {
    forall c :: c in m ==> DistinctNodes(m[c])
  }

  ghost function RecordAt(m: Lists, c: Key, pk: Key): Option<CommunityPeerRecord> {
    RecordOf(ListOf(m, c), pk)
  }

  lemma {:induction false} AddRecordEffect(m: Lists, c: Key, rec: CommunityPeerRecord, c': Key, pk: Key)
    requires ListsInv(m)
    ensures ListsInv(AddRecord(m, c, rec))
    ensures RecordAt(AddRecord(m, c, rec), c', pk)
         == if c' == c && pk == rec.nodePk then Some(rec) else RecordAt(m, c', pk)
  {
    assert DistinctNodes(ListOf(m, c));
    SetRecordEffect(ListOf(m, c), rec, pk);
  }

  /** An announcement leaves every other community alone. */
  lemma {:induction false} AnnounceInOthers(m: Lists, c: Key, pk: Key, addr: NodeAddr, now: nat, d: Key)
    requires d != c
    ensures d in AnnounceIn(m, c, pk, addr, now) <==> d in m
    ensures d in m ==> AnnounceIn(m, c, pk, addr, now)[d] == m[d]
    ensures forall t :: LookupPeers(AnnounceIn(m, c, pk, addr, now), d, t) == LookupPeers(m, d, t)
    ensures forall k :: RecordAt(AnnounceIn(m, c, pk, addr, now), d, k) == RecordAt(m, d, k)
  {
    hide Announce, LiveOnly, Find;
  }

  /** Storing the record of a listed node leaves every record at its place; a new node comes last. */
  lemma {:induction false} SetRecordPlace(list: seq<CommunityPeerRecord>, rec: CommunityPeerRecord)
    requires DistinctNodes(list)
    ensures var after := SetRecord(list, rec);
            && |list| <= |after| <= |list| + 1
            && (forall i :: 0 <= i < |list| ==> after[i].nodePk == list[i].nodePk)
            && (|after| > |list| ==> after[|list|] == rec)
            && (|after| == |list| <==> exists i :: 0 <= i < |list| && list[i].nodePk == rec.nodePk)
  {
  }

  lemma {:induction false} LiveOnlyHead(list: seq<CommunityPeerRecord>, now: nat)
    requires list != []
    ensures LiveOnly(list, now) == (if Live(list[0], now) then [list[0]] else []) + LiveOnly(list[1..], now)
  {
  }

  /** A lookup keeps the order of the list. */
  lemma {:induction false} LiveOnlyOrder(list: seq<CommunityPeerRecord>, now: nat, i: nat, j: nat, k: nat, l: nat)
    requires DistinctNodes(list) && i < j < |LiveOnly(list, now)| && k < |list| && l < |list|
    requires LiveOnly(list, now)[i] == list[k] && LiveOnly(list, now)[j] == list[l]
    ensures k < l
  {
    hide Live, LiveOnly;
    var first, u := list[0], list[1..];
    var kept, more := LiveOnly(list, now), LiveOnly(list[1..], now);
    var off := |kept| - |more|;
    LiveOnlyHead(list, now);
    LiveOnlyMembers(u, now);
    assert kept[j] == more[j - off];
    assert more[j - off] in u;
    if k > 0 {
      assert off > 0 ==> kept[0] == first;
      assert i >= off;
      assert kept[i] == more[i - off];
      assert more[j - off] == u[l - 1] && more[i - off] == u[k - 1];
      LiveOnlyOrder(u, now, i - off, j - off, k - 1, l - 1);
    }
  }

  lemma {:induction false} ExpireListsEffect(m: Lists, now: nat, c: Key, pk: Key)
    requires ListsInv(m)
    ensures ListsInv(ExpireLists(m, now))
    ensures var r := RecordAt(m, c, pk);
            RecordAt(ExpireLists(m, now), c, pk) == if r.Some? && Live(r.value, now) then r else None
    ensures var r := RecordAt(m, c, pk);
            RecordAt(ExpireLists(m, now), c, pk).Some? <==> r.Some? && now < r.value.announcedAt + 3600
  {
    forall d | d in m
      ensures DistinctNodes(LiveOnly(m[d], now))
    {
      LiveOnlyEffect(m[d], now);
    }
    assert DistinctNodes(ListOf(m, c));
    LiveOnlyRecord(ListOf(m, c), now, pk);
  }

  lemma {:induction false} AnnounceInKeepsInv(m: Lists, c: Key, pk: Key, addr: NodeAddr, now: nat)
    requires ListsInv(m)
    ensures ListsInv(AnnounceIn(m, c, pk, addr, now))
  {
    assert DistinctNodes(ListOf(m, c));
    if RecordAt(m, c, pk).Some? {
      AnnounceAgain(ListOf(m, c), pk, addr, now);
    } else {
      AnnounceNew(ListOf(m, c), pk, addr, now);
    }
  }

  /** A lookup returns exactly the live records of the community: those announced less than an hour ago. */
  lemma {:induction false} LookupPeersAre(m: Lists, c: Key, now: nat, r: CommunityPeerRecord)
    requires ListsInv(m)
    ensures r in LookupPeers(m, c, now) <==> RecordAt(m, c, r.nodePk) == Some(r) && Live(r, now)
    ensures Live(r, now) <==> now < r.announcedAt + 3600
  {
    assert DistinctNodes(ListOf(m, c));
    LiveOnlyEffect(ListOf(m, c), now);
    RecordOfMember(ListOf(m, c), r);
  }
}
