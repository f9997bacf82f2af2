/** The cap of 20 records in one community's list (crates/bitcord-dht/src/routing.rs:290-313): what a cut may drop,
    when the order of the list or an earlier expiry decides it, and when they do not. */
module Capping {
  import opened Sorting
  import opened Peers
  import opened Records

  /** Two lists with the same live records. */
  ghost predicate SameLive(a: seq<CommunityPeerRecord>, b: seq<CommunityPeerRecord>, unix: nat) {
    forall r :: Live(r, unix) ==> (r in a <==> r in b)
  }

  /** The cap drops no listed record that is live at `unix` while it keeps one of the same age. */
  ghost predicate CleanList(list: seq<CommunityPeerRecord>, pk: Key, addr: NodeAddr, now: nat, unix: nat) {
    var after := Announce(list, pk, addr, now);
    forall kept, dropped :: kept in after && dropped in list && dropped !in after
                            && dropped.nodePk != pk && Live(dropped, unix)
                            ==> dropped.announcedAt < kept.announcedAt
  }

  // ---------- Cutting a set to 20 records ----------

  lemma {:induction false} SubsetSize<T>(a: set<T>, b: set<T>)
    requires a <= b
    ensures |a| <= |b|
    ensures |a| == |b| ==> a == b
  {
    if x :| x in a {
      SubsetSize(a - {x}, b - {x});
    } else {
      assert a == {};
    }
  }

  ghost function SetOf(list: seq<CommunityPeerRecord>): set<CommunityPeerRecord> {
    set r | r in list
  }

  lemma {:induction false} SetSize(list: seq<CommunityPeerRecord>)
    requires DistinctNodes(list)
    ensures |SetOf(list)| == |list|
  {
    if list == [] {
    } else {
      var u := list[1..];
      SetSize(u);
      assert list == [list[0]] + u;
      assert list[0] !in u;
      assert SetOf(list) == SetOf(u) + {list[0]};
    }
  }

  ghost function LiveSet(a: set<CommunityPeerRecord>, unix: nat): set<CommunityPeerRecord> {
    set r | r in a && Live(r, unix)
  }

  /** `kept` is `all`, or 20 of its records such that none left out is newer than one kept. */
  ghost predicate Cut(all: set<CommunityPeerRecord>, kept: set<CommunityPeerRecord>) {
    && kept <= all && |kept| <= K
    && (kept == all || |kept| == K)
    && forall k, d :: k in kept && d in all && d !in kept ==> d.announcedAt <= k.announcedAt
  }

  /** No live record is left out that is as new as one kept. */
  ghost predicate Clean(all: set<CommunityPeerRecord>, kept: set<CommunityPeerRecord>, unix: nat) {
    forall k, d :: k in kept && d in all && d !in kept && Live(d, unix) ==> d.announcedAt < k.announcedAt
  }

  /** A record at least as new as a live one is live. */
  lemma {:induction false} LiveUpward(d: CommunityPeerRecord, k: CommunityPeerRecord, unix: nat)
    requires d.announcedAt <= k.announcedAt && Live(d, unix)
    ensures Live(k, unix)
  {
  }

  /** With at most 20 live records a cut drops none of them. */
  lemma {:induction false} CutKeepsLive(all: set<CommunityPeerRecord>, kept: set<CommunityPeerRecord>, unix: nat)
    requires Cut(all, kept) && |LiveSet(all, unix)| <= K
    ensures LiveSet(kept, unix) == LiveSet(all, unix)
  {
    if d :| d in all && d !in kept && Live(d, unix) {
      forall k | k in kept
        ensures Live(k, unix)
      {
        LiveUpward(d, k, unix);
      }
      assert kept + {d} <= LiveSet(all, unix);
      SubsetSize(kept + {d}, LiveSet(all, unix));
      assert false;
    }
  }

  /** A clean cut that leaves live records only is the only one possible. */
  lemma {:induction false} CutIsUnique(a: set<CommunityPeerRecord>, ka: set<CommunityPeerRecord>,
                                       b: set<CommunityPeerRecord>, kb: set<CommunityPeerRecord>, unix: nat)
    requires Cut(a, ka) && Cut(b, kb) && Clean(b, kb, unix) && LiveSet(a, unix) == LiveSet(b, unix)
    requires |kb| == K && LiveSet(kb, unix) == kb
    ensures kb <= ka
  {
    assert kb <= LiveSet(b, unix);
    if k :| k in kb && k !in ka {
      forall x | x in ka
        ensures x in kb
      {
        LiveUpward(k, x, unix);
        assert x in LiveSet(a, unix);
      }
      SubsetSize(ka, kb - {k});
      assert false;
    }
  }

  /** Cutting two sets with the same live records leaves the same live records, if one of the cuts is clean. */
  lemma {:induction false} CutsAgree(a: set<CommunityPeerRecord>, ka: set<CommunityPeerRecord>,
                                     b: set<CommunityPeerRecord>, kb: set<CommunityPeerRecord>, unix: nat)
    requires Cut(a, ka) && Cut(b, kb) && Clean(b, kb, unix) && LiveSet(a, unix) == LiveSet(b, unix)
    ensures LiveSet(ka, unix) == LiveSet(kb, unix)
  {
    if |LiveSet(b, unix)| <= K {
      CutKeepsLive(a, ka, unix);
      CutKeepsLive(b, kb, unix);
    } else {
      ManyLive(b, kb, unix);
      CutIsUnique(a, ka, b, kb, unix);
      SubsetSize(kb, ka);
    }
  }

  lemma {:induction false} ManyLive(b: set<CommunityPeerRecord>, kb: set<CommunityPeerRecord>, unix: nat)
    requires Cut(b, kb) && |LiveSet(b, unix)| > K
    ensures |kb| == K && LiveSet(kb, unix) == kb
  {
    SubsetSize(LiveSet(b, unix), b);
    if k :| k in kb && !Live(k, unix) {
      forall r | r in LiveSet(b, unix)
        ensures r in kb
      {
      }
      SubsetSize(LiveSet(b, unix), kb);
      assert false;
    }
  }

  /** Being clean is exactly what makes the live records independent of the cut: a cut is clean if and only
      if every other cut of the set leaves the same live records. */
  lemma {:induction false} CleanIff(all: set<CommunityPeerRecord>, kept: set<CommunityPeerRecord>, unix: nat)
    requires Cut(all, kept)
    ensures Clean(all, kept, unix) <==>
            forall other :: Cut(all, other) ==> LiveSet(other, unix) == LiveSet(kept, unix)
  {
    if Clean(all, kept, unix) {
      forall other | Cut(all, other)
        ensures LiveSet(other, unix) == LiveSet(kept, unix)
      {
        CutsAgree(all, other, all, kept, unix);
      }
    } else {
      var k, d :| k in kept && d in all && d !in kept && Live(d, unix) && d.announcedAt >= k.announcedAt;
      var other := kept - {k} + {d};
      assert |other| == |kept|;
      assert Cut(all, other);
      assert d in LiveSet(other, unix) && d !in LiveSet(kept, unix);
    }
  }

  // ---------- Announcing ----------

  lemma {:induction false} SetRecordMembers(list: seq<CommunityPeerRecord>, rec: CommunityPeerRecord,
                                            r: CommunityPeerRecord)
    requires DistinctNodes(list)
    ensures DistinctNodes(SetRecord(list, rec))
    ensures r in SetRecord(list, rec) <==> r == rec || (r in list && r.nodePk != rec.nodePk)
  {
    hide *;
    SetRecordEffect(list, rec, r.nodePk);
    RecordOfMember(SetRecord(list, rec), r);
    RecordOfMember(list, r);
  }

  lemma {:induction false} SameSet(a: seq<CommunityPeerRecord>, b: seq<CommunityPeerRecord>, rec: CommunityPeerRecord,
                                   unix: nat)
    requires DistinctNodes(a) && DistinctNodes(b) && SameLive(a, b, unix)
    ensures DistinctNodes(SetRecord(a, rec)) && DistinctNodes(SetRecord(b, rec))
    ensures SameLive(SetRecord(a, rec), SetRecord(b, rec), unix)
  {
    hide SetRecord, DistinctNodes;
    SetRecordMembers(a, rec, rec);
    SetRecordMembers(b, rec, rec);
    forall r | Live(r, unix)
      ensures r in SetRecord(a, rec) <==> r in SetRecord(b, rec)
    {
      SetRecordMembers(a, rec, r);
      SetRecordMembers(b, rec, r);
    }
  }

  /** An announcement that leaves at most 20 records cuts the longer list. */
  lemma {:induction false} AnnounceCuts(list: seq<CommunityPeerRecord>, pk: Key, addr: NodeAddr, now: nat)
    requires DistinctNodes(list) && |Announce(list, pk, addr, now)| <= K
    ensures DistinctNodes(Announce(list, pk, addr, now))
    ensures Cut(SetOf(SetRecord(list, CommunityPeerRecord(pk, addr, now))), SetOf(Announce(list, pk, addr, now)))
  {
    var rec := CommunityPeerRecord(pk, addr, now);
    var longer, after := SetRecord(list, rec), Announce(list, pk, addr, now);
    if Find(list, pk) < |list| {
      AnnounceAgain(list, pk, addr, now);
      assert after == longer;
    } else {
      AnnounceNew(list, pk, addr, now);
      assert |longer| <= K ==> after == longer;
    }
    hide SetRecord, Announce, Find, RecordOf;
    SetSize(after);
  }

  /** A set of listed records that are as new as `now` is no larger than their number. */
  lemma {:induction false} AsNewCounts(list: seq<CommunityPeerRecord>, now: nat, s: set<CommunityPeerRecord>)
    requires forall r :: r in s ==> r in list && r.announcedAt >= now
    ensures |s| <= AsNew(list, now)
  {
    if list == [] {
      assert s == {};
    } else {
      var u := list[1..];
      assert list == [list[0]] + u;
      AsNewCounts(u, now, s - {list[0]});
    }
  }

  /** A new node that one list drops, though it is live, is dropped from every list with the same live
      records: the records that push it out are live too. */
  lemma {:induction false} DroppedFromBoth(a: seq<CommunityPeerRecord>, b: seq<CommunityPeerRecord>,
                                           pk: Key, addr: NodeAddr, now: nat, unix: nat)
    requires DistinctNodes(a) && DistinctNodes(b) && SameLive(a, b, unix)
    requires |Announce(a, pk, addr, now)| <= K && |Announce(b, pk, addr, now)| <= K
    requires var n := CommunityPeerRecord(pk, addr, now); Live(n, unix) && n !in Announce(b, pk, addr, now)
    ensures CommunityPeerRecord(pk, addr, now) !in Announce(a, pk, addr, now)
  {
    var n := CommunityPeerRecord(pk, addr, now);
    var lb, kb := SetOf(SetRecord(b, n)), SetOf(Announce(b, pk, addr, now));
    SetRecordMembers(b, n, n);
    AnnounceCuts(b, pk, addr, now);
    forall r | r in kb
      ensures r in a && r.announcedAt >= now && r.nodePk != pk
    {
      LiveUpward(n, r, unix);
      SetRecordMembers(b, n, r);
    }
    assert |kb| == K;
    hide Announce, SetRecord, DistinctNodes;
    AsNewCounts(a, now, kb);
    KeptOnlyIfFew(a, pk, addr, now, kb);
  }

  lemma {:induction false} KeptOnlyIfFew(a: seq<CommunityPeerRecord>, pk: Key, addr: NodeAddr, now: nat,
                                         s: set<CommunityPeerRecord>)
    requires DistinctNodes(a) && |Announce(a, pk, addr, now)| <= K
    requires |s| == K && AsNew(a, now) >= K && forall r :: r in s ==> r in a && r.nodePk != pk
    ensures CommunityPeerRecord(pk, addr, now) !in Announce(a, pk, addr, now)
  {
    var n := CommunityPeerRecord(pk, addr, now);
    if Find(a, pk) < |a| {
      var all := SetRecord(a, n);
      assert all == Announce(a, pk, addr, now);
      SetRecordMembers(a, n, n);
      forall r | r in s + {n}
        ensures r in all
      {
        SetRecordMembers(a, n, r);
      }
      SetSize(all);
      SubsetSize(s + {n}, SetOf(all));
      assert false;
    } else {
      NewcomerKeptIff(a, pk, addr, now);
    }
  }

  lemma {:induction false} SameAnnounce(a: seq<CommunityPeerRecord>, b: seq<CommunityPeerRecord>,
                                        pk: Key, addr: NodeAddr, now: nat, unix: nat)
    requires DistinctNodes(a) && DistinctNodes(b) && SameLive(a, b, unix)
    requires |Announce(a, pk, addr, now)| <= K && |Announce(b, pk, addr, now)| <= K
    requires CleanList(b, pk, addr, now, unix)
    ensures SameLive(Announce(a, pk, addr, now), Announce(b, pk, addr, now), unix)
  {
    hide SetRecord, Announce, DistinctNodes;
    var n := CommunityPeerRecord(pk, addr, now);
    var la, lb := SetOf(SetRecord(a, n)), SetOf(SetRecord(b, n));
    var ka, kb := SetOf(Announce(a, pk, addr, now)), SetOf(Announce(b, pk, addr, now));
    SameSet(a, b, n, unix);
    AnnounceCuts(a, pk, addr, now);
    AnnounceCuts(b, pk, addr, now);
    CleanFromList(b, pk, addr, now, unix);
    assert LiveSet(la, unix) == LiveSet(lb, unix);
    hide CleanList, SameLive;
    if n in kb || !Live(n, unix) {
      CutsAgree(la, ka, lb, kb, unix);
    } else {
      SetRecordMembers(a, n, n);
      SetRecordMembers(b, n, n);
      DroppedFromBoth(a, b, pk, addr, now, unix);
      CutWithout(la, ka, n);
      CutWithout(lb, kb, n);
      assert LiveSet(la - {n}, unix) == LiveSet(la, unix) - {n} && LiveSet(lb - {n}, unix) == LiveSet(lb, unix) - {n};
      CutsAgree(la - {n}, ka, lb - {n}, kb, unix);
    }
    SameLiveFromSets(Announce(a, pk, addr, now), Announce(b, pk, addr, now), unix);
  }

  lemma {:induction false} SameLiveFromSets(a: seq<CommunityPeerRecord>, b: seq<CommunityPeerRecord>, unix: nat)
    requires LiveSet(SetOf(a), unix) == LiveSet(SetOf(b), unix)
    ensures SameLive(a, b, unix)
  {
    forall r | Live(r, unix)
      ensures r in a <==> r in b
    {
      assert r in LiveSet(SetOf(a), unix) <==> r in LiveSet(SetOf(b), unix);
    }
  }

  lemma {:induction false} CutWithout(all: set<CommunityPeerRecord>, kept: set<CommunityPeerRecord>,
                                      n: CommunityPeerRecord)
    requires Cut(all, kept) && n in all && n !in kept
    ensures Cut(all - {n}, kept)
  {
  }

  /** A clean announcement cuts cleanly, apart from the announced record itself. */
  lemma {:induction false} CleanFromList(b: seq<CommunityPeerRecord>, pk: Key, addr: NodeAddr, now: nat, unix: nat)
    requires DistinctNodes(b) && CleanList(b, pk, addr, now, unix)
    ensures var n := CommunityPeerRecord(pk, addr, now);
            var lb, kb := SetOf(SetRecord(b, n)), SetOf(Announce(b, pk, addr, now));
            && Clean(lb - {n}, kb, unix)
            && (n in kb || !Live(n, unix) ==> Clean(lb, kb, unix))
  {
    hide SetRecord, Announce;
    var n := CommunityPeerRecord(pk, addr, now);
    forall d | d in SetRecord(b, n) && d != n
      ensures d in b && d.nodePk != pk
    {
      SetRecordMembers(b, n, d);
    }
  }

  lemma {:induction false} NotListed(list: seq<CommunityPeerRecord>, pk: Key)
    requires forall r :: r in list ==> r.nodePk != pk
    ensures Find(list, pk) == |list|
  {
  }

  lemma {:induction false} AllLive(list: seq<CommunityPeerRecord>, now: nat)
    requires forall r :: r in list ==> Live(r, now)
    ensures LiveOnly(list, now) == list
  {
    if list == [] {
    } else {
      AllLive(list[1..], now);
      assert list == [list[0]] + list[1..];
      assert list[0] in list;
    }
  }

  // ---------- The order of the list ----------

  function Exchange(r: CommunityPeerRecord, k: CommunityPeerRecord, d: CommunityPeerRecord): CommunityPeerRecord {
    if r == k then d else if r == d then k else r
  }

  /** The list with records `k` and `d` exchanged. */
  function Exchanged(s: seq<CommunityPeerRecord>, k: CommunityPeerRecord,
                     d: CommunityPeerRecord)
    : (e: seq<CommunityPeerRecord>)
    ensures |e| == |s| && forall i :: 0 <= i < |s| ==> e[i] == Exchange(s[i], k, d)
  {
    if s == [] then [] else [Exchange(s[0], k, d)] + Exchanged(s[1..], k, d)
  }

  lemma {:induction false} CountCons<T>(y: T, u: seq<T>, x: T)
    ensures multiset([y] + u)[x] == (if x == y then 1 else 0) + multiset(u)[x]
  {
  }

  lemma {:induction false} ExchangedCount(s: seq<CommunityPeerRecord>, k: CommunityPeerRecord, d: CommunityPeerRecord,
                                          x: CommunityPeerRecord)
    ensures multiset(Exchanged(s, k, d))[x] == multiset(s)[Exchange(x, k, d)]
  {
    hide Exchanged;
    if s == [] {
      assert Exchanged(s, k, d) == [];
    } else {
      ExchangedCount(s[1..], k, d, x);
      var y, u := Exchange(s[0], k, d), Exchanged(s[1..], k, d);
      assert s == [s[0]] + s[1..];
      ExchangedFirst(s, k, d);
      CountCons(y, u, x);
      CountCons(s[0], s[1..], Exchange(x, k, d));
    }
  }

  lemma {:induction false} ExchangedFirst(s: seq<CommunityPeerRecord>, k: CommunityPeerRecord, d: CommunityPeerRecord)
    requires s != []
    ensures Exchanged(s, k, d) == [Exchange(s[0], k, d)] + Exchanged(s[1..], k, d)
  {
  }

  lemma {:induction false} ExchangedSameMembers(s: seq<CommunityPeerRecord>, k: CommunityPeerRecord,
                                                d: CommunityPeerRecord)
    requires DistinctNodes(s) && k in s && d in s
    ensures multiset(Exchanged(s, k, d)) == multiset(s)
  {
    var i, j :| 0 <= i < |s| && 0 <= j < |s| && s[i] == k && s[j] == d;
    OnceOnly(s, i);
    OnceOnly(s, j);
    hide *;
    forall x
      ensures multiset(Exchanged(s, k, d))[x] == multiset(s)[x]
    {
      ExchangedCount(s, k, d, x);
      ExchangeIs(x, k, d);
    }
  }

  lemma {:induction false} ExchangeIs(x: CommunityPeerRecord, k: CommunityPeerRecord, d: CommunityPeerRecord)
    ensures Exchange(x, k, d) == if x == k then d else if x == d then k else x
  {
  }

  /** Records of the same age sort alike. */
  lemma {:induction false} InsertExchanged(x: CommunityPeerRecord, s: seq<CommunityPeerRecord>, k: CommunityPeerRecord,
                                           d: CommunityPeerRecord)
    requires k.announcedAt == d.announcedAt
    ensures Insert(Exchange(x, k, d), Exchanged(s, k, d), NewestFirst()) == Exchanged(Insert(x, s, NewestFirst()), k, d)
  {
    if s != [] && x.announcedAt < s[0].announcedAt {
      InsertExchanged(x, s[1..], k, d);
      assert Exchanged(s, k, d)[1..] == Exchanged(s[1..], k, d);
      assert ([s[0]] + Insert(x, s[1..], NewestFirst()))[1..] == Insert(x, s[1..], NewestFirst());
    } else {
      assert ([x] + s)[1..] == s;
    }
  }

  lemma {:induction false} SortExchanged(s: seq<CommunityPeerRecord>, k: CommunityPeerRecord, d: CommunityPeerRecord)
    requires k.announcedAt == d.announcedAt
    ensures SortBy(Exchanged(s, k, d), NewestFirst()) == Exchanged(SortBy(s, NewestFirst()), k, d)
  {
    if s == [] {
    } else {
      var e := Exchanged(s, k, d);
      SortExchanged(s[1..], k, d);
      InsertExchanged(s[0], SortBy(s[1..], NewestFirst()), k, d);
      assert e[1..] == Exchanged(s[1..], k, d);
    }
  }

  /** Announcing to the list with two equally old records exchanged exchanges them in what is left. */
  lemma {:induction false} AnnounceExchanged(list: seq<CommunityPeerRecord>, pk: Key, addr: NodeAddr, now: nat,
                                             k: CommunityPeerRecord, d: CommunityPeerRecord)
    requires k.announcedAt == d.announcedAt && k in list && d in list && Find(list, pk) == |list|
    ensures Announce(Exchanged(list, k, d), pk, addr, now) == Exchanged(Announce(list, pk, addr, now), k, d)
  {
    var n, e := CommunityPeerRecord(pk, addr, now), Exchanged(list, k, d);
    forall r | r in e
      ensures r in list
    {
    }
    NotListed(e, pk);
    assert Exchange(n, k, d) == n;
    assert e + [n] == Exchanged(list + [n], k, d);
    SortExchanged(list + [n], k, d);
    var sorted := SortBy(list + [n], NewestFirst());
    assert Take(Exchanged(sorted, k, d), K) == Exchanged(Take(sorted, K), k, d);
  }

  /** A new node that is kept pushes out no listed record of its own age. */
  lemma {:induction false} NewcomerComesLast(list: seq<CommunityPeerRecord>, pk: Key, addr: NodeAddr, now: nat,
                                             d: CommunityPeerRecord)
    requires DistinctNodes(list) && Find(list, pk) == |list| && d in list && d.announcedAt >= now
    requires CommunityPeerRecord(pk, addr, now) in Announce(list, pk, addr, now)
    ensures d in Announce(list, pk, addr, now)
  {
    var n, after := CommunityPeerRecord(pk, addr, now), Announce(list, pk, addr, now);
    if d !in after {
      AnnounceNew(list, pk, addr, now);
      NewcomerKeptIff(list, pk, addr, now);
      SetSize(after);
      assert d in list + [n];
      var s := SetOf(after) - {n} + {d};
      assert |s| == K;
      AsNewCounts(list, now, s);
      assert false;
    }
  }

  /** When the order of the list decides what a lookup finds: it does not, that is every list with the same
      records in any order keeps the same live ones, if and only if the cap drops no listed live record
      while it keeps one of the same age. */
  lemma {:induction false} OrderIrrelevantIff(list: seq<CommunityPeerRecord>, pk: Key, addr: NodeAddr, now: nat,
                                              unix: nat)
    requires DistinctNodes(list)
    ensures CleanList(list, pk, addr, now, unix) <==>
            forall other :: multiset(other) == multiset(list)
                            ==> SameLive(Announce(other, pk, addr, now), Announce(list, pk, addr, now), unix)
  {
    if CleanList(list, pk, addr, now, unix) {
      hide CleanList, SameLive, Announce;
      forall other | multiset(other) == multiset(list)
        ensures SameLive(Announce(other, pk, addr, now), Announce(list, pk, addr, now), unix)
      {
        AnyOrder(other, list, pk, addr, now, unix);
      }
    } else {
      var k, d := TiedPair(list, pk, addr, now, unix);
      var other := Exchanged(list, k, d);
      ExchangedSameMembers(list, k, d);
      AnnounceExchanged(list, pk, addr, now, k, d);
      var after := Announce(list, pk, addr, now);
      var i :| 0 <= i < |after| && after[i] == k;
      assert Announce(other, pk, addr, now)[i] == d;
      assert !SameLive(Announce(other, pk, addr, now), after, unix);
    }
  }

  lemma {:induction false} AnyOrder(other: seq<CommunityPeerRecord>, list: seq<CommunityPeerRecord>,
                                    pk: Key, addr: NodeAddr, now: nat, unix: nat)
    requires DistinctNodes(list) && multiset(other) == multiset(list) && CleanList(list, pk, addr, now, unix)
    ensures SameLive(Announce(other, pk, addr, now), Announce(list, pk, addr, now), unix)
  {
    SameMembers(other, list);
    DistinctFromMultiset(list, other);
    if Find(list, pk) < |list| {
      assert list[Find(list, pk)] in other;
      UpdatesAreSets(list, pk, addr, now);
      UpdatesAreSets(other, pk, addr, now);
      SameSet(other, list, CommunityPeerRecord(pk, addr, now), unix);
    } else {
      assert forall r :: r in other ==> r in list;
      NotListed(other, pk);
      AnnounceNew(list, pk, addr, now);
      AnnounceNew(other, pk, addr, now);
      SameAnnounce(other, list, pk, addr, now, unix);
    }
  }

  lemma {:induction false} UpdatesAreSets(list: seq<CommunityPeerRecord>, pk: Key, addr: NodeAddr, now: nat)
    requires Find(list, pk) < |list|
    ensures Announce(list, pk, addr, now) == SetRecord(list, CommunityPeerRecord(pk, addr, now))
  {
  }

  /** What makes an announcement unclean: two listed records of the same age, one kept and one dropped
      though live. */
  lemma {:induction false} TiedPair(list: seq<CommunityPeerRecord>, pk: Key, addr: NodeAddr, now: nat, unix: nat)
    returns (k: CommunityPeerRecord, d: CommunityPeerRecord)
    requires DistinctNodes(list) && !CleanList(list, pk, addr, now, unix)
    ensures Find(list, pk) == |list| && k in list && d in list && k.announcedAt == d.announcedAt
    ensures k in Announce(list, pk, addr, now) && d !in Announce(list, pk, addr, now) && Live(d, unix)
  {
    var after := Announce(list, pk, addr, now);
    k, d :| k in after && d in list && d !in after && d.nodePk != pk && Live(d, unix) && d.announcedAt >= k.announcedAt;
    if Find(list, pk) < |list| {
      UpdatesAreSets(list, pk, addr, now);
      SetRecordMembers(list, CommunityPeerRecord(pk, addr, now), d);
      assert false;
    }
    AnnounceNew(list, pk, addr, now);
    assert d in list + [CommunityPeerRecord(pk, addr, now)];
    if k !in list {
      NewcomerComesLast(list, pk, addr, now, d);
      assert false;
    }
  }

  // ---------- One expiry before one announcement ----------

  function DeadOnly(list: seq<CommunityPeerRecord>, now: nat): seq<CommunityPeerRecord> {
    if list == [] then []
    else (if Live(list[0], now) then [] else [list[0]]) + DeadOnly(list[1..], now)
  }

  lemma {:induction false} InsertLive(x: CommunityPeerRecord, live: seq<CommunityPeerRecord>,
                                      dead: seq<CommunityPeerRecord>, t: nat)
    requires Live(x, t) && forall r :: r in dead ==> !Live(r, t)
    ensures Insert(x, live + dead, NewestFirst()) == Insert(x, live, NewestFirst()) + dead
  {
    if live == [] {
      assert live + dead == dead;
      assert dead != [] ==> dead[0] in dead;
    } else {
      assert (live + dead)[1..] == live[1..] + dead;
      InsertLive(x, live[1..], dead, t);
    }
  }

  lemma {:induction false} InsertDead(x: CommunityPeerRecord, live: seq<CommunityPeerRecord>,
                                      dead: seq<CommunityPeerRecord>, t: nat)
    requires !Live(x, t) && forall r :: r in live ==> Live(r, t)
    ensures Insert(x, live + dead, NewestFirst()) == live + Insert(x, dead, NewestFirst())
  {
    if live == [] {
      assert live + dead == dead;
    } else {
      assert live[0] in live;
      assert (live + dead)[1..] == live[1..] + dead;
      InsertDead(x, live[1..], dead, t);
    }
  }

  lemma {:induction false} Parts(list: seq<CommunityPeerRecord>, t: nat)
    ensures forall r :: r in SortBy(LiveOnly(list, t), NewestFirst()) ==> Live(r, t)
    ensures forall r :: r in SortBy(DeadOnly(list, t), NewestFirst()) ==> !Live(r, t)
  {
    LiveOnes(list, t);
    hide LiveOnly, DeadOnly, SortBy;
    SortBySorts(LiveOnly(list, t), NewestFirst());
    SortBySorts(DeadOnly(list, t), NewestFirst());
    SameMembers(SortBy(LiveOnly(list, t), NewestFirst()), LiveOnly(list, t));
    SameMembers(SortBy(DeadOnly(list, t), NewestFirst()), DeadOnly(list, t));
  }

  lemma {:induction false} LiveOnes(list: seq<CommunityPeerRecord>, t: nat)
    ensures forall r :: r in LiveOnly(list, t) ==> Live(r, t)
    ensures forall r :: r in DeadOnly(list, t) ==> !Live(r, t)
  {
    if list == [] {
    } else {
      LiveOnes(list[1..], t);
    }
  }

  /** Sorting by age puts the live records first and leaves the order among them alone. */
  lemma {:induction false} SortSplits(list: seq<CommunityPeerRecord>, t: nat)
    ensures SortBy(list, NewestFirst())
            == SortBy(LiveOnly(list, t), NewestFirst()) + SortBy(DeadOnly(list, t), NewestFirst())
  {
    if list == [] {
    } else {
      var x, u := list[0], list[1..];
      SortSplits(u, t);
      Parts(u, t);
      var live, dead := SortBy(LiveOnly(u, t), NewestFirst()), SortBy(DeadOnly(u, t), NewestFirst());
      if Live(x, t) {
        assert LiveOnly(list, t) == [x] + LiveOnly(u, t) && DeadOnly(list, t) == DeadOnly(u, t);
        assert LiveOnly(list, t)[1..] == LiveOnly(u, t);
        InsertLive(x, live, dead, t);
      } else {
        assert DeadOnly(list, t) == [x] + DeadOnly(u, t) && LiveOnly(list, t) == LiveOnly(u, t);
        assert DeadOnly(list, t)[1..] == DeadOnly(u, t);
        InsertDead(x, live, dead, t);
      }
    }
  }

  function Cap(list: seq<CommunityPeerRecord>): seq<CommunityPeerRecord> {
    if |list| > K then Take(SortBy(list, NewestFirst()), K) else list
  }

  /** Which live records survive the cap is decided among the records that were live earlier. */
  lemma {:induction false} CapLive(list: seq<CommunityPeerRecord>, t: nat, unix: nat, r: CommunityPeerRecord)
    requires t <= unix && Live(r, unix)
    ensures r in Cap(list) <==> r in Take(SortBy(LiveOnly(list, t), NewestFirst()), K)
  {
    var live, dead := SortBy(LiveOnly(list, t), NewestFirst()), SortBy(DeadOnly(list, t), NewestFirst());
    var all := live + dead;
    assert Live(r, t);
    hide SortBy, LiveOnly, DeadOnly, Live;
    SortSplits(list, t);
    Parts(list, t);
    SortBySorts(list, NewestFirst());
    SameMembers(all, list);
    assert r !in dead;
    TakeFront(live, dead, K, r);
  }

  lemma {:induction false} TakeFront<T>(live: seq<T>, dead: seq<T>, n: nat, r: T)
    requires r !in dead
    ensures r in Take(live + dead, n) <==> r in Take(live, n)
    ensures r in live + dead <==> r in live
  {
    if |live| < n < |live + dead| {
      assert (live + dead)[..n] == live + dead[..n - |live|];
      assert forall x :: x in dead[..n - |live|] ==> x in dead;
    } else if n <= |live| {
      assert (live + dead)[..n] == live[..n];
    }
  }

  lemma {:induction false} LiveOnlyAppend(a: seq<CommunityPeerRecord>, n: CommunityPeerRecord, t: nat)
    ensures LiveOnly(a + [n], t) == LiveOnly(a, t) + (if Live(n, t) then [n] else [])
  {
    hide Live;
    if a == [] {
      assert a + [n] == [n];
      assert LiveOnly([n][1..], t) == [];
    } else {
      var u, first := a[1..], if Live(a[0], t) then [a[0]] else [];
      assert (a + [n])[1..] == u + [n];
      LiveOnlyAppend(u, n, t);
      assert LiveOnly(a + [n], t) == first + LiveOnly(u + [n], t);
      assert LiveOnly(a, t) == first + LiveOnly(u, t);
    }
  }

  /** Of a list that does not name the announced node nothing expired matters. */
  lemma {:induction false} ExpiredStrangers(b: seq<CommunityPeerRecord>, pk: Key, addr: NodeAddr, now: nat, t: nat,
                                            unix: nat)
    requires DistinctNodes(b) && t <= unix && Find(b, pk) == |b|
    ensures SameLive(Announce(LiveOnly(b, t), pk, addr, now), Announce(b, pk, addr, now), unix)
  {
    var n, a := CommunityPeerRecord(pk, addr, now), LiveOnly(b, t);
    LiveOnlyEffect(b, t);
    NotListed(a, pk);
    assert Announce(a, pk, addr, now) == Cap(a + [n]) && Announce(b, pk, addr, now) == Cap(b + [n]);
    hide Announce, SortBy, Cap, DistinctNodes, LiveOnly;
    LiveOnlyAppend(a, n, t);
    LiveOnlyAppend(b, n, t);
    AllLive(a, t);
    forall r | Live(r, unix)
      ensures r in Cap(a + [n]) <==> r in Cap(b + [n])
    {
      CapLive(a + [n], t, unix, r);
      CapLive(b + [n], t, unix, r);
    }
  }

  /** The announced node is listed and has expired: without the expiry it is updated where it stands, after
      it the node is new and the cap applies. */
  lemma {:induction false} ExpiredSelf(b: seq<CommunityPeerRecord>, pk: Key, addr: NodeAddr, now: nat, t: nat,
                                       unix: nat)
    requires DistinctNodes(b) && t <= unix && Find(b, pk) < |b| && !Live(b[Find(b, pk)], t)
    ensures SameLive(Announce(LiveOnly(b, t), pk, addr, now), Announce(b, pk, addr, now), unix)
            <==> |LiveSet(SetOf(SetRecord(b, CommunityPeerRecord(pk, addr, now))), unix)| <= K
  {
    var n, a := CommunityPeerRecord(pk, addr, now), LiveOnly(b, t);
    var lb, after := SetRecord(b, n), Announce(a, pk, addr, now);
    LiveOnlyEffect(b, t);
    UpdatesAreSets(b, pk, addr, now);
    forall r | r in a
      ensures r.nodePk != pk
    {
      RecordOfMember(b, r);
    }
    NotListed(a, pk);
    AnnounceNew(a, pk, addr, now);
    AnnounceCuts(a, pk, addr, now);
    hide Announce, LiveOnly, Find, Cut;
    forall r | Live(r, unix)
      ensures r in SetRecord(a, n) <==> r in lb
    {
      assert Live(r, t);
      SetRecordMembers(a, n, r);
      SetRecordMembers(b, n, r);
    }
    ExpiredSelfSets(SetRecord(a, n), after, lb, unix);
  }

  lemma {:induction false} ExpiredSelfSets(longer: seq<CommunityPeerRecord>, after: seq<CommunityPeerRecord>,
                                           all: seq<CommunityPeerRecord>, unix: nat)
    requires Cut(SetOf(longer), SetOf(after)) && SameLive(longer, all, unix)
    ensures SameLive(after, all, unix) <==> |LiveSet(SetOf(all), unix)| <= K
  {
    assert LiveSet(SetOf(longer), unix) == LiveSet(SetOf(all), unix);
    if |LiveSet(SetOf(all), unix)| <= K {
      CutKeepsLive(SetOf(longer), SetOf(after), unix);
      SameLiveFromSets(after, all, unix);
    } else {
      SubsetSize(LiveSet(SetOf(after), unix), SetOf(after));
      if SameLive(after, all, unix) {
        LiveSetsAgree(after, all, unix);
      }
    }
  }

  lemma {:induction false} LiveSetsAgree(a: seq<CommunityPeerRecord>, b: seq<CommunityPeerRecord>, unix: nat)
    requires SameLive(a, b, unix)
    ensures LiveSet(SetOf(a), unix) == LiveSet(SetOf(b), unix)
  {
  }

  /** When an expiry right before an announcement shows in a later lookup: if and only if it removed the
      very node that is announced and more than 20 records, that node included, are still live. */
  lemma {:induction false} OneExpiryShowsIff(b: seq<CommunityPeerRecord>, pk: Key, addr: NodeAddr, now: nat, t: nat,
                                             unix: nat)
    requires DistinctNodes(b) && t <= unix
    ensures !SameLive(Announce(LiveOnly(b, t), pk, addr, now), Announce(b, pk, addr, now), unix) <==>
            && RecordOf(b, pk).Some? && !Live(RecordOf(b, pk).value, t)
            && |LiveSet(SetOf(SetRecord(b, CommunityPeerRecord(pk, addr, now))), unix)| > K
  {
    var i := Find(b, pk);
    if i == |b| {
      ExpiredStrangers(b, pk, addr, now, t, unix);
    } else if !Live(b[i], t) {
      ExpiredSelf(b, pk, addr, now, t, unix);
    } else {
      LiveUpdated(b, pk, addr, now, t, unix);
    }
  }

  lemma {:induction false} LiveUpdated(b: seq<CommunityPeerRecord>, pk: Key, addr: NodeAddr, now: nat, t: nat,
                                       unix: nat)
    requires DistinctNodes(b) && t <= unix && Find(b, pk) < |b| && Live(b[Find(b, pk)], t)
    ensures SameLive(Announce(LiveOnly(b, t), pk, addr, now), Announce(b, pk, addr, now), unix)
  {
    var n, a := CommunityPeerRecord(pk, addr, now), LiveOnly(b, t);
    LiveOnlyRecord(b, t, pk);
    LiveOnlyEffect(b, t);
    UpdatesAreSets(a, pk, addr, now);
    UpdatesAreSets(b, pk, addr, now);
    hide Announce, LiveOnly, Find, SetRecord, RecordOf;
    forall r | Live(r, unix)
      ensures r in a <==> r in b
    {
      assert Live(r, t);
    }
    SameSet(a, b, n, unix);
  }
}
