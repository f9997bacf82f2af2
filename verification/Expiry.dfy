/** Runs of record operations, with and without expiry (crates/bitcord-dht/src/routing.rs:248-410). */
module Expiry {
  import opened Wrappers
  import opened Sorting
  import opened Peers
  import opened Records
  import opened Capping

  datatype State = State(selfAddr: Option<NodeAddr>, mailboxes: Mailboxes, lists: Lists, infos: PeerInfos)

  datatype Op =
    | SetSelfAddr(self: NodeAddr)
    | AnnounceMailbox(user: Key, instant: nat)
    | AddMailbox(user: Key, addr: NodeAddr, instant: nat)
    | AddCommunityPeer(c: Key, rec: CommunityPeerRecord)
    | AnnounceCommunityPeer(c: Key, pk: Key, addr: NodeAddr, unix: nat)
    | AnnouncePeerInfo(peerId: Key, info: PeerInfoRecord)
    | AddPeerInfo(peerId: Key, info: PeerInfoRecord)
    | Expire(instant: nat, unix: nat, unix': nat)

  function SetMailbox(m: Mailboxes, user: Key, addr: NodeAddr, instant: nat): Mailboxes {
    m[user := MailboxRecord(addr, instant + MAILBOX_TTL)]
  }

  function ExpireMailboxes(m: Mailboxes, instant: nat): Mailboxes {
    map k | k in m && m[k].expiresAt > instant :: m[k]
  }

  function ExpireInfos(m: PeerInfos, unix: nat): PeerInfos {
    map k | k in m && InfoLive(m[k], unix) :: m[k]
  }

  function LookupMailbox(m: Mailboxes, user: Key, instant: nat): Option<NodeAddr> {
    if user in m && m[user].expiresAt > instant then Some(m[user].addr) else None
  }

  function LookupInfo(m: PeerInfos, peerId: Key, unix: nat): Option<PeerInfoRecord> {
    if peerId in m && InfoLive(m[peerId], unix) then Some(m[peerId]) else None
  }

  function Step(s: State, op: Op): State {
    match op
    case SetSelfAddr(addr) => s.(selfAddr := Some(addr))
    case AnnounceMailbox(user, instant) =>
      if s.selfAddr.Some? then s.(mailboxes := SetMailbox(s.mailboxes, user, s.selfAddr.value, instant)) else s
    case AddMailbox(user, addr, instant) => s.(mailboxes := SetMailbox(s.mailboxes, user, addr, instant))
    case AddCommunityPeer(c, rec) => s.(lists := AddRecord(s.lists, c, rec))
    case AnnounceCommunityPeer(c, pk, addr, unix) => s.(lists := AnnounceIn(s.lists, c, pk, addr, unix))
    case AnnouncePeerInfo(peerId, info) => s.(infos := s.infos[peerId := info])
    case AddPeerInfo(peerId, info) => s.(infos := s.infos[peerId := info])
    case Expire(instant, unix, unix') =>
      s.(mailboxes := ExpireMailboxes(s.mailboxes, instant),
         lists := ExpireLists(s.lists, unix),
         infos := ExpireInfos(s.infos, unix'))
  }

  function Run(s: State, ops: seq<Op>): State {
    if ops == [] then s else Step(Run(s, ops[..|ops| - 1]), ops[|ops| - 1])
  }

  /** The same run with every expiry taken out. */
  function Unexpired(ops: seq<Op>): seq<Op> {
    if ops == [] then []
    else
      var n := |ops| - 1;
      Unexpired(ops[..n]) + (if ops[n].Expire? then [] else [ops[n]])
  }

  /** `at` are the places of the other operations, in order. */
  ghost predicate Selects(at: seq<nat>, ops: seq<Op>) {
    && (forall k, l :: 0 <= k < l < |at| ==> at[k] < at[l])
    && forall i: nat :: i in at <==> i < |ops| && !ops[i].Expire?
  }

  ghost predicate Selected(kept: seq<Op>, at: seq<nat>, ops: seq<Op>) {
    |kept| == |at| && forall k :: 0 <= k < |at| ==> at[k] < |ops| && kept[k] == ops[at[k]]
  }

  lemma {:induction false} SelectsSnoc(at: seq<nat>, ops: seq<Op>, op: Op)
    requires Selects(at, ops)
    ensures Selects(if op.Expire? then at else at + [|ops|], ops + [op])
  {
    var all, next := ops + [op], if op.Expire? then at else at + [|ops|];
    forall k | 0 <= k < |at|
      ensures at[k] < |ops|
    {
      assert at[k] in at;
    }
    forall i: nat
      ensures i in next <==> i in at || (i == |ops| && !op.Expire?)
    {
    }
    forall i: nat
      ensures i in next <==> i < |all| && !all[i].Expire?
    {
      assert i < |ops| ==> all[i] == ops[i];
    }
  }

  lemma {:induction false} NothingSelected()
    ensures Selects([], [])
  {
  }

  /** It keeps exactly the operations that are no expiry, in order. */
  lemma {:induction false} UnexpiredAre(ops: seq<Op>) returns (at: seq<nat>)
    ensures Selects(at, ops) && Selected(Unexpired(ops), at, ops)
  {
    hide Selects;
    if ops == [] {
      at := [];
      NothingSelected();
    } else {
      var u, op := ops[..|ops| - 1], ops[|ops| - 1];
      at := UnexpiredAre(u);
      assert ops == u + [op];
      SelectsSnoc(at, u, op);
      at := if op.Expire? then at else at + [|u|];
    }
  }

  // ---------- List invariants over runs ----------

  /** No run lists a node twice in one community. */
  lemma {:induction false} RunKeepsListsInv(s: State, ops: seq<Op>)
    requires ListsInv(s.lists)
    ensures ListsInv(Run(s, ops).lists)
  {
    if ops == [] {
    } else {
      var n := |ops| - 1;
      RunKeepsListsInv(s, ops[..n]);
      StepKeepsListsInv(Run(s, ops[..n]), ops[n]);
    }
  }

  lemma {:induction false} StepKeepsListsInv(s: State, op: Op)
    requires ListsInv(s.lists)
    ensures ListsInv(Step(s, op).lists)
  {
    match op
    case AddCommunityPeer(c, rec) => AddRecordEffect(s.lists, c, rec, c, rec.nodePk);
    case AnnounceCommunityPeer(c, pk, addr, unix) => AnnounceInKeepsInv(s.lists, c, pk, addr, unix);
    case Expire(instant, unix, unix') =>
      forall c | c in s.lists
        ensures DistinctNodes(LiveOnly(s.lists[c], unix))
      {
        LiveOnlyEffect(s.lists[c], unix);
      }
    case _ =>
  }

  /** A run that adds community peers by announcing only never lists more than 20 in a community. */
  lemma {:induction false} AnnouncedListsStayCapped(s: State, ops: seq<Op>)
    requires ListsInv(s.lists) && forall c :: c in s.lists ==> |s.lists[c]| <= 20
    requires forall i :: 0 <= i < |ops| ==> !ops[i].AddCommunityPeer?
    ensures forall c :: c in Run(s, ops).lists ==> |Run(s, ops).lists[c]| <= 20
  {
    if ops == [] {
    } else {
      var n := |ops| - 1;
      AnnouncedListsStayCapped(s, ops[..n]);
      RunKeepsListsInv(s, ops[..n]);
      hide ListsInv, Step;
      StepKeepsCap(Run(s, ops[..n]), ops[n]);
    }
  }

  lemma {:induction false} StepKeepsCap(s: State, op: Op)
    requires ListsInv(s.lists) && (forall c :: c in s.lists ==> |s.lists[c]| <= 20) && !op.AddCommunityPeer?
    ensures forall c :: c in Step(s, op).lists ==> |Step(s, op).lists[c]| <= 20
  {
    hide Announce, LiveOnly, RecordOf;
    match op
    case AnnounceCommunityPeer(c, pk, addr, unix) =>
      assert DistinctNodes(ListOf(s.lists, c));
      hide DistinctNodes;
      if RecordAt(s.lists, c, pk).Some? {
        AnnounceAgain(ListOf(s.lists, c), pk, addr, unix);
      } else {
        AnnounceNew(ListOf(s.lists, c), pk, addr, unix);
      }
    case Expire(instant, unix, unix') =>
      forall c | c in s.lists
        ensures |LiveOnly(s.lists[c], unix)| <= |s.lists[c]|
      {
        LiveOnlyEffect(s.lists[c], unix);
      }
    case _ =>
  }

  // ---------- What an expiry removes ----------

  /** After an expiry exactly those records are left that have not expired by the clock reading made for their store:
      mailboxes by their expiry, community peers within an hour of their announcement, peer info within 24 hours. No
      community is left with an empty list. */
  lemma {:induction false} ExpireLeaves(s: State, instant: nat, unix: nat, unix': nat, k: Key, r: CommunityPeerRecord)
    requires ListsInv(s.lists)
    ensures var after := Step(s, Expire(instant, unix, unix'));
            && after.selfAddr == s.selfAddr
            && (k in after.mailboxes <==> k in s.mailboxes && instant < s.mailboxes[k].expiresAt)
            && (k in after.mailboxes ==> after.mailboxes[k] == s.mailboxes[k])
            && (k in after.infos <==> k in s.infos && unix' < s.infos[k].announcedAt + 86_400)
            && (k in after.infos ==> after.infos[k] == s.infos[k])
            && (k in after.lists ==> after.lists[k] != [])
            && (r in ListOf(after.lists, k) <==> r in ListOf(s.lists, k) && unix < r.announcedAt + 3600)
  {
    assert DistinctNodes(ListOf(s.lists, k));
    LiveOnlyEffect(ListOf(s.lists, k), unix);
    hide LiveOnly, DistinctNodes;
  }

  // ---------- Expiry cannot be observed ----------

  /** `m'` is `m` with some records missing that no lookup from `instant` on returns. */
  ghost predicate TrimmedMailboxes(m': Mailboxes, m: Mailboxes, instant: nat) {
    && (forall k :: k in m' ==> k in m && m[k] == m'[k])
    && forall k :: k in m && k !in m' ==> m[k].expiresAt <= instant
  }

  ghost predicate TrimmedInfos(m': PeerInfos, m: PeerInfos, unix: nat) {
    && (forall k :: k in m' ==> k in m && m[k] == m'[k])
    && forall k :: k in m && k !in m' ==> !InfoLive(m[k], unix)
  }

  ghost predicate SameLists(m': Lists, m: Lists, unix: nat) {
    && ListsInv(m') && ListsInv(m)
    && forall c :: SameLive(ListOf(m', c), ListOf(m, c), unix)
  }

  ghost predicate Trimmed(s': State, s: State, instant: nat, unix: nat) {
    && s'.selfAddr == s.selfAddr
    && TrimmedMailboxes(s'.mailboxes, s.mailboxes, instant)
    && SameLists(s'.lists, s.lists, unix)
    && TrimmedInfos(s'.infos, s.infos, unix)
  }

  /** An announcement leaves at most 20 records. It fails to only when it updates a listed node of a list
      that additions have made longer. */
  ghost predicate Capped(m: Lists, op: Op) {
    op.AnnounceCommunityPeer? ==> |Announce(ListOf(m, op.c), op.pk, op.addr, op.unix)| <= K
  }

  ghost predicate CleanCut(m: Lists, op: Op, unix: nat) {
    op.AnnounceCommunityPeer? ==> CleanList(ListOf(m, op.c), op.pk, op.addr, op.unix, unix)
  }

  ghost predicate AllCapped(s: State, ops: seq<Op>) {
    ops == [] || (AllCapped(s, ops[..|ops| - 1]) && Capped(Run(s, ops[..|ops| - 1]).lists, ops[|ops| - 1]))
  }

  ghost predicate AllClean(s: State, ops: seq<Op>, unix: nat) {
    ops == [] || (AllClean(s, ops[..|ops| - 1], unix) && CleanCut(Run(s, ops[..|ops| - 1]).lists, ops[|ops| - 1], unix))
  }

  /** The clock readings of a lookup come after every expiry of the run. */
  ghost predicate After(ops: seq<Op>, instant: nat, unix: nat) {
    forall i :: 0 <= i < |ops| && ops[i].Expire? ==>
                  ops[i].instant <= instant && ops[i].unix <= unix && ops[i].unix' <= unix
  }

  // ---------- One operation on both sides ----------

  lemma {:induction false} SameAfterAdd(m': Lists, m: Lists, unix: nat, c: Key, rec: CommunityPeerRecord)
    requires SameLists(m', m, unix)
    ensures SameLists(AddRecord(m', c, rec), AddRecord(m, c, rec), unix)
  {
    hide SameLive, SetRecord, DistinctNodes;
    assert SameLive(ListOf(m', c), ListOf(m, c), unix);
    EmptyIsDistinct();
    SameSet(ListOf(m', c), ListOf(m, c), rec, unix);
    OneListChanges(m', m, unix, c, SetRecord(ListOf(m', c), rec), SetRecord(ListOf(m, c), rec));
  }

  lemma {:induction false} EmptyIsDistinct()
    ensures DistinctNodes([])
  {
  }

  lemma {:induction false} OneListChanges(m': Lists, m: Lists, unix: nat, c: Key, a: seq<CommunityPeerRecord>,
                                          b: seq<CommunityPeerRecord>)
    requires SameLists(m', m, unix) && DistinctNodes(a) && DistinctNodes(b) && SameLive(a, b, unix)
    ensures SameLists(m'[c := a], m[c := b], unix)
  {
    hide SameLive, DistinctNodes;
    var n', n := m'[c := a], m[c := b];
    forall d
      ensures SameLive(ListOf(n', d), ListOf(n, d), unix)
    {
      if d != c {
        assert SameLive(ListOf(m', d), ListOf(m, d), unix);
      }
    }
  }

  lemma {:induction false} SameAfterAnnounce(m': Lists, m: Lists, unix: nat, op: Op)
    requires SameLists(m', m, unix) && op.AnnounceCommunityPeer?
    requires Capped(m', op) && Capped(m, op) && CleanCut(m, op, unix)
    ensures SameLists(AnnounceIn(m', op.c, op.pk, op.addr, op.unix), AnnounceIn(m, op.c, op.pk, op.addr, op.unix), unix)
  {
    hide SameLive, SetRecord, Announce, DistinctNodes, CleanList;
    var a, b := ListOf(m', op.c), ListOf(m, op.c);
    assert SameLive(a, b, unix);
    EmptyIsDistinct();
    SameAnnounce(a, b, op.pk, op.addr, op.unix, unix);
    AnnounceCuts(a, op.pk, op.addr, op.unix);
    AnnounceCuts(b, op.pk, op.addr, op.unix);
    OneListChanges(m', m, unix, op.c, Announce(a, op.pk, op.addr, op.unix), Announce(b, op.pk, op.addr, op.unix));
  }

  lemma {:induction false} SameAfterExpire(m': Lists, m: Lists, unix: nat, now: nat)
    requires SameLists(m', m, unix) && now <= unix
    ensures SameLists(ExpireLists(m', now), m, unix)
  {
    var n' := ExpireLists(m', now);
    forall d | d in m'
      ensures DistinctNodes(LiveOnly(m'[d], now))
    {
      LiveOnlyEffect(m'[d], now);
    }
    forall d
      ensures SameLive(ListOf(n', d), ListOf(m, d), unix)
    {
      assert SameLive(ListOf(m', d), ListOf(m, d), unix);
      assert DistinctNodes(ListOf(m', d));
      LiveOnlyEffect(ListOf(m', d), now);
      assert ListOf(n', d) == LiveOnly(ListOf(m', d), now);
      forall r | Live(r, unix)
        ensures r in ListOf(n', d) <==> r in ListOf(m, d)
      {
        assert Live(r, now);
      }
    }
  }

  lemma {:induction false} StepSameLists(s': State, s: State, instant: nat, unix: nat, op: Op)
    requires SameLists(s'.lists, s.lists, unix) && After([op], instant, unix)
    requires Capped(s'.lists, op) && Capped(s.lists, op) && CleanCut(s.lists, op, unix)
    ensures SameLists(Step(s', op).lists, if op.Expire? then s.lists else Step(s, op).lists, unix)
  {
    hide SameLists, AddRecord, AnnounceIn, ExpireLists, CleanCut, Capped, ExpireMailboxes, ExpireInfos;
    match op
    case AddCommunityPeer(c, rec) => SameAfterAdd(s'.lists, s.lists, unix, c, rec);
    case AnnounceCommunityPeer(c, pk, addr, t) => SameAfterAnnounce(s'.lists, s.lists, unix, op);
    case Expire(i, u, u') =>
      assert [op][0] == op;
      SameAfterExpire(s'.lists, s.lists, unix, u);
    case _ =>
  }

  lemma {:induction false} StepTrimsMaps(s': State, s: State, instant: nat, unix: nat, op: Op)
    requires s'.selfAddr == s.selfAddr && After([op], instant, unix)
    requires TrimmedMailboxes(s'.mailboxes, s.mailboxes, instant) && TrimmedInfos(s'.infos, s.infos, unix)
    ensures var n', n := Step(s', op), if op.Expire? then s else Step(s, op);
            n'.selfAddr == n.selfAddr && TrimmedMailboxes(n'.mailboxes, n.mailboxes, instant)
              && TrimmedInfos(n'.infos, n.infos, unix)
  {
    if op.Expire? {
      assert [op][0] == op;
    }
    StepTrimsMailboxes(s', s, instant, op);
    StepTrimsInfos(s', s, unix, op);
  }

  lemma {:induction false} StepTrimsMailboxes(s': State, s: State, instant: nat, op: Op)
    requires s'.selfAddr == s.selfAddr && TrimmedMailboxes(s'.mailboxes, s.mailboxes, instant)
    requires op.Expire? ==> op.instant <= instant
    ensures var n', n := Step(s', op), if op.Expire? then s else Step(s, op);
            n'.selfAddr == n.selfAddr && TrimmedMailboxes(n'.mailboxes, n.mailboxes, instant)
  {
    hide AddRecord, AnnounceIn, ExpireLists, ExpireInfos;
  }

  lemma {:induction false} StepTrimsInfos(s': State, s: State, unix: nat, op: Op)
    requires TrimmedInfos(s'.infos, s.infos, unix) && (op.Expire? ==> op.unix' <= unix)
    ensures TrimmedInfos(Step(s', op).infos, if op.Expire? then s.infos else Step(s, op).infos, unix)
  {
    hide AddRecord, AnnounceIn, ExpireLists, ExpireMailboxes, SetMailbox;
  }

  lemma {:induction false} StepTrimmed(s': State, s: State, instant: nat, unix: nat, op: Op)
    requires Trimmed(s', s, instant, unix) && After([op], instant, unix)
    requires Capped(s'.lists, op) && Capped(s.lists, op) && CleanCut(s.lists, op, unix)
    ensures Trimmed(Step(s', op), if op.Expire? then s else Step(s, op), instant, unix)
  {
    hide SameLists, TrimmedMailboxes, TrimmedInfos, Step, CleanCut, Capped, After;
    StepSameLists(s', s, instant, unix, op);
    StepTrimsMaps(s', s, instant, unix, op);
  }

  lemma {:induction false} RunTrimmed(s: State, ops: seq<Op>, instant: nat, unix: nat)
    requires ListsInv(s.lists) && After(ops, instant, unix)
    requires AllCapped(s, ops) && AllCapped(s, Unexpired(ops)) && AllClean(s, Unexpired(ops), unix)
    ensures Trimmed(Run(s, ops), Run(s, Unexpired(ops)), instant, unix)
  {
    hide Capped, CleanCut, Step, SameLists, TrimmedMailboxes, TrimmedInfos;
    StartTrimmed(s, instant, unix);
    if ops == [] {
    } else {
      var u, op := ops[..|ops| - 1], ops[|ops| - 1];
      var w := Unexpired(u);
      if op.Expire? {
        assert Unexpired(ops) == w;
        RunTrimmed(s, u, instant, unix);
        ExpireCutsNothing(Run(s, w).lists, op, unix);
        StepTrimmed(Run(s, u), Run(s, w), instant, unix, op);
      } else {
        assert Unexpired(ops) == w + [op];
        assert (w + [op])[..|w + [op]| - 1] == w;
        RunTrimmed(s, u, instant, unix);
        StepTrimmed(Run(s, u), Run(s, w), instant, unix, op);
      }
    }
  }

  lemma {:induction false} StartTrimmed(s: State, instant: nat, unix: nat)
    requires ListsInv(s.lists)
    ensures Trimmed(s, s, instant, unix)
  {
  }

  lemma {:induction false} ExpireCutsNothing(m: Lists, op: Op, unix: nat)
    requires op.Expire?
    ensures Capped(m, op) && CleanCut(m, op, unix)
  {
  }

  /** Expiry cannot be observed: taking every `expire_records` out of a run changes no lookup made after
      them, as long as announcements leave at most 20 records and, without expiry, the cap never drops a
      record that the lookup would find while it keeps one of the same age. Community peers are compared as
      sets. */
  lemma {:induction false} ExpiryIsUnobservable(s: State, ops: seq<Op>, instant: nat, unix: nat, k: Key)
    requires ListsInv(s.lists) && After(ops, instant, unix)
    requires AllCapped(s, ops) && AllCapped(s, Unexpired(ops)) && AllClean(s, Unexpired(ops), unix)
    ensures var a, b := Run(s, ops), Run(s, Unexpired(ops));
            && LookupMailbox(a.mailboxes, k, instant) == LookupMailbox(b.mailboxes, k, instant)
            && LookupInfo(a.infos, k, unix) == LookupInfo(b.infos, k, unix)
            && (forall r :: r in LookupPeers(a.lists, k, unix) <==> r in LookupPeers(b.lists, k, unix))
            && DistinctNodes(LookupPeers(a.lists, k, unix)) && DistinctNodes(LookupPeers(b.lists, k, unix))
  {
    var a, b := Run(s, ops), Run(s, Unexpired(ops));
    RunTrimmed(s, ops, instant, unix);
    hide Run, Unexpired, AllCapped, AllClean, LiveOnly;
    assert SameLive(ListOf(a.lists, k), ListOf(b.lists, k), unix);
    assert DistinctNodes(ListOf(a.lists, k)) && DistinctNodes(ListOf(b.lists, k));
    LiveOnlyEffect(ListOf(a.lists, k), unix);
    LiveOnlyEffect(ListOf(b.lists, k), unix);
  }

  /** In a run that announces no community peer nothing stands in the way. */
  lemma {:induction false} ExpiryIsUnobservableWithoutAnnouncing(s: State, ops: seq<Op>, instant: nat, unix: nat,
                                                                 k: Key)
    requires ListsInv(s.lists) && After(ops, instant, unix)
    requires forall i :: 0 <= i < |ops| ==> !ops[i].AnnounceCommunityPeer?
    ensures var a, b := Run(s, ops), Run(s, Unexpired(ops));
            && LookupMailbox(a.mailboxes, k, instant) == LookupMailbox(b.mailboxes, k, instant)
            && LookupInfo(a.infos, k, unix) == LookupInfo(b.infos, k, unix)
            && (forall r :: r in LookupPeers(a.lists, k, unix) <==> r in LookupPeers(b.lists, k, unix))
  {
    UnexpiredKeeps(ops);
    QuietIsCapped(s, ops, unix);
    QuietIsCapped(s, Unexpired(ops), unix);
    ExpiryIsUnobservable(s, ops, instant, unix, k);
  }

  lemma {:induction false} UnexpiredKeeps(ops: seq<Op>)
    ensures forall op :: op in Unexpired(ops) ==> op in ops
  {
    if ops == [] {
    } else {
      UnexpiredKeeps(ops[..|ops| - 1]);
    }
  }

  lemma {:induction false} QuietIsCapped(s: State, ops: seq<Op>, unix: nat)
    requires forall op :: op in ops ==> !op.AnnounceCommunityPeer?
    ensures AllCapped(s, ops) && AllClean(s, ops, unix)
  {
    hide Run, Announce;
    if ops == [] {
    } else {
      QuietIsCapped(s, ops[..|ops| - 1], unix);
      assert ops[|ops| - 1] in ops;
    }
  }

  /** Runs that announce community peers and never add them meet the first condition by themselves. */
  lemma {:induction false} AnnouncedRunsAreCapped(s: State, ops: seq<Op>)
    requires ListsInv(s.lists) && forall c :: c in s.lists ==> |s.lists[c]| <= K
    requires forall i :: 0 <= i < |ops| ==> !ops[i].AddCommunityPeer?
    ensures AllCapped(s, ops)
  {
    if ops == [] {
    } else {
      var u, op := ops[..|ops| - 1], ops[|ops| - 1];
      AnnouncedRunsAreCapped(s, u);
      if op.AnnounceCommunityPeer? {
        AnnouncedListsStayCapped(s, ops);
        assert Run(s, ops).lists[op.c] == Announce(ListOf(Run(s, u).lists, op.c), op.pk, op.addr, op.unix);
      }
    }
  }

  // ---------- The cap makes it observable ----------

  lemma {:induction false} Appended(list: seq<CommunityPeerRecord>, x: CommunityPeerRecord)
    requires Find(list, x.nodePk) == |list|
    ensures SetRecord(list, x) == list + [x]
  {
  }

  /** Announcing a node to a full list of two old and eighteen newer records drops the later old one. */
  lemma {:induction false} FullListDropsLaterTie(front: seq<CommunityPeerRecord>, f: seq<CommunityPeerRecord>,
                                                 back: seq<CommunityPeerRecord>,
                              a: CommunityPeerRecord, b: CommunityPeerRecord, z: CommunityPeerRecord, t: nat)
    requires front + back == [a, b] && a.announcedAt == b.announcedAt == t
    requires |f| == K - 2 && forall r :: r in f + [z] ==> r.announcedAt == t + 1
    requires forall r :: r in f + [a, b] ==> r.nodePk != z.nodePk
    ensures Announce(front + f + back, z.nodePk, z.addr, t + 1) == f + [z, a]
  {
    hide SortBy, Announce, Find, Insert;
    var list, key := front + f + back, NewestFirst();
    assert forall x :: x in front || x in back ==> x in front + back;
    assert forall x :: x in list ==> x in front + back || x in f;
    assert forall x :: x in f ==> x in f + [z];
    assert z in f + [z];
    NotListed(list, z.nodePk);
    assert |list| == K;
    AnnounceUnlisted(list, z.nodePk, z.addr, t + 1);
    SortMovesBack(front, f, back, z, key, -(t + 1), 0 - t);
    assert (f + [z] + [a, b])[..K] == f + [z, a];
  }

  lemma {:induction false} AnnounceUnlisted(list: seq<CommunityPeerRecord>, pk: Key, addr: NodeAddr, now: nat)
    requires Find(list, pk) == |list| == K
    ensures var longer := list + [CommunityPeerRecord(pk, addr, now)];
            |SortBy(longer, NewestFirst())| == K + 1
            && Announce(list, pk, addr, now) == SortBy(longer, NewestFirst())[..K]
  {
    hide SortBy, Find;
    SortBySorts(list + [CommunityPeerRecord(pk, addr, now)], NewestFirst());
  }

  /** Records x, y, z and fillers for the run below: x and y equally old, the others one second newer. */
  ghost predicate Tie(x: CommunityPeerRecord, y: CommunityPeerRecord, f: seq<CommunityPeerRecord>,
                      z: CommunityPeerRecord, t: nat) {
    && |f| == K - 2 && DistinctNodes([x, y] + f + [z])
    && x.announcedAt == t && y.announcedAt == t
    && forall r :: r in f + [z] ==> r.announcedAt == t + 1
  }

  lemma {:induction false} TieKeys(x: CommunityPeerRecord, y: CommunityPeerRecord, f: seq<CommunityPeerRecord>,
                                   z: CommunityPeerRecord, t: nat)
    requires Tie(x, y, f, z, t)
    ensures x.nodePk != y.nodePk
    ensures forall r :: r in f ==> r.nodePk != x.nodePk && r.nodePk != y.nodePk && r.announcedAt == t + 1
    ensures forall r :: r in f + [x, y] ==> r.nodePk != z.nodePk
    ensures z.announcedAt == t + 1
  {
    var all := [x, y] + f + [z];
    assert all[0] == x && all[1] == y && all[20] == z;
    assert forall i :: 0 <= i < |f| ==> all[2 + i] == f[i];
    assert forall r :: r in f ==> r in f + [z];
    assert z in f + [z];
  }

  /** The old record is replaced where it stands. */
  lemma {:induction false} ListWithoutExpiry(x: CommunityPeerRecord, y: CommunityPeerRecord,
                                             f: seq<CommunityPeerRecord>, z: CommunityPeerRecord, t: nat)
    requires Tie(x, y, f, z, t)
    ensures Announce(SetRecord([x.(announcedAt := 0), y] + f, x), z.nodePk, z.addr, t + 1) == f + [z, x]
  {
    TieKeys(x, y, f, z, t);
    assert SetRecord([x.(announcedAt := 0), y] + f, x) == [x, y] + f;
    FullListDropsLaterTie([x, y], f, [], x, y, z, t);
    assert [x, y] + f + [] == [x, y] + f;
  }

  /** The old record is gone and comes back at the end. */
  lemma {:induction false} ListWithExpiry(x: CommunityPeerRecord, y: CommunityPeerRecord, f: seq<CommunityPeerRecord>,
                                          z: CommunityPeerRecord, t: nat)
    requires Tie(x, y, f, z, t) && t >= COMMUNITY_PEER_TTL_SECS
    ensures var left := LiveOnly([x.(announcedAt := 0), y] + f, t);
            left != [] && Announce(SetRecord(left, x), z.nodePk, z.addr, t + 1) == f + [z, y]
  {
    TieKeys(x, y, f, z, t);
    hide SetRecord, Announce, DistinctNodes, Find, Tie;
    var rest := [y] + f;
    OldestExpires(x, y, f, t);
    NotListed(rest, x.nodePk);
    Appended(rest, x);
    hide LiveOnly, Live;
    assert forall r :: r in f + [y, x] ==> r in f + [x, y];
    assert forall r :: r in f + [z] ==> r.announcedAt == t + 1;
    FullListDropsLaterTie([y], f, [x], y, x, z, t);
  }

  lemma {:induction false} OldestExpires(x: CommunityPeerRecord, y: CommunityPeerRecord, f: seq<CommunityPeerRecord>,
                                         t: nat)
    requires t >= COMMUNITY_PEER_TTL_SECS && y.announcedAt == t && forall r :: r in f ==> r.announcedAt == t + 1
    ensures LiveOnly([x.(announcedAt := 0), y] + f, t) == [y] + f
  {
    var was, rest := [x.(announcedAt := 0), y] + f, [y] + f;
    assert was[0] == x.(announcedAt := 0) && was[1..] == rest;
    AllLive(rest, t);
  }

  ghost function TieState(c: Key, x: CommunityPeerRecord, y: CommunityPeerRecord, f: seq<CommunityPeerRecord>): State {
    State(None, map[], map[c := [x.(announcedAt := 0), y] + f], map[])
  }

  ghost function TieOps(c: Key, x: CommunityPeerRecord, z: CommunityPeerRecord, t: nat): seq<Op> {
    [Expire(0, t, 0), AddCommunityPeer(c, x), AnnounceCommunityPeer(c, z.nodePk, z.addr, t + 1)]
  }

  /** A cut between records of the same age makes it fail: of two equally old records in a full list the cap
      drops the one listed later, and an expiry that removes a record before it is stored again changes
      which one that is. Here `y` is found after the run with the expiry and lost in the run without it;
      every announcement of both runs leaves 20 records. */
  lemma {:induction false} CapMakesExpiryObservable(c: Key, x: CommunityPeerRecord, y: CommunityPeerRecord,
                                                    f: seq<CommunityPeerRecord>,
                                                    z: CommunityPeerRecord, t: nat)
    requires Tie(x, y, f, z, t) && t >= COMMUNITY_PEER_TTL_SECS
    ensures After(TieOps(c, x, z, t), 0, t + 1)
    ensures AllCapped(TieState(c, x, y, f), TieOps(c, x, z, t))
    ensures AllCapped(TieState(c, x, y, f), Unexpired(TieOps(c, x, z, t)))
    ensures y in LookupPeers(Run(TieState(c, x, y, f), TieOps(c, x, z, t)).lists, c, t + 1)
    ensures y !in LookupPeers(Run(TieState(c, x, y, f), Unexpired(TieOps(c, x, z, t))).lists, c, t + 1)
  {
    hide SetRecord, Announce, Run, Unexpired, Find;
    var s := TieState(c, x, y, f);
    ListWithoutExpiry(x, y, f, z, t);
    ListWithExpiry(x, y, f, z, t);
    TieRun(s, c, x, z, t);
    TieLookups(x, y, f, z, t);
    LastIsCapped(s, TieOps(c, x, z, t));
    assert Unexpired(TieOps(c, x, z, t)) == [TieOps(c, x, z, t)[1], TieOps(c, x, z, t)[2]];
    LastIsCapped(s, Unexpired(TieOps(c, x, z, t)));
  }

  /** Only the last operation announces, and it leaves at most 20 records. */
  lemma {:induction false} LastIsCapped(s: State, ops: seq<Op>)
    requires 0 < |ops| <= 3 && forall i :: 0 <= i < |ops| - 1 ==> !ops[i].AnnounceCommunityPeer?
    requires var op := ops[|ops| - 1]; op.AnnounceCommunityPeer? && |ListOf(Run(s, ops).lists, op.c)| <= K
    ensures AllCapped(s, ops)
  {
    hide Announce, AddRecord, ExpireLists, ExpireInfos, ExpireMailboxes;
    var n := |ops| - 1;
    QuietIsCapped(s, ops[..n], 0);
    assert Run(s, ops) == Step(Run(s, ops[..n]), ops[n]);
  }

  lemma {:induction false} TieRun(s: State, c: Key, x: CommunityPeerRecord, z: CommunityPeerRecord, t: nat)
    requires c in s.lists && LiveOnly(s.lists[c], t) != []
    ensures ListOf(Run(s, TieOps(c, x, z, t)).lists, c)
         == Announce(SetRecord(LiveOnly(s.lists[c], t), x), z.nodePk, z.addr, t + 1)
    ensures ListOf(Run(s, Unexpired(TieOps(c, x, z, t))).lists, c)
         == Announce(SetRecord(s.lists[c], x), z.nodePk, z.addr, t + 1)
    ensures Unexpired(TieOps(c, x, z, t)) == TieOps(c, x, z, t)[1..]
  {
    var ops := TieOps(c, x, z, t);
    RunThree(s, ops[0], ops[1], ops[2]);
    StepThree(s, c, x, z, t);
  }

  lemma {:induction false} TieLookups(x: CommunityPeerRecord, y: CommunityPeerRecord, f: seq<CommunityPeerRecord>,
                                      z: CommunityPeerRecord, t: nat)
    requires Tie(x, y, f, z, t)
    ensures y in LiveOnly(f + [z, y], t + 1) && y !in LiveOnly(f + [z, x], t + 1)
  {
    TieKeys(x, y, f, z, t);
    AllLive(f + [z, y], t + 1);
    AllLive(f + [z, x], t + 1);
    assert (f + [z, y])[K - 1] == y;
  }

  lemma {:induction false} StepThree(s: State, c: Key, x: CommunityPeerRecord, z: CommunityPeerRecord, t: nat)
    requires c in s.lists && LiveOnly(s.lists[c], t) != []
    ensures var e, a, b :=
            Expire(0, t, 0), AddCommunityPeer(c, x), AnnounceCommunityPeer(c, z.nodePk, z.addr, t + 1);
            && ListOf(Step(Step(Step(s, e), a), b).lists, c)
               == Announce(SetRecord(LiveOnly(s.lists[c], t), x), z.nodePk, z.addr, t + 1)
            && ListOf(Step(Step(s, a), b).lists, c) == Announce(SetRecord(s.lists[c], x), z.nodePk, z.addr, t + 1)
  {
    hide SetRecord, Announce, LiveOnly, ExpireMailboxes, ExpireInfos;
  }

  lemma {:induction false} RunThree(s: State, e: Op, a: Op, b: Op)
    requires e.Expire? && !a.Expire? && !b.Expire?
    ensures Run(s, [e, a, b]) == Step(Step(Step(s, e), a), b)
    ensures Run(s, Unexpired([e, a, b])) == Step(Step(s, a), b) && Unexpired([e, a, b]) == [a, b]
  {
    assert [e, a, b][..2] == [e, a] && [e, a][..1] == [e] && [e][..0] == [];
    assert Unexpired([e]) == [] && Unexpired([e, a]) == [a] && Unexpired([e, a, b]) == [a, b];
    assert [a, b][..1] == [a] && [a][..0] == [];
    assert Run(s, [e]) == Step(s, e);
    assert Run(s, [e, a]) == Step(Step(s, e), a);
    assert Run(s, [a]) == Step(s, a);
  }

  /** A list longer than 20, as additions make them, makes it fail too. Its one dead record `x` is announced
      again: without an expiry it is updated where it stands and all 21 records are found, after an expiry
      it is a new node and the cap drops one. */
  lemma {:induction false} LongListMakesExpiryObservable(c: Key, x: CommunityPeerRecord, f: seq<CommunityPeerRecord>,
                                                         t: nat)
    requires |f| == K && DistinctNodes([x] + f) && !Live(x, t) && forall r :: r in f ==> Live(r, t)
    ensures var s, ops := State(None, map[], map[c := [x] + f], map[]),
                             [Expire(0, t, 0), AnnounceCommunityPeer(c, x.nodePk, x.addr, t)];
            && After(ops, 0, t)
            && |LookupPeers(Run(s, ops).lists, c, t)| == K
            && |LookupPeers(Run(s, Unexpired(ops)).lists, c, t)| == K + 1
  {
    var s := State(None, map[], map[c := [x] + f], map[]);
    var e, b := Expire(0, t, 0), AnnounceCommunityPeer(c, x.nodePk, x.addr, t);
    assert s.lists[c] == [x] + f;
    LongWithExpiry(x, f, t);
    LongWithoutExpiry(x, f, t);
    hide *;
    RunBoth(s, e, b);
    StepBoth(s, c, x.nodePk, x.addr, t);
    LookupIs(Run(s, [e, b]).lists, c, t);
    LookupIs(Run(s, Unexpired([e, b])).lists, c, t);
    AfterBoth(e, b, t);
  }

  lemma {:induction false} AfterBoth(e: Op, b: Op, t: nat)
    requires e == Expire(0, t, 0) && !b.Expire?
    ensures After([e, b], 0, t)
  {
  }

  lemma {:induction false} LookupIs(m: Lists, c: Key, t: nat)
    ensures LookupPeers(m, c, t) == LiveOnly(ListOf(m, c), t)
  {
  }

  lemma {:induction false} RunBoth(s: State, e: Op, b: Op)
    requires e.Expire? && !b.Expire?
    ensures Run(s, [e, b]) == Step(Step(s, e), b)
    ensures Run(s, Unexpired([e, b])) == Step(s, b)
  {
    assert [e, b][..1] == [e] && [e][..0] == [] && [b][..0] == [];
    assert Unexpired([e]) == [];
    assert Unexpired([e, b]) == [] + [b];
    assert [] + [b] == [b];
    assert Run(s, [e]) == Step(s, e);
    assert Run(s, [b]) == Step(s, b);
  }

  lemma {:induction false} StepBoth(s: State, c: Key, pk: Key, addr: NodeAddr, t: nat)
    requires c in s.lists && LiveOnly(s.lists[c], t) != []
    ensures var e, b := Expire(0, t, 0), AnnounceCommunityPeer(c, pk, addr, t);
            && ListOf(Step(Step(s, e), b).lists, c) == Announce(LiveOnly(s.lists[c], t), pk, addr, t)
            && ListOf(Step(s, b).lists, c) == Announce(s.lists[c], pk, addr, t)
  {
    hide Announce, LiveOnly, ExpireMailboxes, ExpireInfos;
  }

  lemma {:induction false} LongWithExpiry(x: CommunityPeerRecord, f: seq<CommunityPeerRecord>, t: nat)
    requires |f| == K && DistinctNodes([x] + f) && !Live(x, t) && forall r :: r in f ==> Live(r, t)
    ensures LiveOnly([x] + f, t) == f != []
    ensures |LiveOnly(Announce(f, x.nodePk, x.addr, t), t)| == K
  {
    hide Announce, SortBy;
    HeadApart(x, f);
    AllLive(f, t);
    assert ([x] + f)[1..] == f;
    NotListed(f, x.nodePk);
    AnnounceNew(f, x.nodePk, x.addr, t);
    hide LiveOnly, DistinctNodes;
    AllLive(Announce(f, x.nodePk, x.addr, t), t);
  }

  lemma {:induction false} LongWithoutExpiry(x: CommunityPeerRecord, f: seq<CommunityPeerRecord>, t: nat)
    requires |f| == K && forall r :: r in f ==> Live(r, t)
    ensures |LiveOnly(Announce([x] + f, x.nodePk, x.addr, t), t)| == K + 1
  {
    var rec := CommunityPeerRecord(x.nodePk, x.addr, t);
    assert Find([x] + f, x.nodePk) == 0;
    assert Announce([x] + f, x.nodePk, x.addr, t) == [rec] + f;
    hide *;
    LiveNow(rec, t);
    AllLive([rec] + f, t);
  }

  lemma {:induction false} LiveNow(r: CommunityPeerRecord, t: nat)
    requires r.announcedAt == t
    ensures Live(r, t)
  {
  }

  lemma {:induction false} HeadApart(x: CommunityPeerRecord, f: seq<CommunityPeerRecord>)
    requires DistinctNodes([x] + f)
    ensures DistinctNodes(f) && forall r :: r in f ==> r.nodePk != x.nodePk
  {
    var list := [x] + f;
    assert list[0] == x;
    assert forall i :: 0 <= i < |f| ==> f[i] == list[i + 1];
  }

  lemma {:induction false} ExpiredList(m: Lists, c: Key, t: nat)
    ensures ListOf(ExpireLists(m, t), c) == LiveOnly(ListOf(m, c), t)
  {
  }

  /** The shortest such run, from any state: one expiry and then one announcement. The expiry shows in a
      later lookup if and only if it removed the node that is announced and more than 20 records of the
      community, that node included, are still live. */
  lemma {:induction false} OneExpiryRunShowsIff(s: State, e: Op, b: Op, unix: nat)
    requires ListsInv(s.lists) && e.Expire? && b.AnnounceCommunityPeer? && e.unix <= unix
    ensures var list := ListOf(s.lists, b.c);
            (exists r :: (r in LookupPeers(Run(s, [e, b]).lists, b.c, unix))
                         != (r in LookupPeers(Run(s, Unexpired([e, b])).lists, b.c, unix)))
            <==>
            && RecordOf(list, b.pk).Some? && !Live(RecordOf(list, b.pk).value, e.unix)
            && |LiveSet(SetOf(SetRecord(list, CommunityPeerRecord(b.pk, b.addr, b.unix))), unix)| > K
  {
    var x, y := Run(s, [e, b]).lists, Run(s, Unexpired([e, b])).lists;
    var list := ListOf(s.lists, b.c);
    EmptyIsDistinct();
    assert DistinctNodes(list);
    RunBoth(s, e, b);
    ExpiredList(s.lists, b.c, e.unix);
    assert ListOf(x, b.c) == Announce(LiveOnly(list, e.unix), b.pk, b.addr, b.unix);
    assert ListOf(y, b.c) == Announce(list, b.pk, b.addr, b.unix);
    hide *;
    OneExpiryShowsIff(list, b.pk, b.addr, b.unix, e.unix, unix);
    LiveOnlyEffect(list, e.unix);
    AnnounceKeepsDistinct(LiveOnly(list, e.unix), b.pk, b.addr, b.unix);
    AnnounceKeepsDistinct(list, b.pk, b.addr, b.unix);
    LookupsDiffer(x, y, b.c, unix);
  }

  lemma {:induction false} AnnounceKeepsDistinct(list: seq<CommunityPeerRecord>, pk: Key, addr: NodeAddr, now: nat)
    requires DistinctNodes(list)
    ensures DistinctNodes(Announce(list, pk, addr, now))
  {
    if RecordOf(list, pk).Some? {
      AnnounceAgain(list, pk, addr, now);
    } else {
      AnnounceNew(list, pk, addr, now);
    }
  }

  lemma {:induction false} LookupsDiffer(x: Lists, y: Lists, c: Key, unix: nat)
    requires DistinctNodes(ListOf(x, c)) && DistinctNodes(ListOf(y, c))
    ensures (exists r :: (r in LookupPeers(x, c, unix)) != (r in LookupPeers(y, c, unix)))
            <==> !SameLive(ListOf(x, c), ListOf(y, c), unix)
  {
    LiveOnlyEffect(ListOf(x, c), unix);
    LiveOnlyEffect(ListOf(y, c), unix);
    hide LiveOnly, DistinctNodes;
    if !SameLive(ListOf(x, c), ListOf(y, c), unix) {
      var r :| Live(r, unix) && (r in ListOf(x, c)) != (r in ListOf(y, c));
      assert (r in LookupPeers(x, c, unix)) != (r in LookupPeers(y, c, unix));
    }
  }

  // ---------- Announced and dropped ----------

  /** Announcements of many nodes in the same second. */
  ghost function AnnounceEach(c: Key, pks: seq<Key>, addr: NodeAddr, now: nat): seq<Op> {
    if pks == [] then []
    else AnnounceEach(c, pks[..|pks| - 1], addr, now) + [AnnounceCommunityPeer(c, pks[|pks| - 1], addr, now)]
  }

  function RecordsFor(pks: seq<Key>, addr: NodeAddr, now: nat): seq<CommunityPeerRecord> {
    seq(|pks|, i requires 0 <= i < |pks| => CommunityPeerRecord(pks[i], addr, now))
  }

  lemma {:induction false} SortUniform(s: seq<CommunityPeerRecord>, now: nat)
    requires forall r :: r in s ==> r.announcedAt == now
    ensures SortBy(s, NewestFirst()) == s
  {
    if s == [] {
    } else {
      SortUniform(s[1..], now);
      assert s == [s[0]] + s[1..];
      assert s[0] in s && (|s| > 1 ==> s[1..][0] in s);
    }
  }

  /** Of nodes announced to an empty list in the same second the first 20 are listed. So from the 21st on
      the node that announces itself is the one that is dropped. */
  lemma {:induction false} SameSecondKeepsFirst(c: Key, pks: seq<Key>, addr: NodeAddr, now: nat)
    requires forall i, j :: 0 <= i < j < |pks| ==> pks[i] != pks[j]
    ensures var lists := Run(State(None, map[], map[], map[]), AnnounceEach(c, pks, addr, now)).lists;
            ListOf(lists, c) == Take(RecordsFor(pks, addr, now), 20)
  {
    if pks == [] {
    } else {
      var n := |pks| - 1;
      var u, ops := pks[..n], AnnounceEach(c, pks, addr, now);
      SameSecondKeepsFirst(c, u, addr, now);
      var last := AnnounceCommunityPeer(c, pks[n], addr, now);
      assert ops[..|ops| - 1] == AnnounceEach(c, u, addr, now) && ops[|ops| - 1] == last;
      var list := Take(RecordsFor(u, addr, now), K);
      hide Announce, Take, AnnounceEach, RecordsFor;
      OneMore(list, u, pks[n], addr, now);
      RecordsForSnoc(u, pks[n], addr, now);
      assert u + [pks[n]] == pks;
    }
  }

  lemma {:induction false} RecordsForSnoc(u: seq<Key>, pk: Key, addr: NodeAddr, now: nat)
    ensures RecordsFor(u + [pk], addr, now) == RecordsFor(u, addr, now) + [CommunityPeerRecord(pk, addr, now)]
  {
  }

  lemma {:induction false} OneMore(list: seq<CommunityPeerRecord>, u: seq<Key>, pk: Key, addr: NodeAddr, now: nat)
    requires list == Take(RecordsFor(u, addr, now), K) && pk !in u
    ensures Announce(list, pk, addr, now) == Take(RecordsFor(u, addr, now) + [CommunityPeerRecord(pk, addr, now)], K)
  {
    var longer := list + [CommunityPeerRecord(pk, addr, now)];
    forall i | 0 <= i < |list|
      ensures list[i].nodePk != pk && list[i].announcedAt == now
    {
      assert list[i].nodePk == u[i];
    }
    NotListed(list, pk);
    SortUniform(longer, now);
    hide SortBy;
  }
}
