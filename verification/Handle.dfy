/** The DHT handle above state and walk (crates/bitcord-core/src/dht/mod.rs): cache, then walk; announce, but
    not too often. */
module Handle {
  import opened Wrappers
  import opened Peers
  import opened RoutingTable
  import opened Walk
  import opened Dht
  import opened Lookups
  import Records
  import Expiry
  import Cooldown

  const ANNOUNCE_COOLDOWN: nat := 60 * 1_000_000_000

  /** Looks for a mailbox in the cache first and walks only when no unexpired record is there. A walk that
      passes the deadline is abandoned: the peers it has added stay in the table, and nothing is found. */
  method FindMailboxPeers(state: DhtState, user: Key, rpc: Rpc, instant: nat, later: nat)
    returns (r: seq<NodeAddr>, ending: Ending, contacted: seq<Peer>, rounds: nat, ghost at: nat, ghost calls: seq<Peer>)
    requires state.Valid()
    modifies state`mailboxes, state.buckets
    ensures state.Valid() && |r| <= 1 && Injective(DistTo(user))
    ensures var cached := Expiry.LookupMailbox(old(state.mailboxes), user, instant);
            cached.Some? ==> r == [cached.value] && contacted == [] && state.mailboxes == old(state.mailboxes)
                             && state.Table() == old(state.Table())
    ensures var cached := Expiry.LookupMailbox(old(state.mailboxes), user, instant);
            cached.None? ==>
              && Outcome(Closest(old(state.Table()), user, K_SEED), DistTo(user), rpc, true,
                         ending, contacted, rounds, at, calls)
              && r == (if ending.Found? then [ending.addr] else [])
              && state.Table() == AddAll(HomeOf(state.nodeId), old(state.Table()), calls)
              && state.mailboxes == if r == [] then old(state.mailboxes)
                                    else Expiry.SetMailbox(old(state.mailboxes), user, r[0], later)
  {
    hide TableInv, HomeOf, DistTo, Injective, AddAll, Closest, Outcome, Records.ListsInv;
    var cached := state.LookupMailbox(user, instant);
    DistToInjective(user);
    if cached.Some? {
      return [cached.value], Walked, [], 0, 0, [];
    }
    ending, contacted, rounds, at, calls := KademliaLookup(state, user, rpc, later);
    r := if ending.Found? then [ending.addr] else [];
  }

  /** Looks for a peer's record in the cache first, then walks, and stores what it found. */
  method FindPeerInfo(state: DhtState, peerId: Key, rpc: Rpc, answers: InfoAnswers, arrival: seq<nat>, unix: nat)
    returns (r: Option<Records.PeerInfoRecord>, ending: Ending, contacted: seq<Peer>, queried: seq<Peer>, rounds: nat,
             ghost at: nat, ghost calls: seq<Peer>)
    requires state.Valid()
    modifies state`peerInfos, state.buckets
    ensures state.Valid() && Injective(DistTo(peerId))
    ensures var cached := Expiry.LookupInfo(old(state.peerInfos), peerId, unix);
            cached.Some? ==> r == cached && contacted == [] && state.peerInfos == old(state.peerInfos)
                             && state.Table() == old(state.Table())
    ensures var cached := Expiry.LookupInfo(old(state.peerInfos), peerId, unix);
            cached.None? ==>
              && Outcome(Closest(old(state.Table()), peerId, K_SEED), DistTo(peerId), rpc, false,
                         ending, contacted, rounds, at, calls)
              && (ending.Walked?
                ==> queried == Queried(contacted, peerId) && FirstToArrive(answers, queried, arrival, r))
              && (ending.Abandoned? ==> r.None?)
              && state.Table() == AddAll(HomeOf(state.nodeId), old(state.Table()), calls)
              && state.peerInfos == if r.Some? then old(state.peerInfos)[peerId := r.value] else old(state.peerInfos)
  {
    hide TableInv, HomeOf, DistTo, Injective, AddAll, Closest, Outcome, Records.ListsInv, Queried, FirstToArrive,
         NearestContacted;
    var cached := Expiry.LookupInfo(state.peerInfos, peerId, unix);
    DistToInjective(peerId);
    if cached.Some? {
      return cached, Walked, [], [], 0, 0, [];
    }
    r, ending, contacted, queried, rounds, at, calls := Lookups.FindPeerInfo(state, peerId, rpc, answers, arrival);
    if r.Some? {
      state.AddPeerInfoRecord(peerId, r.value);
    }
  }

  /** An operation that stores a mailbox record for `user`. */
  predicate Touches(op: Expiry.Op, user: Key) {
    (op.AnnounceMailbox? || op.AddMailbox?) && op.user == user
  }

  /** What a walk found is what the cache answers for the next 24 hours, in nanoseconds, and not a moment longer,
      whatever operations follow, expiries included, as long as none stores another record for that user. */
  lemma {:induction false} FoundIsCached(s: Expiry.State, user: Key, addr: NodeAddr, at: nat, ops: seq<Expiry.Op>,
                                         instant: nat)
    requires forall i :: 0 <= i < |ops| ==> !Touches(ops[i], user) && (ops[i].Expire? ==> ops[i].instant <= instant)
    ensures var found := s.(mailboxes := Expiry.SetMailbox(s.mailboxes, user, addr, at));
            Expiry.LookupMailbox(Expiry.Run(found, ops).mailboxes, user, instant)
            == if instant < at + 86_400_000_000_000 then Some(addr) else None
  {
    MailboxLasts(s.(mailboxes := Expiry.SetMailbox(s.mailboxes, user, addr, at)), user,
                 Records.MailboxRecord(addr, at + Records.MAILBOX_TTL), ops, instant);
  }

  /** Announcing a mailbox makes the own address, as it was set last, the answer for 24 hours. */
  lemma {:induction false} AnnouncedIsAnswered(s: Expiry.State, addr: NodeAddr, before: seq<Expiry.Op>, user: Key,
                                               at: nat, after: seq<Expiry.Op>, instant: nat)
    requires forall i :: 0 <= i < |before| ==> !before[i].SetSelfAddr?
    requires forall i :: 0 <= i < |after| ==>
                           !Touches(after[i], user) && (after[i].Expire? ==> after[i].instant <= instant)
    ensures var set1 := Expiry.Run(Expiry.Step(s, Expiry.SetSelfAddr(addr)), before);
            var announced := Expiry.Step(set1, Expiry.AnnounceMailbox(user, at));
            Expiry.LookupMailbox(Expiry.Run(announced, after).mailboxes, user, instant)
            == if instant < at + 86_400_000_000_000 then Some(addr) else None
  {
    var set1 := Expiry.Run(Expiry.Step(s, Expiry.SetSelfAddr(addr)), before);
    SelfAddrStays(Expiry.Step(s, Expiry.SetSelfAddr(addr)), before);
    FoundIsCached(set1, user, addr, at, after, instant);
    hide Expiry.Run, Expiry.LookupMailbox, Expiry.SetMailbox;
  }

  /** Announcing one while the own address is not known changes nothing. */
  lemma {:induction false} NotAnnouncedWithoutAddress(s: Expiry.State, ops: seq<Expiry.Op>, user: Key, at: nat)
    requires s.selfAddr.None? && forall i :: 0 <= i < |ops| ==> !ops[i].SetSelfAddr?
    ensures Expiry.Step(Expiry.Run(s, ops), Expiry.AnnounceMailbox(user, at)) == Expiry.Run(s, ops)
  {
    SelfAddrStays(s, ops);
  }

  lemma {:induction false} SelfAddrStays(s: Expiry.State, ops: seq<Expiry.Op>)
    requires forall i :: 0 <= i < |ops| ==> !ops[i].SetSelfAddr?
    ensures Expiry.Run(s, ops).selfAddr == s.selfAddr
  {
    hide Records.AddRecord, Records.AnnounceIn, Records.ExpireLists, Expiry.ExpireInfos, Expiry.ExpireMailboxes;
    if ops == [] {
    } else {
      SelfAddrStays(s, ops[..|ops| - 1]);
    }
  }

  // ---------- Peer info ----------

  /** An operation that stores a peer info record for `peerId`. */
  predicate Informs(op: Expiry.Op, peerId: Key) {
    (op.AnnouncePeerInfo? || op.AddPeerInfo?) && op.peerId == peerId
  }

  /** A peer info record that was announced or found is answered as long as it is less than 24 hours, in seconds, since
      its announcement, whatever operations follow, expiries included, as long as none stores another for that peer. */
  lemma {:induction false} InfoIsCached(s: Expiry.State, stored: Expiry.Op, ops: seq<Expiry.Op>, unix: nat)
    requires stored.AnnouncePeerInfo? || stored.AddPeerInfo?
    requires forall i :: 0 <= i < |ops| ==> !Informs(ops[i], stored.peerId) && (ops[i].Expire? ==> ops[i].unix' <= unix)
    ensures Expiry.LookupInfo(Expiry.Run(Expiry.Step(s, stored), ops).infos, stored.peerId, unix)
            == if unix < stored.info.announcedAt + 86_400 then Some(stored.info) else None
  {
    InfoLasts(Expiry.Step(s, stored), stored.peerId, stored.info, ops, unix);
  }

  /** The record of `peerId` is `rec`, or it is gone because it has expired by `unix`. */
  ghost predicate HoldsInfo(s: Expiry.State, peerId: Key, rec: Records.PeerInfoRecord, unix: nat) {
    (peerId in s.infos ==> s.infos[peerId] == rec) && (unix < rec.announcedAt + 86_400 ==> peerId in s.infos)
  }

  lemma {:induction false} InfoLasts(s: Expiry.State, peerId: Key, rec: Records.PeerInfoRecord, ops: seq<Expiry.Op>,
                                     unix: nat)
    requires HoldsInfo(s, peerId, rec, unix)
    requires forall i :: 0 <= i < |ops| ==> !Informs(ops[i], peerId) && (ops[i].Expire? ==> ops[i].unix' <= unix)
    ensures HoldsInfo(Expiry.Run(s, ops), peerId, rec, unix)
  {
    hide HoldsInfo, Expiry.Step;
    if ops == [] {
    } else {
      var n := |ops| - 1;
      InfoLasts(s, peerId, rec, ops[..n], unix);
      InfoStep(Expiry.Run(s, ops[..n]), peerId, rec, ops[n], unix);
    }
  }

  lemma {:induction false} InfoStep(s: Expiry.State, peerId: Key, rec: Records.PeerInfoRecord, op: Expiry.Op, unix: nat)
    requires HoldsInfo(s, peerId, rec, unix) && !Informs(op, peerId) && (op.Expire? ==> op.unix' <= unix)
    ensures HoldsInfo(Expiry.Step(s, op), peerId, rec, unix)
  {
    hide Records.AddRecord, Records.AnnounceIn, Records.ExpireLists, Expiry.ExpireMailboxes, Expiry.SetMailbox;
  }

  // ---------- Mailboxes, step by step ----------

  /** The mailbox record of `user` is `rec`, or it is gone because it has expired by `instant`. */
  ghost predicate Holds(s: Expiry.State, user: Key, rec: Records.MailboxRecord, instant: nat) {
    (user in s.mailboxes ==> s.mailboxes[user] == rec) && (rec.expiresAt > instant ==> user in s.mailboxes)
  }

  lemma {:induction false} MailboxLasts(s: Expiry.State, user: Key, rec: Records.MailboxRecord, ops: seq<Expiry.Op>,
                                        instant: nat)
    requires Holds(s, user, rec, instant)
    requires forall i :: 0 <= i < |ops| ==> !Touches(ops[i], user) && (ops[i].Expire? ==> ops[i].instant <= instant)
    ensures Holds(Expiry.Run(s, ops), user, rec, instant)
  {
    hide Holds, Expiry.Step;
    if ops == [] {
    } else {
      var n := |ops| - 1;
      MailboxLasts(s, user, rec, ops[..n], instant);
      MailboxStep(Expiry.Run(s, ops[..n]), user, rec, ops[n], instant);
    }
  }

  lemma {:induction false} MailboxStep(s: Expiry.State, user: Key, rec: Records.MailboxRecord, op: Expiry.Op,
                                       instant: nat)
    requires Holds(s, user, rec, instant) && !Touches(op, user) && (op.Expire? ==> op.instant <= instant)
    ensures Holds(Expiry.Step(s, op), user, rec, instant)
  {
    hide Records.AddRecord, Records.AnnounceIn, Records.ExpireLists, Expiry.ExpireInfos;
  }

  /** Storing it changes nobody else's answer, now or after any operations. */
  lemma {:induction false} OthersUnaffected(s: Expiry.State, user: Key, addr: NodeAddr, at: nat, ops: seq<Expiry.Op>,
                                            other: Key, instant: nat)
    requires other != user
    ensures var found := s.(mailboxes := Expiry.SetMailbox(s.mailboxes, user, addr, at));
            Expiry.LookupMailbox(Expiry.Run(found, ops).mailboxes, other, instant)
            == Expiry.LookupMailbox(Expiry.Run(s, ops).mailboxes, other, instant)
  {
    SameMailbox(s.(mailboxes := Expiry.SetMailbox(s.mailboxes, user, addr, at)), s, ops, other);
  }

  /** Two states with the same answer about `k`. */
  ghost predicate SameAbout(a: Expiry.State, b: Expiry.State, k: Key) {
    && a.selfAddr == b.selfAddr && (k in a.mailboxes <==> k in b.mailboxes)
    && (k in a.mailboxes ==> a.mailboxes[k] == b.mailboxes[k])
  }

  lemma {:induction false} SameMailbox(a: Expiry.State, b: Expiry.State, ops: seq<Expiry.Op>, k: Key)
    requires SameAbout(a, b, k)
    ensures SameAbout(Expiry.Run(a, ops), Expiry.Run(b, ops), k)
  {
    hide SameAbout, Expiry.Step;
    if ops == [] {
    } else {
      var n := |ops| - 1;
      SameMailbox(a, b, ops[..n], k);
      SameMailboxStep(Expiry.Run(a, ops[..n]), Expiry.Run(b, ops[..n]), ops[n], k);
    }
  }

  lemma {:induction false} SameMailboxStep(a: Expiry.State, b: Expiry.State, op: Expiry.Op, k: Key)
    requires SameAbout(a, b, k)
    ensures SameAbout(Expiry.Step(a, op), Expiry.Step(b, op), k)
  {
    hide Records.AddRecord, Records.AnnounceIn, Records.ExpireLists, Expiry.ExpireInfos;
  }

  /** Announces this node for a community and says whom to tell. A refused slot changes nothing. The slot
      is taken even when the own address is not known yet and nothing can be announced. */
  method RegisterCommunityPeer(state: DhtState, c: Key, ownPk: Key, instant: nat, unix: nat) returns (told: seq<Peer>)
    requires state.Valid()
    modifies state`lastAnnounce, state`communityPeers
    ensures state.Valid()
    ensures state.lastAnnounce == Cooldown.Acquire(old(state.lastAnnounce), c, instant, 60_000_000_000)
    ensures forall d :: d != c ==> (d in state.communityPeers <==> d in old(state.communityPeers))
    ensures forall d :: d != c && d in state.communityPeers ==> state.communityPeers[d] == old(state.communityPeers[d])
    ensures var granted := Cooldown.Free(old(state.lastAnnounce), c, instant, 60_000_000_000);
            if granted && state.selfAddr.Some? then
              && state.communityPeers
                == Records.AnnounceIn(old(state.communityPeers), c, ownPk, state.selfAddr.value, unix)
              && told == Closest(state.Table(), c, 20)
            else state.communityPeers == old(state.communityPeers) && told == []
  {
    hide TableInv, HomeOf, Closest, Records.ListsInv, Records.AnnounceIn;
    told := [];
    var granted := state.AcquireAnnounceSlot(c, instant, ANNOUNCE_COOLDOWN);
    if !granted {
      return;
    }
    if state.selfAddr.None? {
      return;
    }
    state.AnnounceCommunityPeer(c, ownPk, state.selfAddr.value, unix);
    told := state.ClosestPeers(c, 20);
  }
}
