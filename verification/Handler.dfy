/** One connection's request handler as the source writes it: a mutable session, a mutable store, and one
    method per request (crates/bitcord-core/src/node/handler.rs). Store operations succeed here; `Sessions`
    has the interleavings and the failures. */
module Handler {
  import opened Wrappers
  import opened Sessions

  datatype Response = Done | Error(code: nat)

  class NodeStore {
    var meta: MetaStore

    constructor ()
      ensures meta == map[]
    {
      meta := map[];
    }

    method GetCommunityMeta(c: Key) returns (r: Option<Meta>)
      ensures r == Lookup(meta, c, true)
    {
      r := if c in meta then Some(meta[c]) else None;
    }

    method SetCommunityMeta(c: Key, m: Meta)
      modifies this
      ensures meta == old(meta)[c := m]
    {
      meta := meta[c := m];
    }
  }

  class ClientSession {
    var clientPk: Option<Key>
    var joined: seq<Key>

    constructor ()
      ensures clientPk == None && joined == []
    {
      clientPk, joined := None, [];
    }

    ghost function AsValue(): Session
      reads this
    {
      Session(clientPk, joined, Idle)
    }
  }

  method HandleAuthenticate(env: Env, session: ClientSession, req: Request) returns (resp: Response)
    requires req.Authenticate?
    modifies session
    ensures session.joined == old(session.joined)
    ensures resp == if !env.validKey(req.pk) then Error(400)
                    else if !env.verifies(req.pk, req.nonce, req.sig) then Error(401) else Done
    ensures session.clientPk == if resp.Done? then Some(req.pk) else old(session.clientPk)
  {
    if !env.validKey(req.pk) {
      return Error(400);
    }
    if !env.verifies(req.pk, req.nonce, req.sig) {
      return Error(401);
    }
    session.clientPk := Some(req.pk);
    return Done;
  }

  /** A refused join changes nothing. An accepted one leaves stored metadata alone, or stores fresh
      metadata with this certificate if there was none; it joins the community once, and notifies about
      the first join only. */
  method HandleJoinCommunity(env: Env, session: ClientSession, store: NodeStore, req: Request, now: nat)
    returns (resp: Response, notified: Option<string>)
    requires req.JoinCommunity?
    modifies session, store
    ensures session.clientPk == old(session.clientPk)
    ensures var c := req.cert.communityPk;
            var d := JoinDecision(env, old(session.clientPk), Lookup(old(store.meta), c, true), req.cert, req.password,
                                  now);
            && (d.Refused? ==> resp == Error(d.code) && notified == None
                               && session.joined == old(session.joined) && store.meta == old(store.meta))
            && (!d.Refused? ==>
                  && resp == Done
                  && store.meta
                    == (if c in old(store.meta) then old(store.meta) else old(store.meta)[c := Fresh(req.cert)])
                  && session.joined
                    == (if c in old(session.joined) then old(session.joined) else old(session.joined) + [c])
                  && notified == (if c in old(session.joined) then None else req.communityId))
  {
    var cert := req.cert;
    notified := None;
    if session.clientPk.None? {
      return Error(401), None;
    }
    var isMember := false;
    var known := store.GetCommunityMeta(cert.communityPk);
    if known.Some? {
      isMember := exists u :: u in known.value.members && known.value.members[u].publicKey == session.clientPk.value;
    }
    if !env.validKey(cert.communityPk) {
      return Error(400), None;
    }
    if !isMember {
      if env.joinPassword.Some? {
        var provided := if req.password.Some? then req.password.value else "";
        if provided != env.joinPassword.value {
          return Error(403), None;
        }
      }
      if cert.nodePk != env.nodePk {
        return Error(403), None;
      }
      if !CertOk(env, cert, now) {
        return Error(403), None;
      }
    }
    var existing := store.GetCommunityMeta(cert.communityPk);
    var meta := if existing.Some? then existing.value else Fresh(cert);
    var current := store.GetCommunityMeta(cert.communityPk);
    if current.None? {
      store.SetCommunityMeta(cert.communityPk, meta);
    }
    if cert.communityPk !in session.joined {
      session.joined := session.joined + [cert.communityPk];
      notified := req.communityId;
    }
    return Done, notified;
  }

  /** A push needs a joined community; it replaces everything but the certificate. */
  method HandlePushManifest(env: Env, session: ClientSession, store: NodeStore, req: Request) returns (resp: Response)
    requires req.PushManifest?
    modifies store
    ensures resp == if MayUse(session.AsValue(), req.c) then Done else Error(403)
    ensures var found := Lookup(old(store.meta), req.c, true);
            var meta := if found.Some? then found.value else Fresh(Placeholder(env, req.c));
            store.meta == if resp.Done? then old(store.meta)[req.c := WithPayload(meta, req.payload)]
              else old(store.meta)
  {
    if !(session.clientPk.Some? && req.c in session.joined) {
      return Error(403);
    }
    var found := store.GetCommunityMeta(req.c);
    var meta := if found.Some? then found.value else Fresh(Placeholder(env, req.c));
    var members: map<string, Member> := map[];
    for i := 0 to |req.payload.members|
      invariant members == MembersOf(req.payload.members[..i])
    {
      members := members[req.payload.members[i].userId := req.payload.members[i]];
      assert req.payload.members[..i + 1][..i] == req.payload.members[..i];
    }
    assert req.payload.members[..|req.payload.members|] == req.payload.members;
    meta := meta.(manifest := Some(req.payload.manifest), channels := req.payload.channels,
                  channelKeys := req.payload.channelKeys, members := members);
    store.SetCommunityMeta(req.c, meta);
    return Done;
  }

  // ---------- The handler runs the machine without interruption ----------

  /** A whole request of one session: its first step and everything it still has to do. */
  ghost function Whole(env: Env, w: World, sid: nat, req: Request, now: nat): World {
    var a := StartRequest(env, w, sid, req, now, true);
    var b := AdvanceRequest(env, a, sid, true);
    var c := AdvanceRequest(env, b, sid, true);
    var d := AdvanceRequest(env, c, sid, true);
    AdvanceRequest(env, d, sid, true)
  }

  /** The events of a join that was let in. */
  ghost function JoinEvents(s: Session, sid: nat, c: Key, communityId: Option<string>): seq<Event> {
    if c in s.joined then [] else [Joined(sid, c)] + (if communityId.Some? then [Notified(sid, c)] else [])
  }

  /** Uninterrupted, the steps of a join add up to what the handler does, whatever else is going on: store,
      session, log and nothing else change as they do there. */
  lemma {:induction false} WholeJoin(env: Env, w: World, sid: nat, req: Request, now: nat)
    requires req.JoinCommunity? && Sess(w, sid).pc.Idle?
    ensures var s, c := Sess(w, sid), req.cert.communityPk;
            var d := JoinDecision(env, s.clientPk, Lookup(w.store, c, true), req.cert, req.password, now);
            Whole(env, w, sid, req, now)
            == if d.Refused? then w
               else World(if c in w.store then w.store else w.store[c := Fresh(req.cert)],
                          w.sessions[sid := if c in s.joined then s else s.(joined := s.joined + [c])],
                          w.log + JoinEvents(s, sid, c, req.communityId))
  {
    var s, c := Sess(w, sid), req.cert.communityPk;
    var d := JoinDecision(env, s.clientPk, Lookup(w.store, c, true), req.cert, req.password, now);
    hide JoinDecision;
    var a := StartRequest(env, w, sid, req, now, true);
    if d.Refused? {
      assert a == w;
    } else {
      assert a == SetSession(w, sid, s.(pc := Authorized(req.cert, req.communityId)));
      WholeAdmitted(env, a, sid);
    }
  }

  /** The rest of a join that was let in. */
  lemma {:induction false} WholeAdmitted(env: Env, a: World, sid: nat)
    requires sid in a.sessions && a.sessions[sid].pc.Authorized?
    ensures var s, cert := a.sessions[sid], a.sessions[sid].pc.cert;
            var c := cert.communityPk;
            var z := AdvanceRequest(env,
                AdvanceRequest(env, AdvanceRequest(env, AdvanceRequest(env, a, sid, true), sid, true),
                                                        sid, true), sid, true);
            z == World(if c in a.store then a.store else a.store[c := Fresh(cert)],
                       a.sessions[sid := Session(s.clientPk, if c in s.joined then s.joined else s.joined + [c], Idle)],
                       a.log + JoinEvents(s, sid, c, s.pc.communityId))
  {
    var s, cert, id := a.sessions[sid], a.sessions[sid].pc.cert, a.sessions[sid].pc.communityId;
    var c := cert.communityPk;
    var meta := if c in a.store then a.store[c] else Fresh(cert);
    var b := AdvanceRequest(env, a, sid, true);
    assert b == SetSession(a, sid, s.(pc := Prepared(cert, id, meta)));
    var e := AdvanceRequest(env, b, sid, true);
    if c in a.store {
      assert e == SetSession(a, sid, s.(pc := Joining(cert, id)));
      JoiningEnds(env, a, e, sid, s, cert, id);
    } else {
      assert e == SetSession(a, sid, s.(pc := Writing(cert, id, Fresh(cert))));
      var stored := a.(store := a.store[c := Fresh(cert)]);
      var f := AdvanceRequest(env, e, sid, true);
      assert f == SetSession(stored, sid, s.(pc := Joining(cert, id)));
      JoiningEnds(env, stored, f, sid, s, cert, id);
    }
  }

  lemma {:induction false} JoiningEnds(env: Env, w: World, f: World, sid: nat, s: Session, cert: Cert,
                                       id: Option<string>)
    requires sid in w.sessions && w.sessions[sid].joined == s.joined
             && f == SetSession(w, sid, s.(pc := Joining(cert, id)))
    ensures var c := cert.communityPk;
            var g := AdvanceRequest(env, f, sid, true);
            && g == World(w.store,
                          w.sessions[sid := Session(s.clientPk,
                                                    if c in s.joined then s.joined else s.joined + [c], Idle)],
                          w.log + JoinEvents(s, sid, c, id))
            && AdvanceRequest(env, g, sid, true) == g
  {
  }

  /** Likewise for a manifest push. */
  lemma {:induction false} WholePush(env: Env, w: World, sid: nat, req: Request, now: nat)
    requires req.PushManifest? && Sess(w, sid).pc.Idle?
    ensures var s, found := Sess(w, sid), Lookup(w.store, req.c, true);
            var meta := if found.Some? then found.value else Fresh(Placeholder(env, req.c));
            Whole(env, w, sid, req, now)
            == if MayUse(s, req.c) then
                 World(w.store[req.c := WithPayload(meta, req.payload)], w.sessions[sid := s],
                       w.log + [Accepted(sid, req.c)])
               else w
  {
    hide Placeholder, WithPayload;
    var s, found := Sess(w, sid), Lookup(w.store, req.c, true);
    var meta := WithPayload(if found.Some? then found.value else Fresh(Placeholder(env, req.c)), req.payload);
    var a := StartRequest(env, w, sid, req, now, true);
    if MayUse(s, req.c) {
      assert a == World(w.store, w.sessions[sid := s.(pc := Pushing(req.c, meta))], w.log + [Accepted(sid, req.c)]);
      var b := AdvanceRequest(env, a, sid, true);
      assert b == World(w.store[req.c := meta], w.sessions[sid := s], w.log + [Accepted(sid, req.c)]);
      assert AdvanceRequest(env, b, sid, true) == b;
    }
  }
}
