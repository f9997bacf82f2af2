/** Many client sessions over one community store (crates/bitcord-core/src/node/handler.rs). Requests of one
    connection run one after the other; requests of different connections interleave between any two
    store operations. Each step below is one store operation together with the session-local work around
    it. `ok` says whether the store operation succeeds: a failed read counts as nothing stored, a failed
    write stores nothing. Signature checks are parameters. */
module Sessions {
  import opened Bits
  import opened Wrappers
  import opened NodeIds

  type Key = NodeId

  datatype Cert = Cert(communityPk: Key, nodePk: Key, expiresAt: nat, signature: seq<Byte>)

  datatype Member = Member(userId: string, publicKey: Key)

  datatype Payload =
    Payload(manifest: seq<Byte>, channels: seq<seq<Byte>>, channelKeys: map<string, seq<Byte>>, members: seq<Member>)

  datatype Meta =
    Meta(cert: Cert, manifest: Option<seq<Byte>>, channels: seq<seq<Byte>>, channelKeys: map<string, seq<Byte>>,
         members: map<string, Member>)

  type MetaStore = map<Key, Meta>

  /** This node's key, its join password, and the signature checks. */
  datatype Env =
    Env(nodePk: Key, joinPassword: Option<string>, validKey: Key -> bool,
        verifies: (Key, seq<Byte>, seq<Byte>) -> bool, signed: Cert -> bool)

  datatype Request =
    | Authenticate(pk: Key, sig: seq<Byte>, nonce: seq<Byte>)
    | JoinCommunity(cert: Cert, communityId: Option<string>, password: Option<string>)
    | SendMessage(c: Key)
    | GetMessages(c: Key)
    | PushHistory(c: Key)
    | PushManifest(c: Key, payload: Payload)

  /** How far a session is with its current request. */
  datatype Pc =
    | Idle
    | Authorized(cert: Cert, communityId: Option<string>)
    | Prepared(cert: Cert, communityId: Option<string>, meta: Meta)
    | Writing(cert: Cert, communityId: Option<string>, meta: Meta)
    | Joining(cert: Cert, communityId: Option<string>)
    | Pushing(c: Key, meta: Meta)

  datatype Session = Session(clientPk: Option<Key>, joined: seq<Key>, pc: Pc)

  datatype Event =
    | Joined(sid: nat, c: Key)
    | Notified(sid: nat, c: Key)
    | Accepted(sid: nat, c: Key)
    | Relayed(sid: nat, filter: Option<Key>)

  /** `log` remembers what happened. */
  datatype World = World(store: MetaStore, sessions: map<nat, Session>, log: seq<Event>)

  datatype Step =
    | Start(sid: nat, req: Request, now: nat, ok: bool)
    | Advance(sid: nat, ok: bool)
    | Relay(sid: nat, filter: Option<Key>)

  const SERVER_START := World(map[], map[], [])

  // ---------- Decisions ----------

  function Lookup(store: MetaStore, c: Key, ok: bool): Option<Meta> {
    if ok && c in store then Some(store[c]) else None
  }

  predicate IsMember(meta: Option<Meta>, pk: Key) {
    meta.Some? && exists u :: u in meta.value.members && meta.value.members[u].publicKey == pk
  }

  /** The check of a hosting certificate: its signature and its expiry. */
  predicate CertOk(env: Env, cert: Cert, now: nat) {
    env.signed(cert) && now <= cert.expiresAt
  }

  datatype Decision = Refused(code: nat) | AsMember | ByCert

  function JoinDecision(env: Env, clientPk: Option<Key>, meta: Option<Meta>, cert: Cert, password: Option<string>,
                        now: nat)
    : Decision
  {
    if clientPk.None? then Refused(401)
    else if !env.validKey(cert.communityPk) then Refused(400)
    else if IsMember(meta, clientPk.value) then AsMember
    else if env.joinPassword.Some? && (if password.Some? then password.value else "") != env.joinPassword.value
    then Refused(403)
    else if cert.nodePk != env.nodePk then Refused(403)
    else if !CertOk(env, cert, now) then Refused(403)
    else ByCert
  }

  function Fresh(cert: Cert): Meta {
    Meta(cert, None, [], map[], map[])
  }

  /** The certificate `PushManifest` makes up when it finds no metadata. */
  function Placeholder(env: Env, c: Key): Cert {
    Cert(c, env.nodePk, 0xFFFF_FFFF_FFFF_FFFF, seq(64, i => 0))
  }

  function MembersOf(members: seq<Member>): map<string, Member> {
    if members == [] then map[]
    else MembersOf(members[..|members| - 1])[members[|members| - 1].userId := members[|members| - 1]]
  }

  function WithPayload(meta: Meta, p: Payload): Meta {
    Meta(meta.cert, Some(p.manifest), p.channels, p.channelKeys, MembersOf(p.members))
  }

  predicate MayUse(s: Session, c: Key) {
    s.clientPk.Some? && c in s.joined
  }

  predicate ShouldSend(s: Session, filter: Option<Key>) {
    if filter.Some? then filter.value in s.joined else s.clientPk.Some?
  }

  // ---------- Steps ----------

  function Sess(w: World, sid: nat): Session {
    if sid in w.sessions then w.sessions[sid] else Session(None, [], Idle)
  }

  function SetSession(w: World, sid: nat, s: Session): World {
    w.(sessions := w.sessions[sid := s])
  }

  function StartRequest(env: Env, w: World, sid: nat, req: Request, now: nat, ok: bool): World {
    var s := Sess(w, sid);
    if !s.pc.Idle? then w
    else
      match req
      case Authenticate(pk, sig, nonce) =>
        if env.validKey(pk) && env.verifies(pk, nonce, sig) then SetSession(w, sid, s.(clientPk := Some(pk))) else w
      case JoinCommunity(cert, communityId, password) =>
        var d := JoinDecision(env, s.clientPk, Lookup(w.store, cert.communityPk, ok), cert, password, now);
        if d.Refused? then w else SetSession(w, sid, s.(pc := Authorized(cert, communityId)))
      case PushManifest(c, payload) =>
        if !MayUse(s, c) then w
        else
          var found := Lookup(w.store, c, ok);
          var meta := if found.Some? then found.value else Fresh(Placeholder(env, c));
          SetSession(w.(log := w.log + [Accepted(sid, c)]), sid, s.(pc := Pushing(c, WithPayload(meta, payload))))
      case SendMessage(c) => if MayUse(s, c) then w.(log := w.log + [Accepted(sid, c)]) else w
      case GetMessages(c) => if MayUse(s, c) then w.(log := w.log + [Accepted(sid, c)]) else w
      case PushHistory(c) => if MayUse(s, c) then w.(log := w.log + [Accepted(sid, c)]) else w
  }

  /** The metadata a write leaves behind. */
  function Write(store: MetaStore, c: Key, meta: Meta, ok: bool): MetaStore {
    if ok then store[c := meta] else store
  }

  function AdvanceRequest(env: Env, w: World, sid: nat, ok: bool): World {
    var s := Sess(w, sid);
    match s.pc
    case Idle => w
    case Authorized(cert, communityId) =>
      var found := Lookup(w.store, cert.communityPk, ok);
      var meta := if found.Some? then found.value else Fresh(cert);
      SetSession(w, sid, s.(pc := Prepared(cert, communityId, meta)))
    case Prepared(cert, communityId, meta) =>
      var found := Lookup(w.store, cert.communityPk, ok);
      SetSession(w, sid, s.(pc := if found.None? then Writing(cert, communityId, meta) else Joining(cert, communityId)))
    case Writing(cert, communityId, meta) =>
      SetSession(w.(store := Write(w.store, cert.communityPk, meta, ok)), sid, s.(pc := Joining(cert, communityId)))
    case Joining(cert, communityId) =>
      var c := cert.communityPk;
      if c in s.joined then SetSession(w, sid, s.(pc := Idle))
      else
        var log := w.log + [Joined(sid, c)] + (if communityId.Some? then [Notified(sid, c)] else []);
        SetSession(w.(log := log), sid, s.(pc := Idle, joined := s.joined + [c]))
    case Pushing(c, meta) =>
      SetSession(w.(store := Write(w.store, c, meta, ok)), sid, s.(pc := Idle))
  }

  function Next(env: Env, w: World, step: Step): World {
    match step
    case Start(sid, req, now, ok) => StartRequest(env, w, sid, req, now, ok)
    case Advance(sid, ok) => AdvanceRequest(env, w, sid, ok)
    case Relay(sid, filter) =>
      if ShouldSend(Sess(w, sid), filter) then w.(log := w.log + [Relayed(sid, filter)]) else w
  }

  function Run(env: Env, w: World, steps: seq<Step>): World {
    if steps == [] then w else Next(env, Run(env, w, steps[..|steps| - 1]), steps[|steps| - 1])
  }

  // ---------- Sessions, store failures or not ----------

  ghost predicate NoDuplicates(s: seq<Key>) {
    forall i, j :: 0 <= i < j < |s| ==> s[i] != s[j]
  }

  ghost predicate SessionOk(s: Session) {
    && NoDuplicates(s.joined)
    && (s.clientPk.None? ==> s.joined == [] && s.pc.Idle?)
    && (s.pc.Pushing? ==> s.pc.c in s.joined)
  }

  /** What the log says about one event: an accepted request and a notification come after the join, a
      community-filtered push reaches a member only. */
  ghost predicate EventOk(w: World, i: nat)
    requires i < |w.log|
  {
    var e := w.log[i];
    match e
    case Joined(sid, c) => c in Sess(w, sid).joined
    case Notified(sid, c) => HasJoined(w.log[..i], sid, c) && !HasNotified(w.log[..i], sid, c)
    case Accepted(sid, c) => HasJoined(w.log[..i], sid, c)
    case Relayed(sid, filter) =>
      Sess(w, sid).clientPk.Some? && (filter.Some? ==> HasJoined(w.log[..i], sid, filter.value))
  }

  ghost predicate HasJoined(log: seq<Event>, sid: nat, c: Key) {
    Joined(sid, c) in log
  }

  ghost predicate HasNotified(log: seq<Event>, sid: nat, c: Key) {
    Notified(sid, c) in log
  }

  ghost predicate Safe(w: World) {
    && (forall sid :: sid in w.sessions ==> SessionOk(w.sessions[sid]))
    && (forall sid, c :: sid in w.sessions && c in w.sessions[sid].joined ==> HasJoined(w.log, sid, c))
    && (forall sid, c :: HasNotified(w.log, sid, c) ==> c in Sess(w, sid).joined)
    && forall i :: 0 <= i < |w.log| ==> EventOk(w, i)
  }

  /** Sessions only gain: an authenticated one stays authenticated, joined communities stay joined in
      order, and the log is never rewritten. */
  ghost predicate Gains(w: World, w': World) {
    && w.log <= w'.log
    && forall sid :: (Sess(w, sid).clientPk.Some? ==> Sess(w', sid).clientPk.Some?)
                     && Sess(w, sid).joined <= Sess(w', sid).joined
  }

  lemma {:induction false} NextGains(env: Env, w: World, step: Step)
    ensures Gains(w, Next(env, w, step))
  {
    hide StartRequest, AdvanceRequest;
    match step
    case Start(sid, req, now, ok) => StartGains(env, w, sid, req, now, ok);
    case Advance(sid, ok) => AdvanceGains(env, w, sid, ok);
    case Relay(sid, filter) =>
  }

  lemma {:induction false} StartGains(env: Env, w: World, sid: nat, req: Request, now: nat, ok: bool)
    ensures Gains(w, StartRequest(env, w, sid, req, now, ok))
  {
    hide JoinDecision, Lookup, WithPayload, Placeholder;
  }

  lemma {:induction false} AdvanceGains(env: Env, w: World, sid: nat, ok: bool)
    ensures Gains(w, AdvanceRequest(env, w, sid, ok))
  {
    hide Lookup, Write;
  }

  lemma {:induction false} EventStays(w: World, w': World, i: nat)
    requires Gains(w, w') && i < |w.log| && EventOk(w, i)
    ensures EventOk(w', i)
  {
    assert w'.log[..i] == w.log[..i] && w'.log[i] == w.log[i];
  }

  /** One session moves on without joining anything. */
  lemma {:induction false} SafeMove(w: World, w': World, sid: nat, s: Session)
    requires Safe(w) && w'.sessions == w.sessions[sid := s] && w'.log == w.log
    requires SessionOk(s) && s.joined == Sess(w, sid).joined && (Sess(w, sid).clientPk.Some? ==> s.clientPk.Some?)
    ensures Safe(w')
  {
    hide SessionOk, EventOk;
    assert Gains(w, w');
    forall i | 0 <= i < |w'.log|
      ensures EventOk(w', i)
    {
      EventStays(w, w', i);
    }
    forall k | k in w'.sessions
      ensures SessionOk(w'.sessions[k])
    {
    }
    forall k, c | HasNotified(w'.log, k, c)
      ensures c in Sess(w', k).joined
    {
      assert HasNotified(w.log, k, c);
    }
    forall k, c | k in w'.sessions && c in w'.sessions[k].joined
      ensures HasJoined(w'.log, k, c)
    {
      assert c in Sess(w, k).joined && k in w.sessions;
    }
  }

  /** One event about a session that may cause it is logged. */
  lemma {:induction false} SafeLog(w: World, w': World, e: Event)
    requires Safe(w) && w'.sessions == w.sessions && w'.log == w.log + [e]
    requires e.Accepted? || e.Relayed?
    requires e.Accepted? ==> e.c in Sess(w, e.sid).joined
    requires e.Relayed? ==> ShouldSend(Sess(w, e.sid), e.filter)
    ensures Safe(w')
  {
    hide SessionOk, EventOk;
    assert Gains(w, w');
    assert w'.log[..|w.log|] == w.log;
    forall i | 0 <= i < |w'.log|
      ensures EventOk(w', i)
    {
      if i < |w.log| {
        EventStays(w, w', i);
      } else {
        SafeEvent(w, w', e);
      }
    }
    forall k, c
      ensures HasNotified(w'.log, k, c) ==> HasNotified(w.log, k, c)
      ensures HasJoined(w.log, k, c) ==> HasJoined(w'.log, k, c)
    {
    }
  }

  lemma {:induction false} SafeEvent(w: World, w': World, e: Event)
    requires Safe(w) && w'.sessions == w.sessions && w'.log == w.log + [e]
    requires e.Accepted? || e.Relayed?
    requires e.Accepted? ==> e.c in Sess(w, e.sid).joined
    requires e.Relayed? ==> ShouldSend(Sess(w, e.sid), e.filter)
    ensures EventOk(w', |w.log|)
  {
    assert w'.log[..|w.log|] == w.log;
    assert e.sid in w.sessions ==> SessionOk(w.sessions[e.sid]);
  }

  /** A first join of a community is logged, with its notification if there is one. */
  lemma {:induction false} SafeJoin(w: World, w': World, sid: nat, s: Session, c: Key, notify: bool)
    requires Safe(w) && w'.sessions == w.sessions[sid := s]
    requires w'.log == w.log + [Joined(sid, c)] + (if notify then [Notified(sid, c)] else [])
    requires c !in Sess(w, sid).joined && s.joined == Sess(w, sid).joined + [c]
    requires SessionOk(s) && s.clientPk == Sess(w, sid).clientPk
    ensures Safe(w')
  {
    hide SessionOk, EventOk;
    var n := |w.log|;
    assert Gains(w, w');
    assert w'.log[n] == Joined(sid, c);
    assert w'.log[..n] == w.log;
    forall k, d | k in w'.sessions && d in w'.sessions[k].joined
      ensures HasJoined(w'.log, k, d)
    {
      if k == sid && d == c {
        assert w'.log[n] == Joined(k, d);
      } else {
        assert HasJoined(w.log, k, d);
        assert w.log <= w'.log;
      }
    }
    forall k, d | HasNotified(w'.log, k, d)
      ensures d in Sess(w', k).joined
    {
      if !(k == sid && d == c) {
        assert HasNotified(w.log, k, d);
      } else {
        assert s.joined[|s.joined| - 1] == c;
      }
    }
    forall i | 0 <= i < |w'.log|
      ensures EventOk(w', i)
    {
      if i < n {
        EventStays(w, w', i);
      } else {
        JoinEvents(w, w', sid, s, c, notify, i);
      }
    }
  }

  lemma {:induction false} JoinEvents(w: World, w': World, sid: nat, s: Session, c: Key, notify: bool, i: nat)
    requires Safe(w) && w'.sessions == w.sessions[sid := s]
    requires w'.log == w.log + [Joined(sid, c)] + (if notify then [Notified(sid, c)] else [])
    requires c !in Sess(w, sid).joined && s.joined == Sess(w, sid).joined + [c]
    requires |w.log| <= i < |w'.log|
    ensures EventOk(w', i)
  {
    var n := |w.log|;
    assert s.joined[|s.joined| - 1] == c;
    if i == n + 1 {
      assert w'.log[..i] == w.log + [Joined(sid, c)];
      assert w'.log[..i][n] == Joined(sid, c);
      assert !HasNotified(w.log, sid, c);
    }
  }

  lemma {:induction false} SessOk(w: World, sid: nat)
    requires Safe(w)
    ensures SessionOk(Sess(w, sid))
  {
  }

  lemma {:induction false} StartKeepsSafe(env: Env, w: World, sid: nat, req: Request, now: nat, ok: bool)
    requires Safe(w)
    ensures Safe(StartRequest(env, w, sid, req, now, ok))
  {
    SessOk(w, sid);
    var s, w' := Sess(w, sid), StartRequest(env, w, sid, req, now, ok);
    hide Safe, NoDuplicates, JoinDecision, WithPayload, Placeholder, Lookup;
    if s.pc.Idle? {
      match req
      case Authenticate(pk, sig, nonce) =>
        if w' != w {
          SafeMove(w, w', sid, s.(clientPk := Some(pk)));
        }
      case JoinCommunity(cert, communityId, password) =>
        RefusedUnlessAuthenticated(env, s.clientPk, Lookup(w.store, cert.communityPk, ok), cert, password, now);
        if w' != w {
          SafeMove(w, w', sid, s.(pc := Authorized(cert, communityId)));
        }
      case PushManifest(c, payload) =>
        if MayUse(s, c) {
          var logged := w.(log := w.log + [Accepted(sid, c)]);
          SafeLog(w, logged, Accepted(sid, c));
          SafeMove(logged, w', sid, w'.sessions[sid]);
        }
      case _ =>
        if MayUse(s, req.c) {
          SafeLog(w, w', Accepted(sid, req.c));
        }
    }
  }

  lemma {:induction false} RefusedUnlessAuthenticated(env: Env, clientPk: Option<Key>, meta: Option<Meta>, cert: Cert,
                                                      password: Option<string>, now: nat)
    ensures clientPk.None? ==> JoinDecision(env, clientPk, meta, cert, password, now).Refused?
  {
  }

  lemma {:induction false} AdvanceKeepsSafe(env: Env, w: World, sid: nat, ok: bool)
    requires Safe(w)
    ensures Safe(AdvanceRequest(env, w, sid, ok))
  {
    SessOk(w, sid);
    var s, w' := Sess(w, sid), AdvanceRequest(env, w, sid, ok);
    hide Safe, Write, Lookup;
    match s.pc
    case Idle =>
    case Joining(cert, communityId) =>
      if cert.communityPk in s.joined {
        SafeMove(w, w', sid, s.(pc := Idle));
      } else {
        SafeJoin(w, w', sid, w'.sessions[sid], cert.communityPk, communityId.Some?);
      }
    case _ =>
      SafeMove(w, w', sid, w'.sessions[sid]);
  }

  /** Session safety in every interleaved run, store failures included: joined communities never repeat
      and need authentication; every accepted send, read or push of a community, and every push relayed
      for it, follows a join of it on the same session; a join notification fires at most once per session
      and community. */
  lemma {:induction false} RunIsSafe(env: Env, steps: seq<Step>)
    ensures Safe(Run(env, SERVER_START, steps))
  {
    if steps == [] {
    } else {
      var u, step := steps[..|steps| - 1], steps[|steps| - 1];
      RunIsSafe(env, u);
      NextKeepsSafe(env, Run(env, SERVER_START, u), step);
    }
  }

  lemma {:induction false} NextKeepsSafe(env: Env, w: World, step: Step)
    requires Safe(w)
    ensures Safe(Next(env, w, step))
  {
    hide Safe, StartRequest, AdvanceRequest;
    match step
    case Start(sid, req, now, ok) => StartKeepsSafe(env, w, sid, req, now, ok);
    case Advance(sid, ok) => AdvanceKeepsSafe(env, w, sid, ok);
    case Relay(sid, filter) =>
      if ShouldSend(Sess(w, sid), filter) {
        SafeLog(w, Next(env, w, step), Relayed(sid, filter));
      }
  }

  /** Nothing a session gained is ever lost in the rest of a run. */
  lemma {:induction false} RunGains(env: Env, w: World, steps: seq<Step>)
    ensures Gains(w, Run(env, w, steps))
  {
    if steps == [] {
    } else {
      var u, step := steps[..|steps| - 1], steps[|steps| - 1];
      RunGains(env, w, u);
      NextGains(env, Run(env, w, u), step);
      GainsTransitive(w, Run(env, w, u), Run(env, w, steps));
    }
  }

  lemma {:induction false} GainsTransitive(a: World, b: World, c: World)
    requires Gains(a, b) && Gains(b, c)
    ensures Gains(a, c)
  {
  }

  // ---------- Keys ----------

  /** An authentication for `pk` on session `sid` whose signature verifies. */
  ghost predicate Proves(env: Env, step: Step, sid: nat, pk: Key) {
    && step.Start? && step.sid == sid && step.req.Authenticate? && step.req.pk == pk
    && env.validKey(pk) && env.verifies(pk, step.req.nonce, step.req.sig)
  }

  ghost predicate Proven(env: Env, steps: seq<Step>, sid: nat, pk: Key) {
    exists i :: 0 <= i < |steps| && Proves(env, steps[i], sid, pk)
  }

  ghost predicate KeysProven(env: Env, steps: seq<Step>, w: World) {
    forall sid, pk :: Sess(w, sid).clientPk == Some(pk) ==> Proven(env, steps, sid, pk)
  }

  /** A session's key changes only by a step that proves the new one. */
  lemma {:induction false} KeyChange(env: Env, w: World, step: Step, sid: nat)
    ensures var before, after := Sess(w, sid).clientPk, Sess(Next(env, w, step), sid).clientPk;
            after != before ==> after.Some? && Proves(env, step, sid, after.value)
  {
    hide JoinDecision, Lookup, WithPayload, Placeholder, Write;
  }

  /** In every run a session acts for a key only after a request on that session carried a signature that
      verifies under it. */
  lemma {:induction false} RunProvesKeys(env: Env, steps: seq<Step>)
    ensures KeysProven(env, steps, Run(env, SERVER_START, steps))
  {
    hide Next;
    if steps == [] {
    } else {
      var n := |steps| - 1;
      var u, w := steps[..n], Run(env, SERVER_START, steps[..n]);
      RunProvesKeys(env, u);
      forall sid, pk | Sess(Run(env, SERVER_START, steps), sid).clientPk == Some(pk)
        ensures Proven(env, steps, sid, pk)
      {
        KeyChange(env, w, steps[n], sid);
        if Sess(w, sid).clientPk == Some(pk) {
          var i :| 0 <= i < n && Proves(env, u[i], sid, pk);
          assert Proves(env, steps[i], sid, pk);
        } else {
          assert Proves(env, steps[n], sid, pk);
        }
      }
    }
  }
}
