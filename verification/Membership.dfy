/** Who is a member and what joining and pushing mean, said of the requests of a run
    (crates/bitcord-core/src/node/handler.rs:76-113, 211-287, 608-676, 713-838). */
module Membership {
  import opened Wrappers
  import opened Sessions
  import opened Admission
  import opened Handler

  // ---------- Members come from pushes ----------

  /** Step `k` of the run is a manifest push for `c` by a session that has joined it. */
  ghost predicate Pushes(env: Env, steps: seq<Step>, k: nat, c: Key)
    requires k < |steps|
  {
    && steps[k].Start? && steps[k].req.PushManifest? && steps[k].req.c == c
    && var s := Sess(At(env, steps, k), steps[k].sid); s.clientPk.Some? && c in s.joined
  }

  /** Some push of the run for `c` lists `m`. */
  ghost predicate Listed(env: Env, steps: seq<Step>, c: Key, m: Member) {
    exists k :: 0 <= k < |steps| && Pushes(env, steps, k, c) && m in steps[k].req.payload.members
  }

  ghost predicate MetaListed(env: Env, steps: seq<Step>, c: Key, meta: Meta) {
    forall u :: u in meta.members ==> meta.members[u].userId == u && Listed(env, steps, c, meta.members[u])
  }

  ghost predicate PcListed(env: Env, steps: seq<Step>, pc: Pc) {
    match pc
    case Prepared(cert, _, meta) => MetaListed(env, steps, cert.communityPk, meta)
    case Writing(cert, _, meta) => MetaListed(env, steps, cert.communityPk, meta)
    case Pushing(c, meta) => MetaListed(env, steps, c, meta)
    case _ => true
  }

  ghost predicate AllListed(env: Env, steps: seq<Step>, w: World) {
    && (forall c :: c in w.store ==> MetaListed(env, steps, c, w.store[c]))
    && forall sid :: PcListed(env, steps, Sess(w, sid).pc)
  }

  lemma {:induction false} ListedStays(env: Env, u: seq<Step>, step: Step, c: Key, m: Member)
    requires Listed(env, u, c, m)
    ensures Listed(env, u + [step], c, m)
  {
    hide At;
    var k :| 0 <= k < |u| && Pushes(env, u, k, c) && m in u[k].req.payload.members;
    SamePast(env, u, step, k);
    assert (u + [step])[k] == u[k];
    assert Pushes(env, u + [step], k, c);
  }

  lemma {:induction false} MetaStays(env: Env, u: seq<Step>, step: Step, c: Key, meta: Meta)
    requires MetaListed(env, u, c, meta)
    ensures MetaListed(env, u + [step], c, meta)
  {
    hide Listed;
    forall x | x in meta.members
      ensures Listed(env, u + [step], c, meta.members[x])
    {
      ListedStays(env, u, step, c, meta.members[x]);
    }
  }

  lemma {:induction false} ListedNow(env: Env, u: seq<Step>, step: Step, c: Key, m: Member)
    requires step.Start? && step.req.PushManifest? && step.req.c == c && m in step.req.payload.members
    requires MayUse(Sess(Run(env, SERVER_START, u), step.sid), c)
    ensures Listed(env, u + [step], c, m)
  {
    hide Run;
    SamePast(env, u, step, |u|);
    LastStep(env, u, step);
    assert (u + [step])[|u|] == step;
    assert Pushes(env, u + [step], |u|, c);
  }

  /** The member that stands for a user identifier in a list: the last one with it. */
  ghost predicate LastWithId(members: seq<Member>, j: nat) {
    j < |members| && forall l :: j < l < |members| ==> members[l].userId != members[j].userId
  }

  /** A member map holds exactly the last member of the list for every user identifier. */
  lemma {:induction false} MembersAre(members: seq<Member>, user: string, m: Member)
    ensures user in MembersOf(members) && MembersOf(members)[user] == m <==>
            exists j :: 0 <= j < |members| && LastWithId(members, j) && members[j] == m && m.userId == user
  {
    if members == [] {
    } else {
      var n := |members| - 1;
      var u, last := members[..n], members[n];
      MembersAre(u, user, m);
      assert LastWithId(members, n);
      assert forall j: nat :: j < n ==> u[j] == members[j];
      if last.userId == user {
        forall j | 0 <= j < n && LastWithId(members, j)
          ensures members[j].userId != user
        {
        }
      } else {
        if j :| 0 <= j < n && LastWithId(u, j) && u[j] == m && m.userId == user {
          assert LastWithId(members, j);
        }
        if j :| 0 <= j < |members| && LastWithId(members, j) && members[j] == m && m.userId == user {
          assert LastWithId(u, j);
        }
      }
    }
  }

  lemma {:induction false} PushedMeta(env: Env, u: seq<Step>, step: Step, c: Key, meta: Meta, p: Payload)
    requires step.Start? && step.req == PushManifest(c, p) && MayUse(Sess(Run(env, SERVER_START, u), step.sid), c)
    ensures MetaListed(env, u + [step], c, WithPayload(meta, p))
  {
    hide Run, Listed, MembersOf;
    var after := WithPayload(meta, p);
    forall x | x in after.members
      ensures after.members[x].userId == x && Listed(env, u + [step], c, after.members[x])
    {
      MembersAre(p.members, x, after.members[x]);
      ListedNow(env, u, step, c, after.members[x]);
    }
  }

  /** The metadata a session has after one step of its own: empty, read from the store, kept, or pushed. */
  lemma {:induction false} PcMeta(env: Env, w: World, step: Step, sid: nat)
    ensures var pc, pc' := Sess(w, sid).pc, Sess(Next(env, w, step), sid).pc;
            match pc'
            case Prepared(cert, _, meta) =>
              pc' == pc || meta.members == map[] || (cert.communityPk in w.store && meta == w.store[cert.communityPk])
            case Writing(cert, _, meta) => pc' == pc || (pc.Prepared? && pc.cert == cert && pc.meta == meta)
            case Pushing(c, meta) =>
              || pc' == pc
              || (&& step.Start? && step.sid == sid && step.req.PushManifest? && step.req.c == c
                  && MayUse(Sess(w, sid), c)
                  && exists old1 :: meta == WithPayload(old1, step.req.payload))
            case _ => true
  {
    hide JoinDecision, Placeholder, WithPayload;
    var s := Sess(w, sid);
    if step.Start? && step.sid == sid && step.req.PushManifest? && s.pc.Idle? && MayUse(s, step.req.c) {
      var found := Lookup(w.store, step.req.c, step.ok);
      var meta := if found.Some? then found.value else Fresh(Placeholder(env, step.req.c));
      assert Sess(Next(env, w, step), sid).pc == Pushing(step.req.c, WithPayload(meta, step.req.payload));
    }
  }

  /** What a step stores for a community: what was there, or what the session was about to write. */
  lemma {:induction false} StoreMeta(env: Env, w: World, step: Step, c: Key)
    requires c in Next(env, w, step).store
    ensures var pc, meta := Sess(w, step.sid).pc, Next(env, w, step).store[c];
            || (c in w.store && meta == w.store[c])
            || (pc.Writing? && pc.cert.communityPk == c && meta == pc.meta)
            || (pc.Pushing? && pc.c == c && meta == pc.meta)
  {
    hide JoinDecision, WithPayload, Placeholder, Lookup;
  }

  lemma {:induction false} PcListedNext(env: Env, u: seq<Step>, step: Step, sid: nat)
    requires AllListed(env, u, Run(env, SERVER_START, u))
    ensures PcListed(env, u + [step], Sess(Run(env, SERVER_START, u + [step]), sid).pc)
  {
    var w := Run(env, SERVER_START, u);
    assert PcListed(env, u, Sess(w, sid).pc);
    LastStep(env, u, step);
    hide Run, Next, Sess, WithPayload;
    PcMeta(env, w, step, sid);
    var pc, pc' := Sess(w, sid).pc, Sess(Next(env, w, step), sid).pc;
    if pc' == pc {
      SamePcListed(env, u, step, pc);
    } else {
      hide MetaListed;
      match pc'
      case Prepared(cert, _, meta) =>
        if meta.members == map[] {
          NoMembers(env, u + [step], cert.communityPk, meta);
        } else {
          MetaStays(env, u, step, cert.communityPk, meta);
        }
      case Writing(cert, _, meta) => MetaStays(env, u, step, cert.communityPk, meta);
      case Pushing(c, meta) =>
        var old1 :| meta == WithPayload(old1, step.req.payload);
        PushedMeta(env, u, step, c, old1, step.req.payload);
      case _ =>
    }
  }

  lemma {:induction false} NoMembers(env: Env, steps: seq<Step>, c: Key, meta: Meta)
    requires meta.members == map[]
    ensures MetaListed(env, steps, c, meta)
  {
  }

  lemma {:induction false} SamePcListed(env: Env, u: seq<Step>, step: Step, pc: Pc)
    requires PcListed(env, u, pc)
    ensures PcListed(env, u + [step], pc)
  {
    hide MetaListed;
    match pc
    case Prepared(cert, _, meta) => MetaStays(env, u, step, cert.communityPk, meta);
    case Writing(cert, _, meta) => MetaStays(env, u, step, cert.communityPk, meta);
    case Pushing(c, meta) => MetaStays(env, u, step, c, meta);
    case _ =>
  }

  lemma {:induction false} StoreListedNext(env: Env, u: seq<Step>, step: Step, c: Key)
    requires AllListed(env, u, Run(env, SERVER_START, u)) && c in Run(env, SERVER_START, u + [step]).store
    ensures MetaListed(env, u + [step], c, Run(env, SERVER_START, u + [step]).store[c])
  {
    var w := Run(env, SERVER_START, u);
    assert PcListed(env, u, Sess(w, step.sid).pc);
    LastStep(env, u, step);
    hide Run, Next, Sess, MetaListed;
    StoreMeta(env, w, step, c);
    MetaStays(env, u, step, c, Next(env, w, step).store[c]);
  }

  /** In every interleaved run, store failures included, every stored member was listed by some accepted push. */
  lemma {:induction false} MembersWerePushed(env: Env, steps: seq<Step>)
    ensures AllListed(env, steps, Run(env, SERVER_START, steps))
  {
    if steps == [] {
    } else {
      var u, step := steps[..|steps| - 1], steps[|steps| - 1];
      assert steps == u + [step];
      MembersWerePushed(env, u);
      var w := Run(env, SERVER_START, steps);
      hide Run, MetaListed, PcListed, Sess;
      forall c | c in w.store
        ensures MetaListed(env, steps, c, w.store[c])
      {
        StoreListedNext(env, u, step, c);
      }
      forall sid
        ensures PcListed(env, steps, Sess(w, sid).pc)
      {
        PcListedNext(env, u, step, sid);
      }
    }
  }

  /** In every run, store failures included: whoever gets into a join without the password and a valid certificate has a
      key that an earlier accepted manifest push for that community lists. */
  lemma {:induction false} StrangersNeedCertificates(env: Env, u: seq<Step>, step: Step, sid: nat, cert: Cert)
    requires var w := Run(env, SERVER_START, u);
             Busy(Sess(Next(env, w, step), sid), cert) && !Busy(Sess(w, sid), cert)
    ensures step.Start? && step.sid == sid && step.req.JoinCommunity? && step.req.cert == cert
    ensures var key := Sess(Run(env, SERVER_START, u), sid).clientPk;
            && key.Some?
            && (ByCertificate(env, cert, step.req.password, step.now)
                || exists m :: Listed(env, u, cert.communityPk, m) && m.publicKey == key.value)
  {
    var w := Run(env, SERVER_START, u);
    BusyStep(env, w, step, sid, cert);
    MembersWerePushed(env, u);
    hide Run, Next, Busy, Listed;
    if !ByCertificate(env, cert, step.req.password, step.now) {
      var key, meta := Sess(w, sid).clientPk.value, Lookup(w.store, cert.communityPk, step.ok);
      assert IsMember(meta, key);
      var x :| x in meta.value.members && meta.value.members[x].publicKey == key;
      assert MetaListed(env, u, cert.communityPk, meta.value);
      assert Listed(env, u, cert.communityPk, meta.value.members[x]);
    }
  }

  // ---------- What a push means ----------

  /** A whole push of a session that has joined the community: everything but the certificate is what was pushed, and
      for every user identifier the last member listed with it is the member. */
  lemma {:induction false} PushMeans(env: Env, w: World, sid: nat, c: Key, p: Payload, now: nat, user: string,
                                     m: Member)
    requires Sess(w, sid).pc.Idle? && Sess(w, sid).clientPk.Some? && c in Sess(w, sid).joined
    ensures var w' := Whole(env, w, sid, PushManifest(c, p), now);
            && c in w'.store
            && var meta := w'.store[c];
            && meta.manifest == Some(p.manifest) && meta.channels == p.channels && meta.channelKeys == p.channelKeys
            && (c in w.store ==> meta.cert == w.store[c].cert)
            && (user in meta.members && meta.members[user] == m <==>
                  exists j :: 0 <= j < |p.members| && LastWithId(p.members, j) && p.members[j] == m && m.userId == user)
            && (forall d :: d != c ==> (d in w'.store <==> d in w.store))
            && (forall d :: d != c && d in w.store ==> w'.store[d] == w.store[d])
  {
    WholePush(env, w, sid, PushManifest(c, p), now);
    MembersAre(p.members, user, m);
    hide Whole, MembersOf, Placeholder, LastWithId;
  }

  /** Right after a whole push, an idle session that holds a key starts a join of the community, whatever
      certificate and password it presents, if and only if the push lists the key with a member that is the
      last for its user identifier, or else the password is right and the certificate valid. */
  lemma {:induction false} LetInAfterPushIff(env: Env, w: World, sid: nat, c: Key, p: Payload, now: nat, other: nat,
                                             cert: Cert, id: Option<string>, password: Option<string>, later: nat)
    requires Sess(w, sid).pc.Idle? && Sess(w, sid).clientPk.Some? && c in Sess(w, sid).joined
    requires Sess(w, other).pc.Idle? && Sess(w, other).clientPk.Some? && cert.communityPk == c && env.validKey(c)
    ensures var w' := Whole(env, w, sid, PushManifest(c, p), now);
            var key := Sess(w, other).clientPk.value;
            var after := Next(env, w', Start(other, JoinCommunity(cert, id, password), later, true));
            if (exists j :: 0 <= j < |p.members| && LastWithId(p.members, j) && p.members[j].publicKey == key)
               || ByCertificate(env, cert, password, later)
            then Sess(after, other).pc == Authorized(cert, id)
            else after == w'
  {
    var w' := Whole(env, w, sid, PushManifest(c, p), now);
    var key := Sess(w, other).clientPk.value;
    WholePush(env, w, sid, PushManifest(c, p), now);
    assert Sess(w', other) == Sess(w, other) && c in w'.store && w'.store[c].members == MembersOf(p.members);
    hide Whole, WithPayload, MembersOf, Placeholder;
    MemberIff(w'.store[c], p.members, key);
    DecisionMeans(env, w', other, cert, password, later, true);
    hide JoinDecision, ByCertificate, LastWithId, IsMember;
  }

  lemma {:induction false} MemberIff(meta: Meta, members: seq<Member>, key: Key)
    requires meta.members == MembersOf(members)
    ensures IsMember(Some(meta), key) <==>
            exists j :: 0 <= j < |members| && LastWithId(members, j) && members[j].publicKey == key
  {
    hide MembersOf;
    if IsMember(Some(meta), key) {
      var x :| x in meta.members && meta.members[x].publicKey == key;
      MembersAre(members, x, meta.members[x]);
    }
    if j :| 0 <= j < |members| && LastWithId(members, j) && members[j].publicKey == key {
      MembersAre(members, members[j].userId, members[j]);
      assert members[j].userId in meta.members;
    }
  }

  // ---------- What a join means ----------

  /** Why a join is refused: 401 without authentication, else 400 for a malformed community key, else 403. */
  lemma {:induction false} RefusalCodes(env: Env, w: World, sid: nat, cert: Cert, password: Option<string>, now: nat,
                                        ok: bool)
    requires Sess(w, sid).pc.Idle? && !Allowed(env, w, sid, cert, password, now, ok)
    ensures var key := Sess(w, sid).clientPk;
            JoinDecision(env, key, Lookup(w.store, cert.communityPk, ok), cert, password, now)
            == Refused(if key.None? then 401 else if !env.validKey(cert.communityPk) then 400 else 403)
  {
  }

  /** A whole first join of a community that nobody has stored: metadata with this certificate and nothing else,
      one event for the join, and one for the notification if a community identifier was given. */
  lemma {:induction false} FirstJoinMeans(env: Env, w: World, sid: nat, cert: Cert, id: Option<string>,
                                          password: Option<string>, now: nat)
    requires var c := cert.communityPk;
             Allowed(env, w, sid, cert, password, now, true) && c !in w.store && c !in Sess(w, sid).joined
    ensures var c := cert.communityPk;
            var w' := Whole(env, w, sid, JoinCommunity(cert, id, password), now);
            && w'.store == w.store[c := Meta(cert, None, [], map[], map[])]
            && Sess(w', sid) == Session(Sess(w, sid).clientPk, Sess(w, sid).joined + [c], Idle)
            && w'.log == w.log + (if id.Some? then [Joined(sid, c), Notified(sid, c)] else [Joined(sid, c)])
  {
    DecisionMeans(env, w, sid, cert, password, now, true);
    WholeJoin(env, w, sid, JoinCommunity(cert, id, password), now);
    hide Whole, JoinDecision, Allowed;
    var c := cert.communityPk;
    assert Handler.JoinEvents(Sess(w, sid), sid, c, id)
        == if id.Some? then [Joined(sid, c), Notified(sid, c)] else [Joined(sid, c)];
  }

  /** The made-up certificate names the community and this node, has 64 zero bytes for a signature and, while
      the time in seconds fits 64 bits, never expires: it lacks nothing but a valid signature. */
  lemma {:induction false} PlaceholderIs(env: Env, c: Key, now: nat)
    requires now < 0x1_0000_0000_0000_0000
    ensures var cert := Placeholder(env, c);
            && cert.communityPk == c && cert.nodePk == env.nodePk
            && |cert.signature| == 64 && (forall i :: 0 <= i < 64 ==> cert.signature[i] == 0)
            && (CertOk(env, cert, now) <==> env.signed(cert))
  {
  }

  // ---------- What being joined means ----------

  /** In every reachable state: a request for a community on an idle session is accepted if and only if that session has
      joined it, whichever of the four requests it is; otherwise it changes nothing. */
  lemma {:induction false} ServedIff(env: Env, steps: seq<Step>, sid: nat, req: Request, now: nat, ok: bool)
    requires Sess(Run(env, SERVER_START, steps), sid).pc.Idle?
    requires req.SendMessage? || req.GetMessages? || req.PushHistory? || req.PushManifest?
    ensures var w := Run(env, SERVER_START, steps);
            var w' := Next(env, w, Start(sid, req, now, ok));
            if req.c in Sess(w, sid).joined then w'.log == w.log + [Accepted(sid, req.c)] else w' == w
  {
    RunIsSafe(env, steps);
    SessOk(Run(env, SERVER_START, steps), sid);
    hide Run, Safe, WithPayload, Placeholder, NoDuplicates;
  }

  /** In every reachable state a session is sent a push for a community if and only if it has joined it, and a push for
      everyone if and only if it is authenticated. */
  lemma {:induction false} SentIff(env: Env, steps: seq<Step>, sid: nat, filter: Option<Key>)
    ensures var w := Run(env, SERVER_START, steps);
            var w' := Next(env, w, Relay(sid, filter));
            if (filter.Some? && filter.value in Sess(w, sid).joined) || (filter.None? && Sess(w, sid).clientPk.Some?)
            then w'.log == w.log + [Relayed(sid, filter)]
            else w' == w
  {
  }
}
