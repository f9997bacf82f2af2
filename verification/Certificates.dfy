/** What every run of the session machine keeps about stored hosting certificates
    (crates/bitcord-core/src/node/handler.rs:608-650, 713-838). */
module Certificates {
  import opened Bits
  import opened Wrappers
  import opened Sessions
  import opened Admission

  /** No store operation of the run fails. */
  ghost predicate FaultFree(steps: seq<Step>) {
    forall i :: 0 <= i < |steps| ==> Sound(steps[i])
  }

  predicate Sound(step: Step) {
    step.Relay? || step.ok
  }

  // ---------- Joined communities are stored ----------

  /** Whoever has joined a community, or is about to, or pushes to it, finds metadata for it. */
  ghost predicate SessionStored(store: MetaStore, s: Session) {
    && (forall c :: c in s.joined ==> c in store)
    && (s.pc.Joining? ==> s.pc.cert.communityPk in store)
    && (s.pc.Pushing? ==> s.pc.c in store)
  }

  ghost predicate StoreInv(w: World) {
    forall sid :: SessionStored(w.store, Sess(w, sid))
  }

  lemma {:induction false} StartKeepsStored(env: Env, w: World, sid: nat, req: Request, now: nat)
    requires SessionStored(w.store, Sess(w, sid))
    ensures var w' := StartRequest(env, w, sid, req, now, true);
            w'.store == w.store && SessionStored(w.store, Sess(w', sid)) && OthersKeep(w, w', sid)
  {
    hide JoinDecision, WithPayload, Placeholder, Lookup;
  }

  lemma {:induction false} AdvanceKeepsStored(env: Env, w: World, sid: nat)
    requires SessionStored(w.store, Sess(w, sid))
    ensures var w' := AdvanceRequest(env, w, sid, true);
            w.store.Keys <= w'.store.Keys && SessionStored(w'.store, Sess(w', sid)) && OthersKeep(w, w', sid)
  {
  }

  /** What a step of a given session leaves alone: the other sessions. */
  ghost predicate OthersKeep(w: World, w': World, sid: nat) {
    forall k: nat :: k != sid ==> Sess(w', k) == Sess(w, k)
  }

  lemma {:induction false} StoredStays(w: World, w': World, sid: nat)
    requires StoreInv(w) && w.store.Keys <= w'.store.Keys
    requires OthersKeep(w, w', sid) && SessionStored(w'.store, Sess(w', sid))
    ensures StoreInv(w')
  {
    hide Sess;
    forall k
      ensures SessionStored(w'.store, Sess(w', k))
    {
      if k != sid {
        assert SessionStored(w.store, Sess(w, k));
      }
    }
  }

  lemma {:induction false} StepKeepsStored(env: Env, w: World, step: Step)
    requires StoreInv(w) && Sound(step)
    ensures StoreInv(Next(env, w, step)) && w.store.Keys <= Next(env, w, step).store.Keys
  {
    var w' := Next(env, w, step);
    assert SessionStored(w.store, Sess(w, step.sid));
    if step.Relay? {
      assert w'.store == w.store && w'.sessions == w.sessions;
    }
    hide StoreInv, SessionStored, StartRequest, AdvanceRequest, Sess;
    match step
    case Start(sid, req, now, ok) =>
      StartKeepsStored(env, w, sid, req, now);
      StoredStays(w, w', sid);
    case Advance(sid, ok) =>
      AdvanceKeepsStored(env, w, sid);
      StoredStays(w, w', sid);
    case Relay(sid, filter) =>
      SameSessions(w, w');
  }

  lemma {:induction false} SameSessions(w: World, w': World)
    requires StoreInv(w) && w'.store == w.store && w'.sessions == w.sessions
    ensures StoreInv(w')
  {
    forall sid
      ensures SessionStored(w'.store, Sess(w', sid))
    {
      assert SessionStored(w.store, Sess(w, sid));
    }
  }

  /** In every run without store failures a session that has joined a community finds its metadata. */
  lemma {:induction false} RunKeepsStored(env: Env, steps: seq<Step>)
    requires FaultFree(steps)
    ensures StoreInv(Run(env, SERVER_START, steps))
  {
    if steps == [] {
    } else {
      var u, step := steps[..|steps| - 1], steps[|steps| - 1];
      RunKeepsStored(env, u);
      assert Sound(steps[|steps| - 1]);
      hide StoreInv, Next;
      StepKeepsStored(env, Run(env, SERVER_START, u), step);
    }
  }

  // ---------- Stored certificates were checked by the join that stored them ----------

  /** Step `i` starts a join that has the password and a valid certificate. */
  ghost predicate Checks(env: Env, steps: seq<Step>, i: nat, sid: nat, cert: Cert)
    requires i < |steps|
  {
    Starts(env, steps, i, sid, cert) && ByCertificate(env, cert, steps[i].req.password, steps[i].now)
  }

  /** The session is in the middle of such a join. */
  ghost predicate Checked(env: Env, steps: seq<Step>, sid: nat, cert: Cert) {
    exists i :: 0 <= i < |steps| && Checks(env, steps, i, sid, cert) && BusySince(env, steps, i, |steps|, sid, cert)
  }

  /** Step `i` starts such a join and step `j` of the same join stores the certificate. */
  ghost predicate Stores(env: Env, steps: seq<Step>, i: nat, j: nat, sid: nat, cert: Cert)
    requires i < j < |steps|
  {
    && Checks(env, steps, i, sid, cert) && BusySince(env, steps, i, j, sid, cert)
    && steps[j] == Advance(sid, true) && Sess(At(env, steps, j), sid).pc.Writing?
    && cert.communityPk in At(env, steps, j + 1).store && At(env, steps, j + 1).store[cert.communityPk].cert == cert
  }

  ghost predicate Stored(env: Env, steps: seq<Step>, c: Key, cert: Cert) {
    cert.communityPk == c && exists i, j, sid :: 0 <= i < j < |steps| && Stores(env, steps, i, j, sid, cert)
  }

  /** What a session in the middle of a request knows about the certificate it would write. */
  ghost predicate PcOk(env: Env, steps: seq<Step>, store: MetaStore, sid: nat, pc: Pc) {
    match pc
    case Idle => true
    case Authorized(cert, _) => cert.communityPk in store || Checked(env, steps, sid, cert)
    case Prepared(cert, _, meta) => cert.communityPk in store || (Checked(env, steps, sid, cert) && meta.cert == cert)
    case Writing(cert, _, meta) => Checked(env, steps, sid, cert) && meta.cert == cert
    case Joining(cert, _) => true
    case Pushing(c, meta) => Stored(env, steps, c, meta.cert)
  }

  ghost predicate StoreChecked(env: Env, steps: seq<Step>, w: World) {
    forall c :: c in w.store ==> Stored(env, steps, c, w.store[c].cert)
  }

  ghost predicate CertInv(env: Env, steps: seq<Step>, w: World) {
    && StoreChecked(env, steps, w)
    && forall sid :: PcOk(env, steps, w.store, sid, Sess(w, sid).pc)
  }

  lemma {:induction false} ChecksStays(env: Env, u: seq<Step>, step: Step, i: nat, sid: nat, cert: Cert)
    requires i < |u| && Checks(env, u, i, sid, cert)
    ensures Checks(env, u + [step], i, sid, cert)
  {
    hide Starts, ByCertificate;
    StartsStays(env, u, step, i, sid, cert);
    assert Starts(env, u + [step], i, sid, cert);
    IsStart(env, u, i, sid, cert);
  }

  lemma {:induction false} IsStart(env: Env, u: seq<Step>, i: nat, sid: nat, cert: Cert)
    requires i < |u| && Starts(env, u, i, sid, cert)
    ensures u[i].Start? && u[i].req.JoinCommunity?
  {
  }

  lemma {:induction false} CheckedNext(env: Env, u: seq<Step>, step: Step, sid: nat, cert: Cert)
    requires Checked(env, u, sid, cert) && Busy(Sess(Run(env, SERVER_START, u + [step]), sid), cert)
    ensures Checked(env, u + [step], sid, cert)
  {
    hide Checks, BusySince, Busy, Run;
    var i :| 0 <= i < |u| && Checks(env, u, i, sid, cert) && BusySince(env, u, i, |u|, sid, cert);
    ChecksStays(env, u, step, i, sid, cert);
    BusyOn(env, u, step, i, sid, cert);
    assert Checks(env, u + [step], i, sid, cert);
  }

  lemma {:induction false} CheckedNew(env: Env, u: seq<Step>, step: Step, sid: nat, cert: Cert)
    requires step.Start? && step.sid == sid && step.req.JoinCommunity? && step.req.cert == cert
    requires Allowed(env, Run(env, SERVER_START, u), sid, cert, step.req.password, step.now, step.ok)
    requires ByCertificate(env, cert, step.req.password, step.now)
    requires Busy(Sess(Run(env, SERVER_START, u + [step]), sid), cert)
    ensures Checked(env, u + [step], sid, cert)
  {
    hide BusySince, Busy, Run, Starts, Allowed, ByCertificate;
    JustStarted(env, u, step, sid, cert);
    assert Checks(env, u + [step], |u|, sid, cert);
  }

  lemma {:induction false} StoredStaysKnown(env: Env, u: seq<Step>, step: Step, c: Key, cert: Cert)
    requires Stored(env, u, c, cert)
    ensures Stored(env, u + [step], c, cert)
  {
    hide Checks, BusySince, At;
    var i, j, sid :| 0 <= i < j < |u| && Stores(env, u, i, j, sid, cert);
    ChecksStays(env, u, step, i, sid, cert);
    BusyStays(env, u, step, i, j, sid, cert);
    SamePast(env, u, step, j);
    SamePast(env, u, step, j + 1);
    assert Stores(env, u + [step], i, j, sid, cert);
  }

  lemma {:induction false} StoredNew(env: Env, u: seq<Step>, sid: nat, cert: Cert)
    requires Checked(env, u, sid, cert)
    requires var pc := Sess(Run(env, SERVER_START, u), sid).pc; pc.Writing? && pc.cert == cert && pc.meta.cert == cert
    ensures Stored(env, u + [Advance(sid, true)], cert.communityPk, cert)
  {
    var w, step := Run(env, SERVER_START, u), Advance(sid, true);
    WriteEffect(env, w, sid);
    LastStep(env, u, step);
    hide Checks, BusySince, At, Run, AdvanceRequest;
    var i :| 0 <= i < |u| && Checks(env, u, i, sid, cert) && BusySince(env, u, i, |u|, sid, cert);
    ChecksStays(env, u, step, i, sid, cert);
    BusyStays(env, u, step, i, |u|, sid, cert);
    SamePast(env, u, step, |u|);
    assert Stores(env, u + [step], i, |u|, sid, cert);
  }

  lemma {:induction false} WriteEffect(env: Env, w: World, sid: nat)
    requires Sess(w, sid).pc.Writing?
    ensures var c, meta := Sess(w, sid).pc.cert.communityPk, Sess(w, sid).pc.meta;
            Next(env, w, Advance(sid, true)).store == w.store[c := meta]
  {
  }

  /** What a step without failure does to the request of a session. */
  ghost predicate PcMoves(env: Env, w: World, step: Step, s: Session, pc': Pc) {
    match pc'
    case Authorized(cert, _) =>
      && s.pc.Idle? && step.Start? && step.req.JoinCommunity? && step.req.cert == cert
      && Allowed(env, w, step.sid, cert, step.req.password, step.now, step.ok)
      && (cert.communityPk in w.store || ByCertificate(env, cert, step.req.password, step.now))
    case Prepared(cert, _, meta) =>
      s.pc.Authorized? && s.pc.cert == cert && (cert.communityPk in w.store || meta.cert == cert)
    case Writing(cert, _, meta) =>
      s.pc.Prepared? && s.pc.cert == cert && s.pc.meta == meta && cert.communityPk !in w.store
    case Pushing(c, meta) => c in s.joined && (c in w.store ==> meta.cert == w.store[c].cert)
    case _ => true
  }

  lemma {:induction false} StartMoves(env: Env, w: World, sid: nat, req: Request, now: nat)
    ensures var s, pc' := Sess(w, sid), Sess(StartRequest(env, w, sid, req, now, true), sid).pc;
            pc' == s.pc || PcMoves(env, w, Start(sid, req, now, true), s, pc')
  {
    hide JoinDecision, Allowed, ByCertificate, MembersOf, Placeholder;
    if req.JoinCommunity? && Sess(w, sid).pc.Idle? {
      DecisionMeans(env, w, sid, req.cert, req.password, now, true);
    }
  }

  lemma {:induction false} AdvanceMoves(env: Env, w: World, sid: nat)
    ensures var s, pc' := Sess(w, sid), Sess(AdvanceRequest(env, w, sid, true), sid).pc;
            pc' == s.pc || PcMoves(env, w, Advance(sid, true), s, pc')
  {
  }

  /** A step writes the certificate of a session that is about to write it, if any. */
  lemma {:induction false} StoreMoves(env: Env, w: World, step: Step, c: Key)
    requires Sound(step) && c in Next(env, w, step).store
    ensures var pc, cert := Sess(w, step.sid).pc, Next(env, w, step).store[c].cert;
            || (c in w.store && cert == w.store[c].cert)
            || (step == Advance(step.sid, true) && pc.Writing? && pc.cert.communityPk == c && cert == pc.meta.cert)
            || (pc.Pushing? && pc.c == c && cert == pc.meta.cert)
  {
    hide JoinDecision, WithPayload, Placeholder, Lookup;
  }

  lemma {:induction false} PcKeeps(env: Env, u: seq<Step>, step: Step, sid: nat, pc: Pc, store: MetaStore,
                                   store': MetaStore)
    requires PcOk(env, u, store, sid, pc) && store.Keys <= store'.Keys
    requires Sess(Run(env, SERVER_START, u + [step]), sid).pc == pc
    ensures PcOk(env, u + [step], store', sid, pc)
  {
    hide Checked, Stored, Run;
    if pc.Pushing? {
      StoredStaysKnown(env, u, step, pc.c, pc.meta.cert);
    } else if !pc.Idle? && Checked(env, u, sid, pc.cert) {
      CheckedNext(env, u, step, sid, pc.cert);
    }
  }

  lemma {:induction false} PcMoved(env: Env, u: seq<Step>, step: Step, sid: nat, pc': Pc)
    requires step.sid == sid
             && PcOk(env, u, Run(env, SERVER_START, u).store, sid, Sess(Run(env, SERVER_START, u), sid).pc)
    requires PcMoves(env, Run(env, SERVER_START, u), step, Sess(Run(env, SERVER_START, u), sid), pc')
    requires StoreChecked(env, u, Run(env, SERVER_START, u))
             && SessionStored(Run(env, SERVER_START, u).store, Sess(Run(env, SERVER_START, u), sid))
    requires Sess(Run(env, SERVER_START, u + [step]), sid).pc == pc'
    ensures PcOk(env, u + [step], Run(env, SERVER_START, u).store, sid, pc')
  {
    var w := Run(env, SERVER_START, u);
    hide Checked, Stored, Run, Allowed, ByCertificate;
    match pc'
    case Authorized(cert, _) =>
      if cert.communityPk !in w.store {
        CheckedNew(env, u, step, sid, cert);
      }
    case Prepared(cert, _, _) =>
      if cert.communityPk !in w.store {
        CheckedNext(env, u, step, sid, cert);
      }
    case Writing(cert, _, _) => CheckedNext(env, u, step, sid, cert);
    case Pushing(c, meta) => StoredStaysKnown(env, u, step, c, meta.cert);
    case _ =>
  }

  lemma {:induction false} PcMonotone(env: Env, steps: seq<Step>, store: MetaStore, store': MetaStore, sid: nat, pc: Pc)
    requires PcOk(env, steps, store, sid, pc) && store.Keys <= store'.Keys
    ensures PcOk(env, steps, store', sid, pc)
  {
    hide Checked, Stored;
  }

  lemma {:induction false} PcNext(env: Env, u: seq<Step>, step: Step, sid: nat)
    requires Sound(step) && CertInv(env, u, Run(env, SERVER_START, u)) && StoreInv(Run(env, SERVER_START, u))
    ensures var w' := Run(env, SERVER_START, u + [step]); PcOk(env, u + [step], w'.store, sid, Sess(w', sid).pc)
  {
    var w, w' := Run(env, SERVER_START, u), Run(env, SERVER_START, u + [step]);
    assert PcOk(env, u, w.store, sid, Sess(w, sid).pc) && SessionStored(w.store, Sess(w, sid));
    LastStep(env, u, step);
    StepKeepsStored(env, w, step);
    hide PcOk, StoreChecked, StoreInv, SessionStored, Run, StartRequest, AdvanceRequest, PcMoves, Sess;
    SessionMoves(env, w, step, sid);
    if Sess(w', sid).pc == Sess(w, sid).pc {
      PcKeeps(env, u, step, sid, Sess(w, sid).pc, w.store, w'.store);
    } else {
      PcMoved(env, u, step, sid, Sess(w', sid).pc);
      PcMonotone(env, u + [step], w.store, w'.store, sid, Sess(w', sid).pc);
    }
  }

  lemma {:induction false} SessionMoves(env: Env, w: World, step: Step, sid: nat)
    requires Sound(step)
    ensures var s, pc' := Sess(w, sid), Sess(Next(env, w, step), sid).pc;
            pc' == s.pc || (step.sid == sid && PcMoves(env, w, step, s, pc'))
  {
    if step.sid != sid {
      OthersStay(env, w, step, sid);
    } else {
      hide PcMoves, StartRequest, AdvanceRequest;
      match step
      case Start(_, req, now, ok) => StartMoves(env, w, sid, req, now);
      case Advance(_, ok) => AdvanceMoves(env, w, sid);
      case Relay(_, _) =>
    }
  }

  lemma {:induction false} OthersStay(env: Env, w: World, step: Step, sid: nat)
    requires step.sid != sid
    ensures Sess(Next(env, w, step), sid) == Sess(w, sid)
  {
    hide JoinDecision, WithPayload, Placeholder, Lookup, Write;
  }

  lemma {:induction false} StoreNext(env: Env, u: seq<Step>, step: Step, c: Key)
    requires Sound(step) && CertInv(env, u, Run(env, SERVER_START, u)) && c in Run(env, SERVER_START, u + [step]).store
    ensures Stored(env, u + [step], c, Run(env, SERVER_START, u + [step]).store[c].cert)
  {
    var w, w' := Run(env, SERVER_START, u), Run(env, SERVER_START, u + [step]);
    var pc, cert := Sess(w, step.sid).pc, w'.store[c].cert;
    assert PcOk(env, u, w.store, step.sid, pc);
    LastStep(env, u, step);
    hide Checked, Stored, Run, Next, CertInv;
    StoreMoves(env, w, step, c);
    if c in w.store && cert == w.store[c].cert {
      assert StoreChecked(env, u, w) by { CertInvParts(env, u, w); }
      StoredStaysKnown(env, u, step, c, cert);
    } else if pc.Pushing? {
      StoredStaysKnown(env, u, step, c, cert);
    } else {
      StoredNew(env, u, step.sid, cert);
    }
  }

  lemma {:induction false} CertInvParts(env: Env, steps: seq<Step>, w: World)
    requires CertInv(env, steps, w)
    ensures StoreChecked(env, steps, w)
  {
  }

  lemma {:induction false} RunKeepsCertInv(env: Env, steps: seq<Step>)
    requires FaultFree(steps)
    ensures CertInv(env, steps, Run(env, SERVER_START, steps))
  {
    if steps == [] {
    } else {
      var u, step := steps[..|steps| - 1], steps[|steps| - 1];
      assert steps == u + [step] && Sound(steps[|steps| - 1]);
      assert forall i :: 0 <= i < |u| ==> u[i] == steps[i];
      RunKeepsCertInv(env, u);
      RunKeepsStored(env, u);
      hide PcOk, Stored, StoreInv, Run, Sound;
      var w' := Run(env, SERVER_START, steps);
      forall sid
        ensures PcOk(env, steps, w'.store, sid, Sess(w', sid).pc)
      {
        PcNext(env, u, step, sid);
      }
      forall c | c in w'.store
        ensures Stored(env, steps, c, w'.store[c].cert)
      {
        StoreNext(env, u, step, c);
      }
    }
  }

  /** In every interleaved run in which no store operation fails, every stored certificate was stored by a
      join that started with the password and this certificate: made out for its own community and this
      node, signed and not expired when that very join checked it. */
  lemma {:induction false} StoredCertWasChecked(env: Env, steps: seq<Step>, c: Key)
    requires FaultFree(steps) && c in Run(env, SERVER_START, steps).store
    ensures var cert := Run(env, SERVER_START, steps).store[c].cert;
            && cert.communityPk == c
            && exists i, j, sid :: 0 <= i < j < |steps| && Stores(env, steps, i, j, sid, cert)
  {
    RunKeepsCertInv(env, steps);
  }

  /** The certificate that `PushManifest` makes up is therefore never stored, unless it really carries a
      valid signature of the community. */
  lemma {:induction false} PlaceholderIsNeverStored(env: Env, steps: seq<Step>, c: Key)
    requires FaultFree(steps) && !env.signed(Placeholder(env, c))
    ensures var w := Run(env, SERVER_START, steps);
            c in w.store ==> w.store[c].cert != Placeholder(env, c)
  {
    if c in Run(env, SERVER_START, steps).store {
      StoredCertWasChecked(env, steps, c);
      hide Run, Placeholder, Starts, BusySince, At;
    }
  }

  /** A step that does not go on with the request of session `sid`. */
  predicate Elsewhere(step: Step, sid: nat) {
    step.Advance? ==> step.sid != sid
  }

  lemma {:induction false} PushWaits(env: Env, w: World, mid: seq<Step>, sid: nat)
    requires Sess(w, sid).pc.Pushing? && forall i :: 0 <= i < |mid| ==> Elsewhere(mid[i], sid)
    ensures Sess(Run(env, w, mid), sid).pc == Sess(w, sid).pc
  {
    hide Next;
    if mid == [] {
    } else {
      var n := |mid| - 1;
      PushWaits(env, w, mid[..n], sid);
      PushWaitsStep(env, Run(env, w, mid[..n]), mid[n], sid);
    }
  }

  lemma {:induction false} PushWaitsStep(env: Env, w: World, step: Step, sid: nat)
    requires Sess(w, sid).pc.Pushing? && Elsewhere(step, sid)
    ensures Sess(Next(env, w, step), sid).pc == Sess(w, sid).pc
  {
    hide JoinDecision, WithPayload, Placeholder, Lookup, Write;
  }

  lemma {:induction false} PushReads(env: Env, w: World, sid: nat, c: Key, p: Payload, now: nat, ok: bool)
    requires Sess(w, sid).pc.Idle? && MayUse(Sess(w, sid), c)
    ensures var pc := Sess(Next(env, w, Start(sid, PushManifest(c, p), now, ok)), sid).pc;
            && pc.Pushing? && pc.c == c
            && pc.meta.cert == if ok && c in w.store then w.store[c].cert else Placeholder(env, c)
  {
    hide Placeholder, MembersOf;
  }

  lemma {:induction false} PushWrites(env: Env, w: World, sid: nat)
    requires Sess(w, sid).pc.Pushing?
    ensures var pc := Sess(w, sid).pc; Next(env, w, Advance(sid, true)).store == w.store[pc.c := pc.meta]
  {
  }

  /** With store failures it can be, and exactly then: the push of a session that may make one leaves the made-up
      certificate behind if and only if its read brought back no metadata or the certificate was there before,
      whatever other sessions do between its read and its write. */
  lemma {:induction false} PushStoresPlaceholderIff(env: Env, w: World, sid: nat, c: Key, p: Payload, now: nat,
                                                    ok: bool, mid: seq<Step>)
    requires Sess(w, sid).pc.Idle? && MayUse(Sess(w, sid), c)
    requires forall i :: 0 <= i < |mid| ==> Elsewhere(mid[i], sid)
    ensures var w' :=
            Next(env, Run(env, Next(env, w, Start(sid, PushManifest(c, p), now, ok)), mid), Advance(sid, true));
            && c in w'.store
            && (w'.store[c].cert == Placeholder(env, c) <==>
                  !ok || c !in w.store || w.store[c].cert == Placeholder(env, c))
  {
    hide Next, Run, Placeholder, Elsewhere;
    var w1 := Next(env, w, Start(sid, PushManifest(c, p), now, ok));
    PushReads(env, w, sid, c, p, now, ok);
    PushWaits(env, w1, mid, sid);
    PushWrites(env, Run(env, w1, mid), sid);
  }

  // ---------- When a stored certificate can change ----------

  /** A session that has found no metadata for `c` and is about to write some. */
  ghost predicate WritesFor(s: Session, c: Key) {
    s.pc.Writing? && s.pc.cert.communityPk == c
  }

  /** All sessions about to write for `c` carry the same certificate. */
  ghost predicate Agree(w: World, c: Key) {
    forall a, b :: a in w.sessions && b in w.sessions && WritesFor(w.sessions[a], c) && WritesFor(w.sessions[b], c)
                   ==> w.sessions[a].pc.meta.cert == w.sessions[b].pc.meta.cert
  }

  /** Whoever is about to write for `c` would write the certificate that is stored. */
  ghost predicate Settled(w: World, c: Key) {
    c in w.store ==>
      forall sid :: sid in w.sessions ==>
                      (WritesFor(w.sessions[sid], c) || (w.sessions[sid].pc.Pushing? && w.sessions[sid].pc.c == c))
                      ==> w.sessions[sid].pc.meta.cert == w.store[c].cert
  }

  /** The certificate a session would write for `c`, if it is about to. */
  ghost predicate WouldWrite(s: Session, c: Key, cert: Cert) {
    (WritesFor(s, c) || (s.pc.Pushing? && s.pc.c == c)) ==> s.pc.meta.cert == cert
  }

  /** A step of one session that leaves the certificate of `c` alone. */
  lemma {:induction false} SettledMove(w: World, w': World, sid: nat, s: Session, c: Key)
    requires Settled(w, c) && w'.sessions == w.sessions[sid := s]
    requires c in w'.store ==> c in w.store && w'.store[c].cert == w.store[c].cert && WouldWrite(s, c, w.store[c].cert)
    ensures Settled(w', c)
  {
  }

  /** The first write for `c`. */
  lemma {:induction false} SettledFirst(w: World, w': World, sid: nat, s: Session, c: Key)
    requires StoreInv(w) && Agree(w, c) && c !in w.store && c in w'.store
    requires w'.sessions == w.sessions[sid := s] && !WritesFor(s, c) && !s.pc.Pushing?
    requires sid in w.sessions && WritesFor(w.sessions[sid], c) && w'.store[c].cert == w.sessions[sid].pc.meta.cert
    ensures Settled(w', c)
  {
    forall k | k in w'.sessions
      ensures WouldWrite(w'.sessions[k], c, w'.store[c].cert)
    {
      assert SessionStored(w.store, Sess(w, k));
    }
  }

  lemma {:induction false} StartSettles(env: Env, w: World, sid: nat, req: Request, now: nat, c: Key)
    requires StoreInv(w) && Settled(w, c)
    ensures Settled(StartRequest(env, w, sid, req, now, true), c)
    ensures StartRequest(env, w, sid, req, now, true).store == w.store
  {
    var s, w' := Sess(w, sid), StartRequest(env, w, sid, req, now, true);
    assert SessionStored(w.store, s);
    hide StoreInv, Settled, JoinDecision, Placeholder, MembersOf;
    if w'.sessions != w.sessions {
      SettledMove(w, w', sid, w'.sessions[sid], c);
    } else {
      SettledSame(w, w', c);
    }
  }

  lemma {:induction false} SettledSame(w: World, w': World, c: Key)
    requires Settled(w, c) && w'.sessions == w.sessions && w'.store == w.store
    ensures Settled(w', c)
  {
  }

  lemma {:induction false} AdvanceSettles(env: Env, w: World, sid: nat, c: Key)
    requires StoreInv(w) && Agree(w, c) && Settled(w, c)
    ensures var w' := AdvanceRequest(env, w, sid, true);
            Settled(w', c) && (c in w.store ==> c in w'.store && w'.store[c].cert == w.store[c].cert)
  {
    var s, w' := Sess(w, sid), AdvanceRequest(env, w, sid, true);
    if sid in w.sessions {
      assert SessionStored(w.store, s);
      assert c in w.store ==> WouldWrite(s, c, w.store[c].cert);
    }
    hide StoreInv, Settled, Agree;
    if !s.pc.Idle? {
      if c !in w.store && c in w'.store {
        SettledFirst(w, w', sid, w'.sessions[sid], c);
      } else {
        SettledMove(w, w', sid, w'.sessions[sid], c);
      }
    }
  }

  lemma {:induction false} StepSettles(env: Env, w: World, step: Step, c: Key)
    requires StoreInv(w) && Agree(w, c) && Settled(w, c) && Sound(step)
    ensures Settled(Next(env, w, step), c)
    ensures c in w.store ==> c in Next(env, w, step).store && Next(env, w, step).store[c].cert == w.store[c].cert
  {
    hide StoreInv, Agree, Settled, StartRequest, AdvanceRequest;
    match step
    case Start(sid, req, now, ok) => StartSettles(env, w, sid, req, now, c);
    case Advance(sid, ok) => AdvanceSettles(env, w, sid, c);
    case Relay(sid, filter) => SettledSame(w, Next(env, w, step), c);
  }

  /** As long as sessions about to write for a community at the same time carry the same certificate, its
      stored certificate never changes again: neither later joins nor manifest pushes replace it. */
  lemma {:induction false} StoredCertIsStable(env: Env, steps: seq<Step>, c: Key, i: nat)
    requires FaultFree(steps) && i <= |steps|
    requires forall k :: 0 <= k <= |steps| ==> Agree(Run(env, SERVER_START, steps[..k]), c)
    ensures Settled(Run(env, SERVER_START, steps), c)
    ensures var before, after := Run(env, SERVER_START, steps[..i]), Run(env, SERVER_START, steps);
            c in before.store ==> c in after.store && after.store[c].cert == before.store[c].cert
    decreases |steps|
  {
    hide Agree, Settled, StoreInv, Next;
    assert steps[..|steps|] == steps;
    if steps == [] {
      StartIsSettled(c);
    } else {
      var n := |steps| - 1;
      var u := steps[..n];
      assert forall k :: 0 <= k <= n ==> u[..k] == steps[..k];
      StoredCertIsStable(env, u, c, if i <= n then i else n);
      RunKeepsStored(env, u);
      assert Agree(Run(env, SERVER_START, steps[..n]), c) && Sound(steps[n]);
      StepSettles(env, Run(env, SERVER_START, u), steps[n], c);
      assert Run(env, SERVER_START, steps) == Next(env, Run(env, SERVER_START, u), steps[n]);
    }
  }

  lemma {:induction false} StartIsSettled(c: Key)
    ensures Settled(SERVER_START, c)
  {
  }

  /** Otherwise it can: with two sessions about to write different certificates, letting both write
      stores the first certificate and then replaces it, together with all other metadata. */
  lemma {:induction false} RaceReplaces(env: Env, w: World, a: nat, b: nat, c: Key)
    requires a != b && a in w.sessions && b in w.sessions
    requires WritesFor(w.sessions[a], c) && WritesFor(w.sessions[b], c)
    requires w.sessions[a].pc.meta.cert != w.sessions[b].pc.meta.cert
    ensures var x, y := w.sessions[a].pc.meta, w.sessions[b].pc.meta;
            var w1 := Next(env, w, Advance(a, true));
            var w2 := Next(env, w1, Advance(b, true));
            && c in w1.store && w1.store[c] == x && c in w2.store && w2.store[c] == y
            && w2.store[c].cert != w1.store[c].cert
  {
  }

  /** Letting sessions `a` and `b` make their next step changes a stored certificate of `c`. */
  ghost predicate Replaces(env: Env, w: World, a: nat, b: nat, c: Key) {
    var w1 := Next(env, w, Advance(a, true));
    var w2 := Next(env, w1, Advance(b, true));
    c in w1.store && c in w2.store && w2.store[c].cert != w1.store[c].cert
  }

  /** So the condition is exact. In every state reachable without store failures two next steps can replace a
      stored certificate of `c` if and only if two sessions about to write for `c` carry different ones, or one is
      stored already and a session about to write carries another. */
  lemma {:induction false} ReplaceableIff(env: Env, history: seq<Step>, c: Key)
    requires FaultFree(history)
    ensures var w := Run(env, SERVER_START, history);
            (exists a, b :: Replaces(env, w, a, b, c)) <==> !(Agree(w, c) && Settled(w, c))
  {
    hide StoreInv, Next, Run, Agree, Settled, Replaces;
    var w := Run(env, SERVER_START, history);
    RunKeepsStored(env, history);
    if !Settled(w, c) {
      var a, sid := UnsettledReplaces(env, w, c);
    } else if !Agree(w, c) {
      var a, b := DisagreeingReplace(env, w, c);
    } else {
      forall a, b
        ensures !Replaces(env, w, a, b, c)
      {
        AgreeingStepsKeep(env, w, a, b, c);
      }
    }
  }

  lemma {:induction false} DisagreeingReplace(env: Env, w: World, c: Key) returns (a: nat, b: nat)
    requires !Agree(w, c)
    ensures Replaces(env, w, a, b, c)
  {
    hide Next;
    a, b :| a in w.sessions && b in w.sessions && WritesFor(w.sessions[a], c) && WritesFor(w.sessions[b], c)
            && w.sessions[a].pc.meta.cert != w.sessions[b].pc.meta.cert;
    RaceReplaces(env, w, a, b, c);
  }

  /** The session that would write something else than what is stored. */
  lemma {:induction false} UnsettledWrites(env: Env, w: World, c: Key) returns (sid: nat)
    requires !Settled(w, c)
    ensures c in w.store && sid in w.sessions
    ensures var w' := Next(env, w, Advance(sid, true)); c in w'.store && w'.store[c].cert != w.store[c].cert
  {
    sid :| sid in w.sessions && !WouldWrite(w.sessions[sid], c, w.store[c].cert);
    var s := w.sessions[sid];
    assert s == Sess(w, sid) && !WouldWrite(s, c, w.store[c].cert);
    hide Next;
    if WritesFor(s, c) {
      WriteEffect(env, w, sid);
    } else {
      assert s.pc.Pushing? && s.pc.c == c;
      PushWrites(env, w, sid);
    }
  }

  lemma {:induction false} UnsettledReplaces(env: Env, w: World, c: Key) returns (a: nat, sid: nat)
    requires !Settled(w, c)
    ensures Replaces(env, w, a, sid, c)
  {
    hide Settled;
    sid := UnsettledWrites(env, w, c);
    a := UnusedSession(w.sessions.Keys);
    assert Next(env, w, Advance(a, true)) == w;
  }

  lemma {:induction false} UnusedSession(used: set<nat>) returns (a: nat)
    ensures a !in used && forall k :: k in used ==> k < a
  {
    if used == {} {
      return 0;
    } else {
      var k :| k in used;
      var above := UnusedSession(used - {k});
      assert forall j :: j in used ==> j == k || j in used - {k};
      return if k >= above then k + 1 else above;
    }
  }

  lemma {:induction false} SettledAgrees(w: World, c: Key)
    requires Settled(w, c) && c in w.store
    ensures Agree(w, c)
  {
  }

  /** A settled certificate stays, whatever fault-free steps follow. */
  lemma {:induction false} SettledForever(env: Env, w: World, more: seq<Step>, c: Key)
    requires StoreInv(w) && Settled(w, c) && c in w.store && FaultFree(more)
    ensures var w' := Run(env, w, more);
            StoreInv(w') && Settled(w', c) && c in w'.store && w'.store[c].cert == w.store[c].cert
  {
    hide StoreInv, Settled, Agree, Next;
    if more == [] {
    } else {
      var n := |more| - 1;
      var mid := Run(env, w, more[..n]);
      assert Sound(more[n]);
      SettledForever(env, w, more[..n], c);
      SettledAgrees(mid, c);
      StepSettles(env, mid, more[n], c);
      StepKeepsStored(env, mid, more[n]);
    }
  }

  lemma {:induction false} RunAppend(env: Env, steps: seq<Step>, more: seq<Step>)
    ensures Run(env, SERVER_START, steps + more) == Run(env, Run(env, SERVER_START, steps), more)
  {
    hide Next;
    if more == [] {
      assert steps + more == steps;
    } else {
      var n := |more| - 1;
      RunAppend(env, steps, more[..n]);
      assert (steps + more)[..|steps| + n] == steps + more[..n];
    }
  }

  /** Over the whole future: once a certificate is stored, some continuation without store failures replaces it
      if and only if a session about to write for the community carries another one. */
  lemma {:induction false} EverReplacedIff(env: Env, history: seq<Step>, c: Key)
    requires FaultFree(history) && c in Run(env, SERVER_START, history).store
    ensures var w := Run(env, SERVER_START, history);
            (exists more :: FaultFree(more) && Changes(env, history, more, c)) <==> !Settled(w, c)
  {
    hide StoreInv, Settled, Next, Run, FaultFree;
    var w := Run(env, SERVER_START, history);
    RunKeepsStored(env, history);
    if Settled(w, c) {
      forall more | FaultFree(more)
        ensures !Changes(env, history, more, c)
      {
        SettledForever(env, w, more, c);
        RunAppend(env, history, more);
      }
    } else {
      var sid := UnsettledWrites(env, w, c);
      var more := [Advance(sid, true)];
      RunSnoc(env, history, Advance(sid, true));
      OneSound(Advance(sid, true));
      assert Changes(env, history, more, c);
    }
  }

  lemma {:induction false} OneSound(step: Step)
    requires Sound(step)
    ensures FaultFree([step])
  {
  }

  /** After `more` the certificate stored for `c` is another one than before. */
  ghost predicate Changes(env: Env, history: seq<Step>, more: seq<Step>, c: Key) {
    var before, after := Run(env, SERVER_START, history), Run(env, SERVER_START, history + more);
    c in before.store && c in after.store && after.store[c].cert != before.store[c].cert
  }

  lemma {:induction false} AgreeingStepsKeep(env: Env, w: World, a: nat, b: nat, c: Key)
    requires StoreInv(w) && Settled(w, c) && Agree(w, c)
    ensures !Replaces(env, w, a, b, c)
  {
    var w1 := AdvanceRequest(env, w, a, true);
    AdvanceSettles(env, w, a, c);
    StepKeepsStored(env, w, Advance(a, true));
    hide StoreInv, Settled, Agree, AdvanceRequest;
    if c in w1.store {
      SettledKeeps(env, w1, b, c);
    }
  }

  lemma {:induction false} SettledKeeps(env: Env, w: World, sid: nat, c: Key)
    requires StoreInv(w) && Settled(w, c) && c in w.store
    ensures var w' := AdvanceRequest(env, w, sid, true); c in w'.store && w'.store[c].cert == w.store[c].cert
  {
    var s := Sess(w, sid);
    if sid in w.sessions {
      assert WouldWrite(s, c, w.store[c].cert);
    }
    hide StoreInv, Settled;
  }

  function Client(pc: Pc, pk: Key, joined: seq<Key>): Session {
    Session(Some(pk), joined, pc)
  }

  lemma {:induction false} RunSnoc(env: Env, steps: seq<Step>, step: Step)
    ensures Run(env, SERVER_START, steps + [step]) == Next(env, Run(env, SERVER_START, steps), step)
  {
    assert (steps + [step])[..|steps|] == steps;
  }

  /** An open node on which key `pk` authenticates with the given signature. */
  ghost predicate OpenNode(env: Env, pk: Key, sig: seq<Byte>, nonce: seq<Byte>) {
    env.joinPassword.None? && env.validKey(pk) && env.verifies(pk, nonce, sig)
  }

  /** A certificate this node accepts at time zero. */
  ghost predicate Acceptable(env: Env, cert: Cert) {
    cert.nodePk == env.nodePk && env.signed(cert) && env.validKey(cert.communityPk)
  }

  lemma {:induction false} AuthEffect(env: Env, w: World, sid: nat, pk: Key, sig: seq<Byte>, nonce: seq<Byte>)
    requires OpenNode(env, pk, sig, nonce) && Sess(w, sid) == Session(None, [], Idle)
    ensures var w' := Next(env, w, Start(sid, Authenticate(pk, sig, nonce), 0, true));
            w'.store == w.store && Sess(w', sid) == Client(Idle, pk, []) && OthersKeep(w, w', sid)
  {
  }

  lemma {:induction false} JoinEffect(env: Env, w: World, sid: nat, pk: Key, x: Cert)
    requires env.joinPassword.None? && Acceptable(env, x) && x.communityPk !in w.store
             && Sess(w, sid) == Client(Idle, pk, [])
    ensures var w' := Next(env, w, Start(sid, JoinCommunity(x, None, None), 0, true));
            w'.store == w.store && Sess(w', sid) == Client(Authorized(x, None), pk, []) && OthersKeep(w, w', sid)
  {
  }

  lemma {:induction false} PrepareEffect(env: Env, w: World, sid: nat, pk: Key, x: Cert)
    requires x.communityPk !in w.store && Sess(w, sid) == Client(Authorized(x, None), pk, [])
    ensures var w' := Next(env, w, Advance(sid, true));
            w'.store == w.store && Sess(w', sid) == Client(Prepared(x, None, Fresh(x)), pk, [])
              && OthersKeep(w, w', sid)
  {
  }

  lemma {:induction false} ReadyEffect(env: Env, w: World, sid: nat, pk: Key, x: Cert)
    requires x.communityPk !in w.store && Sess(w, sid) == Client(Prepared(x, None, Fresh(x)), pk, [])
    ensures var w' := Next(env, w, Advance(sid, true));
            w'.store == w.store && Sess(w', sid) == Client(Writing(x, None, Fresh(x)), pk, []) && OthersKeep(w, w', sid)
  {
  }

  ghost function RaceSteps(pk: Key, sig: seq<Byte>, nonce: seq<Byte>, x: Cert, y: Cert): seq<Step> {
    [Start(0, Authenticate(pk, sig, nonce), 0, true), Start(1, Authenticate(pk, sig, nonce), 0, true)]
    + [Start(0, JoinCommunity(x, None, None), 0, true), Start(1, JoinCommunity(y, None, None), 0, true)]
    + [Advance(0, true), Advance(1, true)] + [Advance(0, true), Advance(1, true)]
  }

  lemma {:induction false} RunTwo(env: Env, steps: seq<Step>, a: Step, b: Step)
    ensures Run(env, SERVER_START, steps + [a, b]) == Next(env, Next(env, Run(env, SERVER_START, steps), a), b)
  {
    RunSnoc(env, steps, a);
    RunSnoc(env, steps + [a], b);
    assert steps + [a] + [b] == steps + [a, b];
  }

  lemma {:induction false} RunPairs(env: Env, a: seq<Step>, b: seq<Step>, c: seq<Step>, d: seq<Step>)
    requires |a| == 2 && |b| == 2 && |c| == 2 && |d| == 2
    ensures var w1 := Next(env, Next(env, SERVER_START, a[0]), a[1]);
            var w2 := Next(env, Next(env, w1, b[0]), b[1]);
            var w3 := Next(env, Next(env, w2, c[0]), c[1]);
            Run(env, SERVER_START, a + b + c + d) == Next(env, Next(env, w3, d[0]), d[1])
  {
    assert Run(env, SERVER_START, []) == SERVER_START;
    assert [] + a == a;
    hide Next, Run;
    assert a == [a[0], a[1]] && b == [b[0], b[1]] && c == [c[0], c[1]] && d == [d[0], d[1]];
    RunTwo(env, [], a[0], a[1]);
    RunTwo(env, a, b[0], b[1]);
    RunTwo(env, a + b, c[0], c[1]);
    RunTwo(env, a + b + c, d[0], d[1]);
  }

  /** Such a state is reachable: two clients join the same community for the first time at once, each with
      its own valid certificate, and both find the store empty. */
  lemma {:induction false} RaceIsReachable(env: Env, pk: Key, sig: seq<Byte>, nonce: seq<Byte>, x: Cert, y: Cert)
    requires OpenNode(env, pk, sig, nonce) && Acceptable(env, x) && Acceptable(env, y) && x.communityPk == y.communityPk
    ensures FaultFree(RaceSteps(pk, sig, nonce, x, y))
    ensures var w := Run(env, SERVER_START, RaceSteps(pk, sig, nonce, x, y));
            Sess(w, 0).pc == Writing(x, None, Fresh(x)) && Sess(w, 1).pc == Writing(y, None, Fresh(y))
  {
    hide Next, Acceptable, OpenNode, Sess, Run;
    var auth := Authenticate(pk, sig, nonce);
    RunPairs(env, [Start(0, auth, 0, true), Start(1, auth, 0, true)],
             [Start(0, JoinCommunity(x, None, None), 0, true), Start(1, JoinCommunity(y, None, None), 0, true)],
             [Advance(0, true), Advance(1, true)], [Advance(0, true), Advance(1, true)]);
    RacePath(env, pk, sig, nonce, x, y);
  }

  lemma {:induction false} RacePath(env: Env, pk: Key, sig: seq<Byte>, nonce: seq<Byte>, x: Cert, y: Cert)
    requires OpenNode(env, pk, sig, nonce) && Acceptable(env, x) && Acceptable(env, y) && x.communityPk == y.communityPk
    ensures var auth := Authenticate(pk, sig, nonce);
            var w1 := Next(env, Next(env, SERVER_START, Start(0, auth, 0, true)), Start(1, auth, 0, true));
            var w2 := Next(env, Next(env, w1, Start(0, JoinCommunity(x, None, None), 0, true)),
                           Start(1, JoinCommunity(y, None, None), 0, true));
            var w3 := Next(env, Next(env, w2, Advance(0, true)), Advance(1, true));
            var w4 := Next(env, Next(env, w3, Advance(0, true)), Advance(1, true));
            Sess(w4, 0).pc == Writing(x, None, Fresh(x)) && Sess(w4, 1).pc == Writing(y, None, Fresh(y))
  {
    var auth := Authenticate(pk, sig, nonce);
    var w0 := Next(env, SERVER_START, Start(0, auth, 0, true));
    assert Sess(SERVER_START, 0) == Session(None, [], Idle) && Sess(SERVER_START, 1) == Session(None, [], Idle);
    assert env.joinPassword.None?;
    hide Next, Acceptable, OpenNode, Sess;
    AuthEffect(env, SERVER_START, 0, pk, sig, nonce);
    AuthEffect(env, w0, 1, pk, sig, nonce);
    var w1 := Next(env, w0, Start(1, auth, 0, true));
    var v1 := Next(env, w1, Start(0, JoinCommunity(x, None, None), 0, true));
    JoinEffect(env, w1, 0, pk, x);
    JoinEffect(env, v1, 1, pk, y);
    var w2 := Next(env, v1, Start(1, JoinCommunity(y, None, None), 0, true));
    var v2 := Next(env, w2, Advance(0, true));
    PrepareEffect(env, w2, 0, pk, x);
    PrepareEffect(env, v2, 1, pk, y);
    var w3 := Next(env, v2, Advance(1, true));
    var v3 := Next(env, w3, Advance(0, true));
    ReadyEffect(env, w3, 0, pk, x);
    ReadyEffect(env, v3, 1, pk, y);
  }

  /** Between the two writes of the race no two sessions disagree any more, and yet the certificate that is stored
      is about to be replaced. */
  lemma {:induction false} HalfRaceIsUnsettled(env: Env, pk: Key, sig: seq<Byte>, nonce: seq<Byte>, x: Cert, y: Cert)
    requires OpenNode(env, pk, sig, nonce) && Acceptable(env, x) && Acceptable(env, y)
    requires x.communityPk == y.communityPk && x != y
    ensures var steps, c := RaceSteps(pk, sig, nonce, x, y) + [Advance(0, true)], x.communityPk;
            var w := Run(env, SERVER_START, steps);
            && FaultFree(steps) && c in w.store && w.store[c].cert == x && !Settled(w, c)
            && Next(env, w, Advance(1, true)).store == w.store[c := Fresh(y)]
  {
    var steps := RaceSteps(pk, sig, nonce, x, y);
    RaceIsReachable(env, pk, sig, nonce, x, y);
    hide OpenNode, Acceptable, RaceSteps;
    var v, w := Run(env, SERVER_START, steps), Run(env, SERVER_START, steps + [Advance(0, true)]);
    RunSnoc(env, steps, Advance(0, true));
    hide Run;
    WriteEffect(env, v, 0);
    OthersStay(env, v, Advance(0, true), 1);
    WriteEffect(env, w, 1);
    hide Next;
    assert 1 in w.sessions && WritesFor(w.sessions[1], x.communityPk);
  }

  // ---------- Store failures ----------

  lemma {:induction false} LostWriteEffect(env: Env, w: World, sid: nat, pk: Key, x: Cert)
    requires Sess(w, sid) == Client(Writing(x, None, Fresh(x)), pk, [])
    ensures var w' := Next(env, w, Advance(sid, false));
            w'.store == w.store && Sess(w', sid) == Client(Joining(x, None), pk, [])
  {
  }

  lemma {:induction false} JoinedEffect(env: Env, w: World, sid: nat, pk: Key, x: Cert)
    requires Sess(w, sid) == Client(Joining(x, None), pk, [])
    ensures var w' := Next(env, w, Advance(sid, true));
            w'.store == w.store && Sess(w', sid) == Client(Idle, pk, [x.communityPk])
  {
  }

  lemma {:induction false} PushEffect(env: Env, w: World, sid: nat, pk: Key, c: Key, p: Payload)
    requires Sess(w, sid) == Client(Idle, pk, [c]) && c !in w.store
    ensures var w' := Next(env, Next(env, w, Start(sid, PushManifest(c, p), 0, true)), Advance(sid, true));
            c in w'.store && w'.store[c].cert == Placeholder(env, c)
  {
    hide Placeholder, MembersOf;
  }

  ghost function FaultSteps(pk: Key, sig: seq<Byte>, nonce: seq<Byte>, x: Cert, p: Payload): seq<Step> {
    [Start(0, Authenticate(pk, sig, nonce), 0, true), Start(0, JoinCommunity(x, None, None), 0, true)]
    + [Advance(0, true), Advance(0, true)] + [Advance(0, false), Advance(0, true)]
    + [Start(0, PushManifest(x.communityPk, p), 0, true), Advance(0, true)]
  }

  /** With a single failed write the invariant is gone: the join goes through although nothing was
      stored, and a manifest push then stores the made-up certificate. */
  lemma {:induction false} FailedWriteStoresPlaceholder(env: Env, pk: Key, sig: seq<Byte>, nonce: seq<Byte>, x: Cert,
                                                        p: Payload)
    requires OpenNode(env, pk, sig, nonce) && Acceptable(env, x)
    ensures var w := Run(env, SERVER_START, FaultSteps(pk, sig, nonce, x, p));
            x.communityPk in w.store && w.store[x.communityPk].cert == Placeholder(env, x.communityPk)
  {
    var c := x.communityPk;
    var a, b := [Start(0, Authenticate(pk, sig, nonce), 0, true), Start(0, JoinCommunity(x, None, None), 0, true)],
                   [Advance(0, true), Advance(0, true)];
    var d, e := [Advance(0, false), Advance(0, true)], [Start(0, PushManifest(c, p), 0, true), Advance(0, true)];
    assert Sess(SERVER_START, 0) == Session(None, [], Idle) && env.joinPassword.None?;
    hide Next, Acceptable, OpenNode, Sess, Run, Placeholder;
    RunPairs(env, a, b, d, e);
    AuthEffect(env, SERVER_START, 0, pk, sig, nonce);
    var v1 := Next(env, SERVER_START, a[0]);
    JoinEffect(env, v1, 0, pk, x);
    var w1 := Next(env, v1, a[1]);
    PrepareEffect(env, w1, 0, pk, x);
    ReadyEffect(env, Next(env, w1, b[0]), 0, pk, x);
    var w2 := Next(env, Next(env, w1, b[0]), b[1]);
    LostWriteEffect(env, w2, 0, pk, x);
    JoinedEffect(env, Next(env, w2, d[0]), 0, pk, x);
    PushEffect(env, Next(env, Next(env, w2, d[0]), d[1]), 0, pk, c, p);
  }

  // ---------- Acting under another key ----------

  lemma {:induction false} StoredEffect(env: Env, w: World, sid: nat, pk: Key, x: Cert)
    requires Sess(w, sid) == Client(Writing(x, None, Fresh(x)), pk, [])
    ensures Sess(Next(env, w, Advance(sid, true)), sid) == Client(Joining(x, None), pk, [])
  {
  }

  lemma {:induction false} RekeyEffect(env: Env, w: World, sid: nat, a: Key, b: Key, sig: seq<Byte>, nonce: seq<Byte>,
                                       joined: seq<Key>)
    requires OpenNode(env, b, sig, nonce) && Sess(w, sid) == Client(Idle, a, joined)
    ensures Sess(Next(env, w, Start(sid, Authenticate(b, sig, nonce), 0, true)), sid) == Client(Idle, b, joined)
  {
  }

  lemma {:induction false} SendEffect(env: Env, w: World, sid: nat, b: Key, c: Key)
    requires Sess(w, sid) == Client(Idle, b, [c])
    ensures Next(env, w, Start(sid, SendMessage(c), 0, true)).log == w.log + [Accepted(sid, c)]
  {
  }

  ghost function RekeySteps(a: Key, sigA: seq<Byte>, b: Key, sigB: seq<Byte>, nonce: seq<Byte>, x: Cert): seq<Step> {
    [Start(0, Authenticate(a, sigA, nonce), 0, true), Start(0, JoinCommunity(x, None, None), 0, true)]
    + [Advance(0, true), Advance(0, true)] + [Advance(0, true), Advance(0, true)]
    + [Start(0, Authenticate(b, sigB, nonce), 0, true), Start(0, SendMessage(x.communityPk), 0, true)]
  }

  /** A session that joins under key `a` and then authenticates as `b` goes on in the community as `b`: its next
      message is accepted, though only `a` was ever let in. */
  lemma {:induction false} OtherKeyIsAccepted(env: Env, a: Key, sigA: seq<Byte>, b: Key, sigB: seq<Byte>,
                                              nonce: seq<Byte>, x: Cert)
    requires OpenNode(env, a, sigA, nonce) && OpenNode(env, b, sigB, nonce) && Acceptable(env, x)
    ensures var steps := RekeySteps(a, sigA, b, sigB, nonce, x);
            var w := Run(env, SERVER_START, steps[..7]);
            && Sess(Run(env, SERVER_START, steps[..1]), 0).clientPk == Some(a)
            && Sess(w, 0).clientPk == Some(b)
            && Run(env, SERVER_START, steps).log == w.log + [Accepted(0, x.communityPk)]
  {
    var c, steps := x.communityPk, RekeySteps(a, sigA, b, sigB, nonce, x);
    var p, q := [steps[0], steps[1]], [steps[2], steps[3]];
    var d, e := [steps[4], steps[5]], [steps[6], steps[7]];
    assert Sess(SERVER_START, 0) == Session(None, [], Idle) && env.joinPassword.None?;
    assert Run(env, SERVER_START, []) == SERVER_START;
    hide Next, Acceptable, OpenNode, Sess, Run;
    assert steps[..7] + [steps[7]] == p + q + d + e == steps && steps[..1] == [] + [steps[0]];
    RunPairs(env, p, q, d, e);
    RunSnoc(env, steps[..7], steps[7]);
    RunSnoc(env, [], steps[0]);
    AuthEffect(env, SERVER_START, 0, a, sigA, nonce);
    var v1 := Next(env, SERVER_START, p[0]);
    JoinEffect(env, v1, 0, a, x);
    var w1 := Next(env, v1, p[1]);
    PrepareEffect(env, w1, 0, a, x);
    ReadyEffect(env, Next(env, w1, q[0]), 0, a, x);
    var w2 := Next(env, Next(env, w1, q[0]), q[1]);
    StoredEffect(env, w2, 0, a, x);
    JoinedEffect(env, Next(env, w2, d[0]), 0, a, x);
    var w3 := Next(env, Next(env, w2, d[0]), d[1]);
    RekeyEffect(env, w3, 0, a, b, sigB, nonce, [c]);
    SixAndOne(env, p, q, d, e[0]);
    SendEffect(env, Next(env, w3, e[0]), 0, b, c);
    assert p + q + d + [e[0]] == steps[..7];
    ClientKey(Next(env, w3, e[0]), 0, b, [c]);
    ClientKey(v1, 0, a, []);
  }

  lemma {:induction false} ClientKey(w: World, sid: nat, pk: Key, joined: seq<Key>)
    requires Sess(w, sid) == Client(Idle, pk, joined)
    ensures Sess(w, sid).clientPk == Some(pk)
  {
  }

  lemma {:induction false} SixAndOne(env: Env, p: seq<Step>, q: seq<Step>, d: seq<Step>, last: Step)
    requires |p| == 2 && |q| == 2 && |d| == 2
    ensures var w1 := Next(env, Next(env, SERVER_START, p[0]), p[1]);
            var w2 := Next(env, Next(env, w1, q[0]), q[1]);
            var w3 := Next(env, Next(env, w2, d[0]), d[1]);
            Run(env, SERVER_START, p + q + d + [last]) == Next(env, w3, last)
  {
    assert Run(env, SERVER_START, []) == SERVER_START;
    hide Next, Run;
    assert [] + p == p && p == [p[0], p[1]] && q == [q[0], q[1]] && d == [d[0], d[1]];
    RunTwo(env, [], p[0], p[1]);
    RunTwo(env, p, q[0], q[1]);
    RunTwo(env, p + q, d[0], d[1]);
    RunSnoc(env, p + q + d, last);
  }
}
