/** Who gets into a community: in every run of the session machine each joined community goes back to one
    join on that session that was allowed when it started (crates/bitcord-core/src/node/handler.rs:713-838). */
module Admission {
  import opened Wrappers
  import opened Sessions

  /** The world before step number `k` of a run. */
  ghost function At(env: Env, steps: seq<Step>, k: nat): World
    requires k <= |steps|
  {
    Run(env, SERVER_START, steps[..k])
  }

  /** The join password, if there is one, was given, and the certificate is for this node, signed by its
      community and not expired. */
  ghost predicate ByCertificate(env: Env, cert: Cert, password: Option<string>, now: nat) {
    && (env.joinPassword.None? || env.joinPassword == Some(if password.Some? then password.value else ""))
    && cert.nodePk == env.nodePk && env.signed(cert) && now <= cert.expiresAt
  }

  /** An idle, authenticated session asks for a well-formed community and is a listed member of it, or else
      has the password and a valid certificate. A failed read counts as no members. */
  ghost predicate Allowed(env: Env, w: World, sid: nat, cert: Cert, password: Option<string>, now: nat, ok: bool) {
    var s := Sess(w, sid);
    && s.pc.Idle? && s.clientPk.Some? && env.validKey(cert.communityPk)
    && (IsMember(Lookup(w.store, cert.communityPk, ok), s.clientPk.value) || ByCertificate(env, cert, password, now))
  }

  /** Step `i` of the run starts an allowed join with certificate `cert` on session `sid`. */
  ghost predicate Starts(env: Env, steps: seq<Step>, i: nat, sid: nat, cert: Cert)
    requires i < |steps|
  {
    && steps[i].Start? && steps[i].sid == sid && steps[i].req.JoinCommunity? && steps[i].req.cert == cert
    && Allowed(env, At(env, steps, i), sid, cert, steps[i].req.password, steps[i].now, steps[i].ok)
  }

  /** A session in the middle of a join with this certificate. */
  predicate Busy(s: Session, cert: Cert) {
    (s.pc.Authorized? || s.pc.Prepared? || s.pc.Writing? || s.pc.Joining?) && s.pc.cert == cert
  }

  /** From after step `i` until before step `n` the session is in the middle of that join. */
  ghost predicate BusySince(env: Env, steps: seq<Step>, i: nat, n: nat, sid: nat, cert: Cert)
    requires n <= |steps|
  {
    forall k :: i < k <= n ==> Busy(Sess(At(env, steps, k), sid), cert)
  }

  /** The session is in the middle of a join that was allowed when it started. */
  ghost predicate InJoin(env: Env, steps: seq<Step>, sid: nat, cert: Cert) {
    exists i :: 0 <= i < |steps| && Starts(env, steps, i, sid, cert) && BusySince(env, steps, i, |steps|, sid, cert)
  }

  /** Step `i` starts an allowed join and step `j` completes it. */
  ghost predicate JoinsBy(env: Env, steps: seq<Step>, i: nat, j: nat, sid: nat, cert: Cert)
    requires i < j < |steps|
  {
    && Starts(env, steps, i, sid, cert) && BusySince(env, steps, i, j, sid, cert)
    && steps[j].Advance? && steps[j].sid == sid && Sess(At(env, steps, j), sid).pc.Joining?
    && cert.communityPk in Sess(At(env, steps, j + 1), sid).joined
  }

  ghost predicate HasJoin(env: Env, steps: seq<Step>, sid: nat, c: Key) {
    exists i, j, cert :: 0 <= i < j < |steps| && JoinsBy(env, steps, i, j, sid, cert) && cert.communityPk == c
  }

  // ---------- One step ----------

  lemma {:induction false} DecisionMeans(env: Env, w: World, sid: nat, cert: Cert, password: Option<string>, now: nat,
                                         ok: bool)
    requires Sess(w, sid).pc.Idle?
    ensures var d :=
            JoinDecision(env, Sess(w, sid).clientPk, Lookup(w.store, cert.communityPk, ok), cert, password, now);
            && (!d.Refused? <==> Allowed(env, w, sid, cert, password, now, ok))
            && (d.ByCert? ==> ByCertificate(env, cert, password, now))
            && (d.AsMember? ==> cert.communityPk in w.store)
  {
  }

  /** A session gets into the middle of a join only by starting one that is allowed. */
  lemma {:induction false} BusyStep(env: Env, w: World, step: Step, sid: nat, cert: Cert)
    requires Busy(Sess(Next(env, w, step), sid), cert) && !Busy(Sess(w, sid), cert)
    ensures step.Start? && step.sid == sid && step.req.JoinCommunity? && step.req.cert == cert
    ensures Allowed(env, w, sid, cert, step.req.password, step.now, step.ok)
  {
    hide JoinDecision, Allowed, Lookup, WithPayload, Placeholder, Write;
    if step.Start? && step.sid == sid && step.req.JoinCommunity? && Sess(w, sid).pc.Idle? {
      DecisionMeans(env, w, sid, step.req.cert, step.req.password, step.now, step.ok);
    }
  }

  /** A community is joined only by completing a join. */
  lemma {:induction false} JoinedStep(env: Env, w: World, step: Step, sid: nat, c: Key)
    requires c in Sess(Next(env, w, step), sid).joined && c !in Sess(w, sid).joined
    ensures var s := Sess(w, sid);
            step.Advance? && step.sid == sid && s.pc.Joining? && s.pc.cert.communityPk == c
  {
    hide JoinDecision, Lookup, WithPayload, Placeholder, Write;
  }

  // ---------- Histories grow ----------

  lemma {:induction false} SamePast(env: Env, u: seq<Step>, step: Step, k: nat)
    requires k <= |u|
    ensures At(env, u + [step], k) == At(env, u, k)
  {
    assert (u + [step])[..k] == u[..k];
  }

  lemma {:induction false} LastStep(env: Env, u: seq<Step>, step: Step)
    ensures At(env, u, |u|) == Run(env, SERVER_START, u)
    ensures At(env, u + [step], |u| + 1) == Run(env, SERVER_START, u + [step])
            == Next(env, Run(env, SERVER_START, u), step)
  {
    assert u[..|u|] == u && (u + [step])[..|u| + 1] == u + [step] && (u + [step])[..|u|] == u;
  }

  lemma {:induction false} StartsStays(env: Env, u: seq<Step>, step: Step, i: nat, sid: nat, cert: Cert)
    requires i < |u|
    ensures Starts(env, u, i, sid, cert) <==> Starts(env, u + [step], i, sid, cert)
  {
    hide At, Allowed;
    SamePast(env, u, step, i);
  }

  lemma {:induction false} BusyStays(env: Env, u: seq<Step>, step: Step, i: nat, n: nat, sid: nat, cert: Cert)
    requires n <= |u| && BusySince(env, u, i, n, sid, cert)
    ensures BusySince(env, u + [step], i, n, sid, cert)
  {
    hide At, Busy;
    forall k | i < k <= n
      ensures Busy(Sess(At(env, u + [step], k), sid), cert)
    {
      SamePast(env, u, step, k);
    }
  }

  /** The session is still in the middle of the join after one more step. */
  lemma {:induction false} BusyOn(env: Env, u: seq<Step>, step: Step, i: nat, sid: nat, cert: Cert)
    requires i < |u| && BusySince(env, u, i, |u|, sid, cert)
    requires Busy(Sess(Run(env, SERVER_START, u + [step]), sid), cert)
    ensures BusySince(env, u + [step], i, |u| + 1, sid, cert)
  {
    hide At, Busy, Run;
    BusyStays(env, u, step, i, |u|, sid, cert);
    LastStep(env, u, step);
    forall k | i < k <= |u| + 1
      ensures Busy(Sess(At(env, u + [step], k), sid), cert)
    {
    }
  }

  lemma {:induction false} InJoinNext(env: Env, u: seq<Step>, step: Step, sid: nat, cert: Cert)
    requires Busy(Sess(Run(env, SERVER_START, u), sid), cert) ==> InJoin(env, u, sid, cert)
    requires Busy(Sess(Run(env, SERVER_START, u + [step]), sid), cert)
    ensures InJoin(env, u + [step], sid, cert)
  {
    hide At, Busy, Run, Next, BusySince, Starts;
    var w, steps := Run(env, SERVER_START, u), u + [step];
    LastStep(env, u, step);
    if Busy(Sess(w, sid), cert) {
      var i :| 0 <= i < |u| && Starts(env, u, i, sid, cert) && BusySince(env, u, i, |u|, sid, cert);
      StartsStays(env, u, step, i, sid, cert);
      BusyOn(env, u, step, i, sid, cert);
      assert Starts(env, steps, i, sid, cert) && BusySince(env, steps, i, |steps|, sid, cert);
    } else {
      BusyStep(env, w, step, sid, cert);
      JustStarted(env, u, step, sid, cert);
      assert Starts(env, steps, |u|, sid, cert) && BusySince(env, steps, |u|, |steps|, sid, cert);
    }
  }

  lemma {:induction false} JustStarted(env: Env, u: seq<Step>, step: Step, sid: nat, cert: Cert)
    requires step.Start? && step.sid == sid && step.req.JoinCommunity? && step.req.cert == cert
    requires Allowed(env, Run(env, SERVER_START, u), sid, cert, step.req.password, step.now, step.ok)
    requires Busy(Sess(Run(env, SERVER_START, u + [step]), sid), cert)
    ensures Starts(env, u + [step], |u|, sid, cert) && BusySince(env, u + [step], |u|, |u| + 1, sid, cert)
  {
    hide At, Busy, Run, Allowed;
    LastStep(env, u, step);
    SamePast(env, u, step, |u|);
  }

  lemma {:induction false} HasJoinStays(env: Env, u: seq<Step>, step: Step, sid: nat, c: Key)
    requires HasJoin(env, u, sid, c)
    ensures HasJoin(env, u + [step], sid, c)
  {
    hide At, Busy, BusySince, Starts;
    var i, j, cert :| 0 <= i < j < |u| && JoinsBy(env, u, i, j, sid, cert) && cert.communityPk == c;
    StartsStays(env, u, step, i, sid, cert);
    BusyStays(env, u, step, i, j, sid, cert);
    SamePast(env, u, step, j);
    SamePast(env, u, step, j + 1);
    assert JoinsBy(env, u + [step], i, j, sid, cert);
  }

  lemma {:induction false} HasJoinNew(env: Env, u: seq<Step>, step: Step, sid: nat, cert: Cert)
    requires InJoin(env, u, sid, cert) && step.Advance? && step.sid == sid
    requires Sess(Run(env, SERVER_START, u), sid).pc.Joining?
    requires cert.communityPk in Sess(Run(env, SERVER_START, u + [step]), sid).joined
    ensures HasJoin(env, u + [step], sid, cert.communityPk)
  {
    hide At, Busy, BusySince, Starts, Run;
    var i :| 0 <= i < |u| && Starts(env, u, i, sid, cert) && BusySince(env, u, i, |u|, sid, cert);
    StartsStays(env, u, step, i, sid, cert);
    BusyStays(env, u, step, i, |u|, sid, cert);
    SamePast(env, u, step, |u|);
    LastStep(env, u, step);
    assert JoinsBy(env, u + [step], i, |u|, sid, cert);
  }

  // ---------- Every run ----------

  /** In every interleaved run, store failures included, whoever is in the middle of a join was allowed to
      start it, and whoever has joined a community completed such a join. */
  lemma {:induction false} JoinsWereAllowed(env: Env, steps: seq<Step>, sid: nat)
    ensures forall cert :: Busy(Sess(Run(env, SERVER_START, steps), sid), cert) ==> InJoin(env, steps, sid, cert)
    ensures forall c :: c in Sess(Run(env, SERVER_START, steps), sid).joined ==> HasJoin(env, steps, sid, c)
  {
    if steps == [] {
    } else {
      var u, step := steps[..|steps| - 1], steps[|steps| - 1];
      assert steps == u + [step];
      JoinsWereAllowed(env, u, sid);
      hide Busy, InJoin, HasJoin, Run, Sess;
      forall cert | Busy(Sess(Run(env, SERVER_START, steps), sid), cert)
        ensures InJoin(env, steps, sid, cert)
      {
        InJoinNext(env, u, step, sid, cert);
      }
      forall c | c in Sess(Run(env, SERVER_START, steps), sid).joined
        ensures HasJoin(env, steps, sid, c)
      {
        JoinedNext(env, u, step, sid, c);
      }
    }
  }

  lemma {:induction false} JoinedNext(env: Env, u: seq<Step>, step: Step, sid: nat, c: Key)
    requires forall cert :: Busy(Sess(Run(env, SERVER_START, u), sid), cert) ==> InJoin(env, u, sid, cert)
    requires c in Sess(Run(env, SERVER_START, u), sid).joined ==> HasJoin(env, u, sid, c)
    requires c in Sess(Run(env, SERVER_START, u + [step]), sid).joined
    ensures HasJoin(env, u + [step], sid, c)
  {
    hide InJoin, HasJoin, Run, Next;
    var w := Run(env, SERVER_START, u);
    LastStep(env, u, step);
    if c in Sess(w, sid).joined {
      HasJoinStays(env, u, step, sid, c);
    } else {
      JoinedStep(env, w, step, sid, c);
      HasJoinNew(env, u, step, sid, Sess(w, sid).pc.cert);
    }
  }

  /** So every request accepted for a community, and every push relayed for it, comes after an allowed and
      completed join on the same session. */
  lemma {:induction false} AcceptedAfterAllowedJoin(env: Env, u: seq<Step>, step: Step, e: Event, c: Key)
    requires Run(env, SERVER_START, u + [step]).log == Run(env, SERVER_START, u).log + [e]
    requires e == Accepted(e.sid, c) || e == Relayed(e.sid, Some(c))
    ensures HasJoin(env, u, e.sid, c)
  {
    JoinsWereAllowed(env, u, e.sid);
    LastStep(env, u, step);
    hide HasJoin, Run, InJoin;
    LoggedForMember(env, Run(env, SERVER_START, u), step, e, c);
  }

  lemma {:induction false} LoggedForMember(env: Env, w: World, step: Step, e: Event, c: Key)
    requires Next(env, w, step).log == w.log + [e] && (e == Accepted(e.sid, c) || e == Relayed(e.sid, Some(c)))
    ensures c in Sess(w, e.sid).joined
  {
    hide JoinDecision, Lookup, WithPayload, Placeholder, Write;
    var log := Next(env, w, step).log;
    assert log[|w.log|] == e;
    if step.Advance? {
      AdvanceLogsJoins(env, w, step.sid, step.ok);
    }
  }

  lemma {:induction false} AdvanceLogsJoins(env: Env, w: World, sid: nat, ok: bool)
    ensures var log := AdvanceRequest(env, w, sid, ok).log;
            log == w.log || (|w.log| < |log| && log[|w.log|].Joined?)
  {
  }

  // ---------- Under which key ----------

  /** Step `k` of the run gives session `sid` the key `pk`. */
  ghost predicate Rekeys(env: Env, steps: seq<Step>, k: nat, sid: nat, pk: Key)
    requires k < |steps|
  {
    Proves(env, steps[k], sid, pk) && Sess(At(env, steps, k), sid).pc.Idle?
  }

  /** Step `k` gives the session key `pk`, and no later step gives it one. */
  ghost predicate RekeysLast(env: Env, steps: seq<Step>, k: nat, sid: nat, pk: Key)
    requires k < |steps|
  {
    Rekeys(env, steps, k, sid, pk) && forall l, other :: k < l < |steps| ==> !Rekeys(env, steps, l, sid, other)
  }

  /** The last key that the session was given from step `i` on is another one than `key`. */
  ghost predicate RekeyedSince(env: Env, steps: seq<Step>, i: nat, sid: nat, key: Option<Key>) {
    exists k, pk :: i <= k < |steps| && RekeysLast(env, steps, k, sid, pk) && Some(pk) != key
  }

  lemma {:induction false} KeyStep(env: Env, w: World, step: Step, sid: nat)
    ensures var before, after := Sess(w, sid), Sess(Next(env, w, step), sid);
            if before.pc.Idle? && step.Start? && step.req.Authenticate? && Proves(env, step, sid, step.req.pk)
            then after.clientPk == Some(step.req.pk)
            else after.clientPk == before.clientPk
  {
    hide JoinDecision, Lookup, WithPayload, Placeholder, Write;
  }

  lemma {:induction false} RekeysStays(env: Env, u: seq<Step>, step: Step, k: nat, sid: nat, pk: Key)
    requires k < |u|
    ensures Rekeys(env, u + [step], k, sid, pk) <==> Rekeys(env, u, k, sid, pk)
  {
    hide At, Proves;
    SamePast(env, u, step, k);
  }

  lemma {:induction false} RekeysNow(env: Env, u: seq<Step>, step: Step, sid: nat, pk: Key)
    ensures Rekeys(env, u + [step], |u|, sid, pk) <==>
            Proves(env, step, sid, pk) && Sess(Run(env, SERVER_START, u), sid).pc.Idle?
  {
    hide Run, Proves;
    SamePast(env, u, step, |u|);
    LastStep(env, u, step);
  }

  /** A step that gives the session key `pk` is the last that gives it one. */
  lemma {:induction false} RekeyedNow(env: Env, u: seq<Step>, step: Step, i: nat, sid: nat, pk: Key, key: Option<Key>)
    requires i <= |u| && Rekeys(env, u + [step], |u|, sid, pk)
    ensures RekeyedSince(env, u + [step], i, sid, key) <==> Some(pk) != key
  {
    hide At, Run;
    var steps := u + [step];
    if Some(pk) != key {
      assert RekeysLast(env, steps, |u|, sid, pk);
    }
    forall k, other | i <= k < |steps| && RekeysLast(env, steps, k, sid, other)
      ensures other == pk
    {
    }
  }

  /** A step that gives it none changes nothing. */
  lemma {:induction false} RekeyedBefore(env: Env, u: seq<Step>, step: Step, i: nat, sid: nat, key: Option<Key>)
    requires i <= |u| && forall pk :: !Rekeys(env, u + [step], |u|, sid, pk)
    ensures RekeyedSince(env, u + [step], i, sid, key) <==> RekeyedSince(env, u, i, sid, key)
  {
    hide Rekeys;
    var steps := u + [step];
    forall k: nat, pk | k < |u|
      ensures Rekeys(env, steps, k, sid, pk) <==> Rekeys(env, u, k, sid, pk)
    {
      RekeysStays(env, u, step, k, sid, pk);
    }
    forall k: nat, pk | k < |u|
      ensures RekeysLast(env, steps, k, sid, pk) <==> RekeysLast(env, u, k, sid, pk)
    {
    }
  }

  /** Authenticating again keeps what the session has joined. So a request is made under the key of the join that let
      it in, or of any earlier step, if and only if the last key the session was given since is no other one. */
  lemma {:induction false} KeyKeptIff(env: Env, steps: seq<Step>, i: nat, sid: nat)
    requires i <= |steps|
    ensures var was, now := Sess(At(env, steps, i), sid).clientPk, Sess(Run(env, SERVER_START, steps), sid).clientPk;
            now == was <==> !RekeyedSince(env, steps, i, sid, was)
    decreases |steps|
  {
    hide Rekeys, RekeyedSince, Run, Next, Proves, Sess;
    if i == |steps| {
      assert steps[..i] == steps;
      NoneSince(env, steps, sid);
    } else {
      var n := |steps| - 1;
      var u, step := steps[..n], steps[n];
      assert steps == u + [step];
      KeyKeptIff(env, u, i, sid);
      SamePast(env, u, step, i);
      LastStep(env, u, step);
      KeyKeptStep(env, u, step, i, sid);
    }
  }

  lemma {:induction false} NoneSince(env: Env, steps: seq<Step>, sid: nat)
    ensures forall key :: !RekeyedSince(env, steps, |steps|, sid, key)
  {
  }

  lemma {:induction false} KeyKeptStep(env: Env, u: seq<Step>, step: Step, i: nat, sid: nat)
    requires i <= |u|
    requires var key, w := Sess(At(env, u, i), sid).clientPk, Run(env, SERVER_START, u);
             Sess(w, sid).clientPk == key <==> !RekeyedSince(env, u, i, sid, key)
    ensures var key, w := Sess(At(env, u, i), sid).clientPk, Run(env, SERVER_START, u);
            Sess(Next(env, w, step), sid).clientPk == key <==> !RekeyedSince(env, u + [step], i, sid, key)
  {
    hide Run, Next, At, RekeyedSince, Rekeys;
    var key, w := Sess(At(env, u, i), sid).clientPk, Run(env, SERVER_START, u);
    KeyStep(env, w, step, sid);
    if Sess(w, sid).pc.Idle? && step.Start? && step.req.Authenticate? && Proves(env, step, sid, step.req.pk) {
      RekeysNow(env, u, step, sid, step.req.pk);
      RekeyedNow(env, u, step, i, sid, step.req.pk, key);
    } else {
      forall pk
        ensures !Rekeys(env, u + [step], |u|, sid, pk)
      {
        RekeysNow(env, u, step, sid, pk);
      }
      RekeyedBefore(env, u, step, i, sid, key);
    }
  }
}
