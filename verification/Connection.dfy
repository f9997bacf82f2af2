/** The connection manager (crates/bitcord-core/src/network/connection_manager.rs): its three states, its push
    readers and the reconnect loop. What the network does - whether an attempt succeeds, whether a connection
    is closed, when a reader fails - is handed in. */
module Connection {
  import opened Bits
  import opened Wrappers

  datatype ConnState = Fresh | Connected(conn: nat) | Down

  // ---------- State machine ----------

  /** Connections are numbered as they are opened. `readers` holds, for every push reader that is running,
      the connection it reads from. */
  datatype Manager = Manager(state: ConnState, total: nat, readers: multiset<nat>)

  datatype Step =
    | Get(succeeds: bool, closed: bool)
    | Subscribe(succeeds: bool, closed: bool)
    | ReaderStops(reader: nat)
    | ReaderFails(reader: nat)
    | Reconnect(succeeds: bool)

  const START: Manager := Manager(Fresh, 0, multiset{})

  function Open(m: Manager): Manager {
    m.(state := Connected(m.total), total := m.total + 1)
  }

  function GetState(m: Manager, succeeds: bool, closed: bool): Manager {
    match m.state
    case Fresh => if succeeds then Open(m) else m
    case Connected(_) => if closed then m.(state := Down) else m
    case Down => m
  }

  function Next(m: Manager, step: Step): Manager {
    match step
    case Get(succeeds, closed) => GetState(m, succeeds, closed)
    case Subscribe(succeeds, closed) =>
      var got := GetState(m, succeeds, closed);
      if got.state.Connected? then got.(readers := got.readers + multiset{got.state.conn}) else got
    case ReaderStops(r) => m.(readers := m.readers - multiset{r})
    case ReaderFails(r) => if r in m.readers then m.(state := Down, readers := m.readers - multiset{r}) else m
    case Reconnect(succeeds) => if succeeds then Open(m) else m
  }

  function Run(m: Manager, steps: seq<Step>): Manager {
    if steps == [] then m else Next(Run(m, steps[..|steps| - 1]), steps[|steps| - 1])
  }

  ghost predicate NoReconnect(steps: seq<Step>) {
    forall i :: 0 <= i < |steps| ==> !steps[i].Reconnect?
  }

  /** A connected manager uses the connection opened last, and readers read from connections that were
      opened. */
  ghost predicate Inv(m: Manager) {
    && (m.state.Fresh? ==> m.total == 0)
    && (m.state.Connected? ==> m.total == m.state.conn + 1)
    && forall r :: r in m.readers ==> r < m.total
  }

  lemma {:induction false} RunKeepsInv(steps: seq<Step>)
    ensures Inv(Run(START, steps))
  {
    hide Inv, Next;
    if steps == [] {
      StartInv();
    } else {
      RunKeepsInv(steps[..|steps| - 1]);
      StepKeepsInv(Run(START, steps[..|steps| - 1]), steps[|steps| - 1]);
    }
  }

  lemma {:induction false} StartInv()
    ensures Inv(START)
  {
  }

  lemma {:induction false} StepKeepsInv(m: Manager, step: Step)
    requires Inv(m)
    ensures Inv(Next(m, step))
  {
  }

  /** Without reconnecting, a manager that has left `Fresh` never returns to it, and `Down` is final. */
  lemma {:induction false} DownIsPermanent(m: Manager, steps: seq<Step>)
    requires NoReconnect(steps)
    ensures m.state.Down? ==> Run(m, steps).state == Down
    ensures !m.state.Fresh? ==> !Run(m, steps).state.Fresh? && Run(m, steps).total == m.total
  {
    if steps == [] {
    } else {
      DownIsPermanent(m, steps[..|steps| - 1]);
    }
  }

  /** Without reconnecting, a manager opens at most one connection in its whole life. */
  lemma {:induction false} OpensAtMostOnce(steps: seq<Step>)
    requires NoReconnect(steps)
    ensures Run(START, steps).total <= 1
  {
    if steps == [] {
    } else {
      OpensAtMostOnce(steps[..|steps| - 1]);
      RunKeepsInv(steps[..|steps| - 1]);
    }
  }

  // ---------- What put the manager in its state ----------

  /** An attempt to connect that succeeds if it is made. */
  predicate Opening(step: Step) {
    match step
    case Get(succeeds, _) => succeeds
    case Subscribe(succeeds, _) => succeeds
    case Reconnect(succeeds) => succeeds
    case ReaderStops(_) => false
    case ReaderFails(_) => false
  }

  /** A call that finds the connection closed, or the failure of a running reader. */
  predicate Closing(m: Manager, step: Step) {
    match step
    case Get(_, closed) => closed
    case Subscribe(_, closed) => closed
    case Reconnect(_) => false
    case ReaderStops(_) => false
    case ReaderFails(r) => r in m.readers
  }

  ghost predicate Opened(steps: seq<Step>) {
    exists i :: 0 <= i < |steps| && Opening(steps[i])
  }

  lemma {:induction false} OneMoreOpening(steps: seq<Step>)
    requires steps != []
    ensures var n := |steps| - 1; Opened(steps) <==> Opened(steps[..n]) || Opening(steps[n])
  {
    hide Opening;
    var n := |steps| - 1;
    assert forall i :: 0 <= i < n ==> steps[..n][i] == steps[i];
  }

  /** A manager is `Fresh` exactly until the first attempt that succeeds: failed attempts leave it so. */
  lemma {:induction false} FreshIff(steps: seq<Step>)
    ensures Run(START, steps).state.Fresh? <==> !Opened(steps)
  {
    if steps == [] {
    } else {
      var n := |steps| - 1;
      FreshIff(steps[..n]);
      RunKeepsInv(steps[..n]);
      hide Opened, Opening, Next, Inv;
      OneMoreOpening(steps);
      FreshStep(Run(START, steps[..n]), steps[n]);
    }
  }

  lemma {:induction false} FreshStep(m: Manager, step: Step)
    requires Inv(m)
    ensures Next(m, step).state.Fresh? <==> m.state.Fresh? && !Opening(step)
  {
  }

  /** Step `i` closed an opened connection and nobody has reconnected since. */
  ghost predicate ClosedAt(steps: seq<Step>, i: nat)
    requires i < |steps|
  {
    && Opened(steps[..i])
    && Closing(Run(START, steps[..i]), steps[i])
    && forall j :: i < j < |steps| ==> steps[j] != Reconnect(true)
  }

  ghost predicate Closed(steps: seq<Step>) {
    exists i :: 0 <= i < |steps| && ClosedAt(steps, i)
  }

  lemma {:induction false} ClosedEarlier(steps: seq<Step>, i: nat)
    requires i + 1 < |steps|
    ensures var n := |steps| - 1; ClosedAt(steps, i) <==> ClosedAt(steps[..n], i) && steps[n] != Reconnect(true)
  {
    hide Opened, Closing, Run;
    var n := |steps| - 1;
    assert steps[..n][..i] == steps[..i];
    assert forall j :: 0 <= j < n ==> steps[..n][j] == steps[j];
  }

  lemma {:induction false} OneMoreClosing(steps: seq<Step>)
    requires steps != []
    ensures var n := |steps| - 1;
            Closed(steps) <==> (Closed(steps[..n]) && steps[n] != Reconnect(true))
                               || (Opened(steps[..n]) && Closing(Run(START, steps[..n]), steps[n]))
  {
    hide Opened, Closing, Run;
    var n := |steps| - 1;
    assert ClosedAt(steps, n) <==> Opened(steps[..n]) && Closing(Run(START, steps[..n]), steps[n]);
    forall i | 0 <= i < n
      ensures ClosedAt(steps, i) <==> ClosedAt(steps[..n], i) && steps[n] != Reconnect(true)
    {
      ClosedEarlier(steps, i);
    }
    hide ClosedAt;
  }

  /** A manager is `Down` exactly when an opened connection was found closed or a reader failed, and no
      reconnect has succeeded since. */
  lemma {:induction false} DownIff(steps: seq<Step>)
    ensures Run(START, steps).state.Down? <==> Closed(steps)
  {
    if steps == [] {
    } else {
      var n := |steps| - 1;
      DownIff(steps[..n]);
      FreshIff(steps[..n]);
      RunKeepsInv(steps[..n]);
      hide Opened, Closed, Closing, Next, Inv;
      OneMoreClosing(steps);
      DownStep(Run(START, steps[..n]), steps[n]);
    }
  }

  lemma {:induction false} DownStep(m: Manager, step: Step)
    requires Inv(m)
    ensures Next(m, step).state.Down?
            <==> (m.state.Down? && step != Reconnect(true)) || (!m.state.Fresh? && Closing(m, step))
  {
  }

  // ---------- Stale readers ----------

  /** A reader of a connection other than the current one is still running. */
  ghost predicate HasStaleReader(m: Manager) {
    m.state.Connected? && exists r :: r in m.readers && r != m.state.conn
  }

  /** Steps that give connection `conn` no reason to go: nobody reconnects, nobody finds it closed, and its
      own readers do not fail. */
  ghost predicate Undisturbed(steps: seq<Step>, conn: nat) {
    forall i :: 0 <= i < |steps| ==> Harmless(steps[i], conn)
  }

  predicate Harmless(step: Step, conn: nat) {
    match step
    case Get(_, closed) => !closed
    case Subscribe(_, closed) => !closed
    case ReaderStops(_) => true
    case ReaderFails(r) => r != conn
    case Reconnect(_) => false
  }

  /** Step `i` is the failure of a reader of an earlier connection. */
  ghost predicate StaleFailure(m: Manager, steps: seq<Step>, i: nat)
    requires i < |steps|
  {
    var at := Run(m, steps[..i]);
    at.state.Connected? && steps[i].ReaderFails? && steps[i].reader in at.readers && steps[i].reader < at.state.conn
  }

  lemma {:induction false} StepLasts(m: Manager, step: Step, conn: nat)
    requires Inv(m) && (m.state == Connected(conn) || m.state == Down) && Harmless(step, conn)
    ensures Inv(Next(m, step)) && (Next(m, step).state == Connected(conn) || Next(m, step).state == Down)
    ensures m.state.Down? ==> Next(m, step).state == Down
    ensures m.state.Connected? ==>
              (Next(m, step).state == Down <==> step.ReaderFails? && step.reader in m.readers && step.reader < conn)
  {
  }

  lemma {:induction false} EarlierFailure(m: Manager, steps: seq<Step>, n: nat, i: nat)
    requires i < n <= |steps|
    ensures StaleFailure(m, steps[..n], i) <==> StaleFailure(m, steps, i)
  {
    hide Run;
    assert steps[..n][..i] == steps[..i] && steps[..n][i] == steps[i];
  }

  ghost predicate HasStaleFailure(m: Manager, steps: seq<Step>) {
    exists i :: 0 <= i < |steps| && StaleFailure(m, steps, i)
  }

  lemma {:induction false} OneMoreFailure(m: Manager, steps: seq<Step>)
    requires steps != []
    ensures var n := |steps| - 1;
            HasStaleFailure(m, steps) <==> HasStaleFailure(m, steps[..n]) || StaleFailure(m, steps, n)
  {
    hide StaleFailure;
    var n := |steps| - 1;
    forall i | 0 <= i < n
      ensures StaleFailure(m, steps[..n], i) <==> StaleFailure(m, steps, i)
    {
      EarlierFailure(m, steps, n, i);
    }
  }

  /** An undisturbed connection lasts exactly as long as no reader of an earlier connection fails. */
  lemma {:induction false} LastsIff(m: Manager, steps: seq<Step>)
    requires Inv(m) && m.state.Connected? && Undisturbed(steps, m.state.conn)
    ensures Inv(Run(m, steps))
    ensures Run(m, steps).state == m.state || Run(m, steps).state == Down
    ensures Run(m, steps).state == Down <==> HasStaleFailure(m, steps)
  {
    if steps == [] {
    } else {
      var n := |steps| - 1;
      LastsIff(m, steps[..n]);
      assert Harmless(steps[n], m.state.conn);
      hide Inv, Next, Harmless, HasStaleFailure;
      StepLasts(Run(m, steps[..n]), steps[n], m.state.conn);
      OneMoreFailure(m, steps);
    }
  }

  /** In every reachable state, an undisturbed connection can be taken down if and only if a reader of an
      earlier connection is still running. */
  lemma {:induction false} TakenDownIff(history: seq<Step>)
    requires Run(START, history).state.Connected?
    ensures var m := Run(START, history);
            (exists steps :: Undisturbed(steps, m.state.conn) && Run(m, steps).state == Down) <==> HasStaleReader(m)
  {
    var m := Run(START, history);
    RunKeepsInv(history);
    if HasStaleReader(m) {
      var r :| r in m.readers && r != m.state.conn;
      var steps := [ReaderFails(r)];
      assert steps[..0] == [];
      assert Undisturbed(steps, m.state.conn) && Run(m, steps).state == Down;
    } else {
      forall steps | Undisturbed(steps, m.state.conn)
        ensures Run(m, steps).state != Down
      {
        NoStaleReaderAppears(m, steps);
      }
    }
  }

  lemma {:induction false} NoStaleReaderAppears(m: Manager, steps: seq<Step>)
    requires m.state.Connected? && !HasStaleReader(m) && Undisturbed(steps, m.state.conn)
    ensures Run(m, steps).state == m.state && !HasStaleReader(Run(m, steps))
  {
    if steps == [] {
    } else {
      var n := |steps| - 1;
      NoStaleReaderAppears(m, steps[..n]);
      assert Harmless(steps[n], m.state.conn);
    }
  }

  /** Where nobody reconnects there is no stale reader: a connection goes down only because it was found
      closed or because its own reader failed. */
  lemma {:induction false} NoStaleReaderWithoutReconnect(history: seq<Step>)
    requires NoReconnect(history)
    ensures !HasStaleReader(Run(START, history))
  {
    OpensAtMostOnce(history);
    RunKeepsInv(history);
  }

  /** With reconnecting there can be one: `n` connections, each with a reader, leave n - 1 of them. */
  ghost function Reopened(n: nat): seq<Step> {
    if n == 0 then [] else Reopened(n - 1) + [Reconnect(true), Subscribe(false, false)]
  }

  lemma {:induction false} ReopenedLeavesReaders(n: nat)
    requires n > 0
    ensures var m := Run(START, Reopened(n));
            m.state == Connected(n - 1) && m.total == n
            && forall r: nat :: m.readers[r] == if r < n then 1 else 0
  {
    var before := Run(START, Reopened(n - 1));
    if n > 1 {
      ReopenedLeavesReaders(n - 1);
    } else {
      assert before == START;
    }
    var steps := Reopened(n);
    assert steps[..|steps| - 1][..|steps| - 2] == Reopened(n - 1);
    assert Run(START, steps[..|steps| - 1]) == Next(before, Reconnect(true));
  }

  /** So any of the readers of the first n - 1 connections takes the last connection down. */
  lemma {:induction false} StaleReaderTakesNewConnectionDown(n: nat, r: nat)
    requires r + 1 < n
    ensures var m := Run(START, Reopened(n));
            m.state == Connected(n - 1) && r != n - 1 && Next(m, ReaderFails(r)).state == Down
  {
    ReopenedLeavesReaders(n);
  }

  /** The readers of the first `k` connections stop, one after the other. */
  ghost function Stops(k: nat): seq<Step> {
    if k == 0 then [] else Stops(k - 1) + [ReaderStops(k - 1)]
  }

  /** A reader that has stopped does no harm: once all readers of earlier connections have stopped, nothing but
      its own readers and its own closing takes the last connection down. */
  lemma {:induction false} StoppedReadersAreHarmless(n: nat, more: seq<Step>)
    requires n > 0 && Undisturbed(more, n - 1)
    ensures Run(Run(START, Reopened(n)), Stops(n - 1) + more).state == Connected(n - 1)
  {
    hide Run, Next, Reopened, Stops, Undisturbed;
    var m := Run(START, Reopened(n));
    ReopenedLeavesReaders(n);
    AfterStops(m, n, n - 1);
    RunAppend(m, Stops(n - 1), more);
    NoStaleReaderAppears(Run(m, Stops(n - 1)), more);
  }

  lemma {:induction false} AfterStops(m: Manager, n: nat, k: nat)
    requires k < n && forall r: nat :: m.readers[r] == if r < n then 1 else 0
    ensures Run(m, Stops(k)).state == m.state
    ensures forall r: nat :: Run(m, Stops(k)).readers[r] == if k <= r < n then 1 else 0
  {
    hide Run;
    RunStops(m, k);
    if k > 0 {
      AfterStops(m, n, k - 1);
    }
  }

  lemma {:induction false} RunStops(m: Manager, k: nat)
    ensures Run(m, Stops(k)) == if k == 0 then m else Next(Run(m, Stops(k - 1)), ReaderStops(k - 1))
  {
    hide Next;
    if k > 0 {
      assert Stops(k)[..|Stops(k)| - 1] == Stops(k - 1);
    }
  }

  lemma {:induction false} RunAppend(m: Manager, a: seq<Step>, b: seq<Step>)
    ensures Run(m, a + b) == Run(Run(m, a), b)
  {
    if b == [] {
      assert a + b == a;
    } else {
      var n := |b| - 1;
      RunAppend(m, a, b[..n]);
      assert (a + b)[..|a + b| - 1] == a + b[..n];
    }
  }

  // ---------- Back-off ----------

  const FIRST_DELAY: nat := 100
  const MAX_DELAY: nat := 30_000

  function Min(a: nat, b: nat): nat {
    if a < b then a else b
  }

  /** The pause after failed attempt `k`, in milliseconds: 100 doubled k - 1 times, at most 30 s. */
  function Delay(k: nat): nat
    requires k > 0
  {
    Min(FIRST_DELAY * Pow2(k - 1), MAX_DELAY)
  }

  function Sum(s: seq<nat>): nat {
    if s == [] then 0 else Sum(s[..|s| - 1]) + s[|s| - 1]
  }

  datatype Reconnected = Opened(conn: nat) | GaveUp | Panicked

  class ConnectionManager {
    var state: ConnState
    /** How many connections were opened; the next one gets this number. */
    var total: nat
    /** The connections that running push readers read from. */
    ghost var readers: multiset<nat>

    ghost function AsValue(): Manager
      reads this
    {
      Manager(state, total, readers)
    }

    constructor ()
      ensures AsValue() == START
    {
      state, total, readers := Fresh, 0, multiset{};
    }

    /** One handshake. */
    method TryConnect(succeeds: bool) returns (r: Option<nat>)
      modifies this`total
      ensures r == if succeeds then Some(old(total)) else None
      ensures total == old(total) + if succeeds then 1 else 0
    {
      if !succeeds {
        return None;
      }
      total := total + 1;
      return Some(total - 1);
    }

    method GetConnection(succeeds: bool, closed: bool) returns (r: Option<nat>)
      modifies this`state, this`total
      ensures AsValue() == Next(old(AsValue()), Get(succeeds, closed))
      ensures r == if state.Connected? then Some(state.conn) else None
      ensures old(state).Fresh? ==> if succeeds then r == Some(old(total)) else r.None? && state == Fresh
      ensures old(state).Connected? ==> if closed then r.None? && state == Down else r == Some(old(state).conn)
      ensures old(state).Down? ==> r.None? && state == Down
    {
      match state
      case Fresh =>
        var conn := TryConnect(succeeds);
        if conn.None? {
          return None;
        }
        state := Connected(conn.value);
        return conn;
      case Connected(conn) =>
        if !closed {
          return Some(conn);
        }
        state := Down;
        return None;
      case Down =>
        return None;
    }

    /** The start of a push reader: it reads from the connection it gets, if any. */
    method SubscribePush(succeeds: bool, closed: bool) returns (r: Option<nat>)
      modifies this
      ensures AsValue() == Next(old(AsValue()), Subscribe(succeeds, closed))
      ensures r.Some? ==> state == Connected(r.value)
      ensures readers == old(readers) + if r.Some? then multiset{r.value} else multiset{}
    {
      r := GetConnection(succeeds, closed);
      if r.Some? {
        readers := readers + multiset{r.value};
      }
    }

    /** The end of the push reader of connection `conn`. It marks the manager down whatever connection is
        in use by then, if accepting a stream failed; it leaves the state alone if reading a frame failed
        or nobody listens any more. */
    method PushReaderEnds(conn: nat, acceptFailed: bool)
      requires conn in readers
      modifies this`state, this`readers
      ensures AsValue() == Next(old(AsValue()), if acceptFailed then ReaderFails(conn) else ReaderStops(conn))
      ensures readers == old(readers) - multiset{conn} && state == if acceptFailed then Down else old(state)
    {
      readers := readers - multiset{conn};
      if acceptFailed {
        state := Down;
      }
    }

    /** Tries up to `maxAttempts` times. `attempts[k]` says whether attempt k + 1 succeeds. The pauses
        follow `Delay`; the manager is connected to the first attempt that succeeds and otherwise keeps its
        state. The `unreachable!` after the loop is reached exactly when no attempt is allowed. */
    method ReconnectWithBackoff(maxAttempts: nat, attempts: seq<bool>) returns (r: Reconnected, sleeps: seq<nat>)
      requires |attempts| == maxAttempts
      modifies this`state, this`total
      ensures r.Panicked? <==> maxAttempts == 0
      ensures forall k :: 0 <= k < |sleeps| ==> sleeps[k] == Delay(k + 1)
      ensures |sleeps| <= maxAttempts && forall k :: 0 <= k < |sleeps| ==> !attempts[k]
      ensures r.Opened? ==> |sleeps| < maxAttempts && attempts[|sleeps|] && state == Connected(r.conn)
      ensures r.GaveUp? ==> |sleeps| == maxAttempts - 1 && !attempts[maxAttempts - 1]
      ensures AsValue() == Next(old(AsValue()), Reconnect(r.Opened?))
    {
      sleeps := [];
      var delay := FIRST_DELAY;
      for attempt := 1 to maxAttempts + 1
        invariant |sleeps| == attempt - 1 && AsValue() == old(AsValue())
        invariant delay == Delay(attempt)
        invariant forall k :: 0 <= k < |sleeps| ==> sleeps[k] == Delay(k + 1) && !attempts[k]
        invariant attempt == maxAttempts + 1 ==> maxAttempts == 0
      {
        var conn := TryConnect(attempts[attempt - 1]);
        if conn.Some? {
          state := Connected(conn.value);
          return Opened(conn.value), sleeps;
        }
        if attempt < maxAttempts {
          sleeps := sleeps + [delay];
          DelayDoubles(attempt);
          delay := Min(delay * 2, MAX_DELAY);
        } else {
          return GaveUp, sleeps;
        }
      }
      return Panicked, sleeps;
    }
  }

  /** Doubling the current pause and capping it gives the next one. */
  lemma {:induction false} DelayDoubles(k: nat)
    requires k > 0
    ensures Delay(k + 1) == Min(Delay(k) * 2, MAX_DELAY)
  {
    assert Pow2(k) == 2 * Pow2(k - 1);
  }

  /** The pauses of any number of failed attempts add up: 100 * (2^n - 1) milliseconds for up to nine, and
      30 seconds more for every further one. */
  lemma {:induction false} TotalWait(sleeps: seq<nat>)
    requires forall k :: 0 <= k < |sleeps| ==> sleeps[k] == Delay(k + 1)
    ensures Sum(sleeps) == if |sleeps| <= 9 then 100 * (Pow2(|sleeps|) - 1) else 51_100 + 30_000 * (|sleeps| - 9)
  {
    if sleeps == [] {
    } else {
      var n := |sleeps| - 1;
      TotalWait(sleeps[..n]);
      assert Pow2(4) == 16 && Pow2(8) == 16 * Pow2(4) && Pow2(9) == 512;
      if n <= 8 {
        Pow2Monotone(n, 8);
      } else {
        Pow2Monotone(9, n);
      }
    }
  }
}
