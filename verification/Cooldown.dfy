/** Per-community cooldown slots (crates/bitcord-dht/src/routing.rs:186-212). */
module Cooldown {
  import opened Records

  type Slots = map<Key, nat>

  predicate Free(last: Slots, c: Key, now: nat, cooldown: nat) {
    c in last ==> SaturatingSub(now, last[c]) >= cooldown
  }

  function Acquire(last: Slots, c: Key, now: nat, cooldown: nat): Slots {
    if Free(last, c, now, cooldown) then last[c := now] else last
  }

  // ---------- Runs of both kinds of slot for many communities ----------

  datatype Kind = Discover | Announce

  datatype Call = Call(kind: Kind, c: Key, at: nat)

  datatype State = State(lastDiscover: Slots, lastAnnounce: Slots) {
    function Of(kind: Kind): Slots {
      if kind.Discover? then lastDiscover else lastAnnounce
    }
  }

  function Step(s: State, call: Call, cooldown: nat): State {
    match call.kind
    case Discover => s.(lastDiscover := Acquire(s.lastDiscover, call.c, call.at, cooldown))
    case Announce => s.(lastAnnounce := Acquire(s.lastAnnounce, call.c, call.at, cooldown))
  }

  function Run(calls: seq<Call>, cooldown: nat): State {
    if calls == [] then State(map[], map[])
    else Step(Run(calls[..|calls| - 1], cooldown), calls[|calls| - 1], cooldown)
  }

  /** Whether call number `i` of the run is granted. */
  predicate Granted(calls: seq<Call>, i: nat, cooldown: nat)
    requires i < |calls|
  {
    Free(Run(calls[..i], cooldown).Of(calls[i].kind), calls[i].c, calls[i].at, cooldown)
  }

  /** The times at which one slot of one community is granted. */
  function Grants(calls: seq<Call>, kind: Kind, c: Key, cooldown: nat): seq<nat> {
    if calls == [] then []
    else
      var n := |calls| - 1;
      var before := Grants(calls[..n], kind, c, cooldown);
      if calls[n].kind == kind && calls[n].c == c && Granted(calls, n, cooldown) then before + [calls[n].at]
      else before
  }

  /** The run without the calls for any other slot or community. */
  function Only(calls: seq<Call>, kind: Kind, c: Key): seq<Call> {
    if calls == [] then []
    else
      var n := |calls| - 1;
      Only(calls[..n], kind, c) + (if calls[n].kind == kind && calls[n].c == c then [calls[n]] else [])
  }

  ghost predicate Monotone(calls: seq<Call>) {
    forall i, j :: 0 <= i < j < |calls| ==> calls[i].at <= calls[j].at
  }

  ghost predicate Spaced(g: seq<nat>, cooldown: nat) {
    forall i, j :: 0 <= i < j < |g| ==> g[i] + cooldown <= g[j]
  }

  /** The slot map remembers the latest grant. */
  lemma {:induction false} MapHoldsLastGrant(calls: seq<Call>, kind: Kind, c: Key, cooldown: nat)
    ensures var m, g := Run(calls, cooldown).Of(kind), Grants(calls, kind, c, cooldown);
            (c in m <==> g != []) && (c in m ==> m[c] == g[|g| - 1])
  {
    if calls == [] {
    } else {
      MapHoldsLastGrant(calls[..|calls| - 1], kind, c, cooldown);
    }
  }

  lemma {:induction false} GrantsArePast(calls: seq<Call>, kind: Kind, c: Key, cooldown: nat, now: nat)
    requires forall i :: 0 <= i < |calls| ==> calls[i].at <= now
    ensures forall i :: 0 <= i < |Grants(calls, kind, c, cooldown)| ==> Grants(calls, kind, c, cooldown)[i] <= now
  {
    if calls == [] {
    } else {
      GrantsArePast(calls[..|calls| - 1], kind, c, cooldown, now);
    }
  }

  lemma {:induction false} GrantTimesAreSpaced(calls: seq<Call>, kind: Kind, c: Key, cooldown: nat)
    requires Monotone(calls) && cooldown > 0
    ensures Spaced(Grants(calls, kind, c, cooldown), cooldown)
  {
    if calls == [] {
    } else {
      var u, call := calls[..|calls| - 1], calls[|calls| - 1];
      GrantTimesAreSpaced(u, kind, c, cooldown);
      MapHoldsLastGrant(u, kind, c, cooldown);
      GrantsArePast(u, kind, c, cooldown, call.at);
    }
  }

  predicate ForSlot(call: Call, kind: Kind, c: Key) {
    call.kind == kind && call.c == c
  }

  ghost predicate Increasing(at: seq<nat>) {
    forall i, j :: 0 <= i < j < |at| ==> at[i] < at[j]
  }

  /** `at` are the positions of the granted calls of a slot. */
  ghost predicate GrantedAt(at: seq<nat>, calls: seq<Call>, kind: Kind, c: Key, cooldown: nat) {
    && Increasing(at)
    && forall i: nat :: i in at <==> i < |calls| && ForSlot(calls[i], kind, c) && Granted(calls, i, cooldown)
  }

  ghost predicate TimesAt(times: seq<nat>, at: seq<nat>, calls: seq<Call>) {
    |times| == |at| && forall k :: 0 <= k < |at| ==> at[k] < |calls| && times[k] == calls[at[k]].at
  }

  lemma {:induction false} GrantedAtSnoc(at: seq<nat>, calls: seq<Call>, n: nat, kind: Kind, c: Key, cooldown: nat)
    requires n + 1 == |calls| && GrantedAt(at, calls[..n], kind, c, cooldown)
    ensures var also := ForSlot(calls[n], kind, c) && Granted(calls, n, cooldown);
            GrantedAt(if also then at + [n] else at, calls, kind, c, cooldown)
  {
    hide Granted, ForSlot;
    var also := ForSlot(calls[n], kind, c) && Granted(calls, n, cooldown);
    var next := if also then at + [n] else at;
    forall k | 0 <= k < |at|
      ensures at[k] < n
    {
      assert at[k] in at;
    }
    forall i: nat
      ensures i in next <==> i in at || (i == n && also)
    {
    }
    forall i: nat
      ensures i in next <==> i < |calls| && ForSlot(calls[i], kind, c) && Granted(calls, i, cooldown)
    {
      if i < n {
        GrantedEarlier(calls, n, i, cooldown);
      }
    }
  }

  /** The grants of a slot are the times of its granted calls, in the order of the calls. */
  lemma {:induction false} GrantsAre(calls: seq<Call>, kind: Kind, c: Key, cooldown: nat) returns (at: seq<nat>)
    ensures GrantedAt(at, calls, kind, c, cooldown)
    ensures TimesAt(Grants(calls, kind, c, cooldown), at, calls)
  {
    hide Granted, GrantedAt;
    if calls == [] {
      at := [];
      NoneGranted(kind, c, cooldown);
    } else {
      var n := |calls| - 1;
      at := GrantsAre(calls[..n], kind, c, cooldown);
      GrantedAtSnoc(at, calls, n, kind, c, cooldown);
      at := if ForSlot(calls[n], kind, c) && Granted(calls, n, cooldown) then at + [n] else at;
    }
  }

  lemma {:induction false} NoneGranted(kind: Kind, c: Key, cooldown: nat)
    ensures GrantedAt([], [], kind, c, cooldown)
  {
  }

  lemma {:induction false} GrantedEarlier(calls: seq<Call>, n: nat, i: nat, cooldown: nat)
    requires i < n <= |calls|
    ensures Granted(calls[..n], i, cooldown) <==> Granted(calls, i, cooldown)
  {
    hide Run, Free;
    assert calls[..n][..i] == calls[..i];
  }

  /** Call `k` was granted the slot that call `i` asks for, less than the cooldown before. */
  ghost predicate Blocks(calls: seq<Call>, k: nat, i: nat, cooldown: nat)
    requires k < i < |calls|
  {
    && ForSlot(calls[k], calls[i].kind, calls[i].c) && Granted(calls, k, cooldown)
    && calls[i].at < calls[k].at + cooldown
  }

  /** A call is refused exactly when an earlier call was granted the same slot less than the cooldown before. */
  lemma {:induction false} RefusedIff(calls: seq<Call>, i: nat, cooldown: nat)
    requires Monotone(calls) && i < |calls| && cooldown > 0
    ensures !Granted(calls, i, cooldown) <==> exists k :: 0 <= k < i && Blocks(calls, k, i, cooldown)
  {
    var u, call := calls[..i], calls[i];
    var g := Grants(u, call.kind, call.c, cooldown);
    LastGrantDecides(calls, i, cooldown);
    var at := GrantsAre(u, call.kind, call.c, cooldown);
    forall k | 0 <= k < i
      ensures Granted(u, k, cooldown) <==> Granted(calls, k, cooldown)
    {
      GrantedEarlier(calls, i, k, cooldown);
    }
    hide Granted, Grants;
    if !Granted(calls, i, cooldown) {
      var k := at[|g| - 1];
      assert k in at;
      assert Blocks(calls, k, i, cooldown);
    }
    if k :| 0 <= k < i && Blocks(calls, k, i, cooldown) {
      assert k in at;
      var l :| 0 <= l < |at| && at[l] == k;
      assert g[l] == calls[k].at;
    }
  }

  lemma {:induction false} LastGrantDecides(calls: seq<Call>, i: nat, cooldown: nat)
    requires Monotone(calls) && i < |calls| && cooldown > 0
    ensures var g := Grants(calls[..i], calls[i].kind, calls[i].c, cooldown);
            && (!Granted(calls, i, cooldown) <==> g != [] && calls[i].at < g[|g| - 1] + cooldown)
            && forall k :: 0 <= k < |g| ==> g[k] <= g[|g| - 1]
  {
    var u, call := calls[..i], calls[i];
    MapHoldsLastGrant(u, call.kind, call.c, cooldown);
    GrantsArePast(u, call.kind, call.c, cooldown, call.at);
    GrantTimesAreSpaced(u, call.kind, call.c, cooldown);
  }

  /** Any two grants of one slot for one community are at least the cooldown apart. */
  lemma {:induction false} GrantsAreSpaced(calls: seq<Call>, i: nat, j: nat, cooldown: nat)
    requires Monotone(calls) && cooldown > 0 && i < j < |calls| && ForSlot(calls[i], calls[j].kind, calls[j].c)
    requires Granted(calls, i, cooldown) && Granted(calls, j, cooldown)
    ensures calls[i].at + cooldown <= calls[j].at
  {
    RefusedIff(calls, j, cooldown);
    assert !Blocks(calls, i, j, cooldown);
  }

  /** `n` cooldowns one after the other. */
  ghost function Cooldowns(n: nat, cooldown: nat): nat {
    if n == 0 then 0 else Cooldowns(n - 1, cooldown) + cooldown
  }

  lemma {:induction false} CooldownsProduct(n: nat, cooldown: nat)
    ensures Cooldowns(n, cooldown) == n * cooldown
  {
    if n > 0 {
      CooldownsProduct(n - 1, cooldown);
    }
  }

  lemma {:induction false} FitsQuotient(n: nat, cooldown: nat, len: nat)
    requires cooldown > 0 && n * cooldown <= len
    ensures n <= len / cooldown
  {
    var q := len / cooldown;
    DivisionIs(len, cooldown);
    if n > q {
      MulMonotone(q + 1, n, cooldown);
    }
  }

  lemma {:induction false} DivisionIs(len: nat, cooldown: nat)
    requires cooldown > 0
    ensures len < (len / cooldown + 1) * cooldown
  {
    assert len == len / cooldown * cooldown + len % cooldown;
  }

  lemma {:induction false} MulMonotone(a: nat, b: nat, x: nat)
    requires a <= b
    ensures a * x <= b * x
    decreases b - a
  {
    if a == b {
    } else {
      MulMonotone(a + 1, b, x);
    }
  }

  /** `picks` are granted calls of one slot, all within the window from `from` to `to`. */
  ghost predicate InWindow(calls: seq<Call>, picks: seq<nat>, kind: Kind, c: Key, cooldown: nat, from: nat, to: nat) {
    && Increasing(picks)
    && forall k :: 0 <= k < |picks| ==>
         picks[k] < |calls| && ForSlot(calls[picks[k]], kind, c) && Granted(calls, picks[k], cooldown)
         && from <= calls[picks[k]].at <= to
  }

  lemma {:induction false} PickIsLate(calls: seq<Call>, picks: seq<nat>, kind: Kind, c: Key, cooldown: nat,
                                      from: nat, to: nat, k: nat)
    requires Monotone(calls) && cooldown > 0 && InWindow(calls, picks, kind, c, cooldown, from, to) && k < |picks|
    ensures from + Cooldowns(k, cooldown) <= calls[picks[k]].at
  {
    hide Granted;
    if k > 0 {
      PickIsLate(calls, picks, kind, c, cooldown, from, to, k - 1);
      GrantsAreSpaced(calls, picks[k - 1], picks[k], cooldown);
    }
  }

  /** Any window of length `len` holds at most ⌊len / cooldown⌋ + 1 granted calls of a slot. */
  lemma {:induction false} WindowBound(calls: seq<Call>, picks: seq<nat>, kind: Kind, c: Key, cooldown: nat,
                                       from: nat, len: nat)
    requires Monotone(calls) && cooldown > 0 && InWindow(calls, picks, kind, c, cooldown, from, from + len)
    ensures |picks| <= len / cooldown + 1
  {
    if picks == [] {
    } else {
      var n := |picks| - 1;
      PickIsLate(calls, picks, kind, c, cooldown, from, from + len, n);
      CooldownsProduct(n, cooldown);
      assert n * cooldown <= len;
      FitsQuotient(n, cooldown, len);
    }
  }

  lemma {:induction false} GrantsSnoc(u: seq<Call>, call: Call, kind: Kind, c: Key, cooldown: nat)
    requires call.kind == kind && call.c == c
    ensures var before := Grants(u, kind, c, cooldown);
            Grants(u + [call], kind, c, cooldown)
            == if before != [] && SaturatingSub(call.at, before[|before| - 1]) < cooldown then before
               else before + [call.at]
  {
    var all := u + [call];
    assert all[..|u|] == u && all[|u|] == call;
    MapHoldsLastGrant(u, kind, c, cooldown);
  }

  lemma {:induction false} OnlyKeepsGrants(calls: seq<Call>, kind: Kind, c: Key, cooldown: nat)
    ensures Grants(Only(calls, kind, c), kind, c, cooldown) == Grants(calls, kind, c, cooldown)
  {
    if calls == [] {
    } else {
      var u, call := calls[..|calls| - 1], calls[|calls| - 1];
      var w := Only(u, kind, c);
      OnlyKeepsGrants(u, kind, c, cooldown);
      if call.kind == kind && call.c == c {
        assert calls == u + [call] && Only(calls, kind, c) == w + [call];
        hide Grants, Only;
        GrantsSnoc(u, call, kind, c, cooldown);
        GrantsSnoc(w, call, kind, c, cooldown);
      } else {
        hide Granted, Run;
        assert Only(calls, kind, c) == w;
      }
    }
  }

  /** `at` are the positions of all calls for one slot. */
  ghost predicate Selects(at: seq<nat>, calls: seq<Call>, kind: Kind, c: Key) {
    Increasing(at) && forall i: nat :: i in at <==> i < |calls| && ForSlot(calls[i], kind, c)
  }

  /** `only` are the calls at these positions. */
  ghost predicate Selected(only: seq<Call>, at: seq<nat>, calls: seq<Call>) {
    |only| == |at| && forall k :: 0 <= k < |at| ==> at[k] < |calls| && only[k] == calls[at[k]]
  }

  lemma {:induction false} SelectedIsOnly(calls: seq<Call>, kind: Kind, c: Key, at: seq<nat>, only: seq<Call>,
                                          n: nat, m: nat)
    requires Selects(at, calls, kind, c) && Selected(only, at, calls) && n <= |calls| && m <= |at|
    requires (m < |at| ==> at[m] >= n) && (m > 0 ==> at[m - 1] < n)
    ensures only[..m] == Only(calls[..n], kind, c)
  {
    hide Only;
    OnlySnoc(calls, kind, c, n);
    if n > 0 {
      LastSelected(calls, kind, c, at, n, m);
      if ForSlot(calls[n - 1], kind, c) {
        SelectedIsOnly(calls, kind, c, at, only, n - 1, m - 1);
        assert only[..m] == only[..m - 1] + [calls[n - 1]];
      } else {
        SelectedIsOnly(calls, kind, c, at, only, n - 1, m);
      }
    }
  }

  lemma {:induction false} OnlySnoc(calls: seq<Call>, kind: Kind, c: Key, n: nat)
    requires n <= |calls|
    ensures n == 0 ==> Only(calls[..n], kind, c) == []
    ensures n > 0 ==> Only(calls[..n], kind, c)
                      == Only(calls[..n - 1], kind, c) + if ForSlot(calls[n - 1], kind, c) then [calls[n - 1]] else []
  {
    if n > 0 {
      assert calls[..n][..n - 1] == calls[..n - 1];
    }
  }

  lemma {:induction false} LastSelected(calls: seq<Call>, kind: Kind, c: Key, at: seq<nat>, n: nat, m: nat)
    requires Selects(at, calls, kind, c) && 0 < n <= |calls| && m <= |at|
    requires (m < |at| ==> at[m] >= n) && (m > 0 ==> at[m - 1] < n)
    ensures ForSlot(calls[n - 1], kind, c) ==> m > 0 && at[m - 1] == n - 1 && (m > 1 ==> at[m - 2] < n - 1)
    ensures !ForSlot(calls[n - 1], kind, c) ==> m > 0 ==> at[m - 1] < n - 1
  {
    hide ForSlot;
    assert m > 0 ==> at[m - 1] in at;
    if n - 1 in at {
      var q :| 0 <= q < |at| && at[q] == n - 1;
    }
  }

  /** Communities and the two kinds of slot do not interfere: a run of only the calls for one slot grants
      exactly the calls that the whole run grants. */
  lemma {:induction false} SlotsDoNotInterfere(calls: seq<Call>, kind: Kind, c: Key, cooldown: nat, at: seq<nat>,
                                               only: seq<Call>, k: nat)
    requires Selects(at, calls, kind, c) && Selected(only, at, calls) && k < |at|
    ensures Granted(only, k, cooldown) <==> Granted(calls, at[k], cooldown)
  {
    hide Run, Grants, Only;
    assert at[k] in at;
    SelectedIsOnly(calls, kind, c, at, only, at[k], k);
    OnlyKeepsGrants(calls[..at[k]], kind, c, cooldown);
    MapHoldsLastGrant(only[..k], kind, c, cooldown);
    MapHoldsLastGrant(calls[..at[k]], kind, c, cooldown);
  }
}
