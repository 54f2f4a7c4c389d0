/** The admission counter of the server, `ACTIVE_THREADS`, as a system of threads that take steps in any order. */
module Admission {
  import opened Wrappers

  /** Where a thread of `HandleConnection` is.  Each of the three critical sections takes the lock, reads the counter,
      writes it and gives the lock back. */
  datatype PC =
    | Arriving | Entered | Counting(n: int) | Counted
    | Checking | Passed
    | Serving
    | Refused | RefusedIn | RefusedRead(n: int) | RefusedOut
    | Leaving | LeavingIn | LeavingRead(n: int) | LeavingOut
    | Done

  /** `incs` and `decs` record how often each thread has changed the counter. */
  datatype State = State(active: int, holder: Option<nat>, pcs: seq<PC>, tries: int, exited: bool, incs: seq<nat>, decs: seq<nat>)

  predicate InSection(pc: PC) {
    pc.Entered? || pc.Counting? || pc.Counted? || pc.RefusedIn? || pc.RefusedRead? || pc.RefusedOut? ||
    pc.LeavingIn? || pc.LeavingRead? || pc.LeavingOut?
  }

  /** Between the increment and the decrement. */
  predicate HasSlot(pc: PC) {
    pc.Counted? || pc.Checking? || pc.Passed? || pc.Serving? || pc.Refused? || pc.RefusedIn? || pc.RefusedRead? ||
    pc.Leaving? || pc.LeavingIn? || pc.LeavingRead?
  }

  /** Let in, and the slot not given back yet. */
  predicate Admitted(pc: PC) {
    pc.Passed? || pc.Serving? || pc.Leaving? || pc.LeavingIn? || pc.LeavingRead?
  }

  predicate Incremented(pc: PC) {
    !pc.Arriving? && !pc.Entered? && !pc.Counting?
  }

  function Slots(pcs: seq<PC>): nat {
    if |pcs| == 0 then 0 else Slots(pcs[..|pcs| - 1]) + if HasSlot(pcs[|pcs| - 1]) then 1 else 0
  }

  function Served(pcs: seq<PC>): nat {
    if |pcs| == 0 then 0 else Served(pcs[..|pcs| - 1]) + if Admitted(pcs[|pcs| - 1]) then 1 else 0
  }

  function Move(s: State, t: nat, pc: PC): State
    requires t < |s.pcs|
  {
    s.(pcs := s.pcs[t := pc])
  }

  /** A step of thread `t`, for `max` connections and `maxTries` refusals in a row. */
  predicate ThreadStep(s: State, s': State, t: nat, max: int, maxTries: int)
    requires t < |s.pcs| == |s.incs| == |s.decs|
  {
    match s.pcs[t]
    case Arriving => s.holder.None? && s' == Move(s, t, Entered).(holder := Some(t))
    case Entered => s' == Move(s, t, Counting(s.active))
    case Counting(n) => s' == Move(s, t, Counted).(active := n + 1, incs := s.incs[t := s.incs[t] + 1])
    case Counted => s' == Move(s, t, Checking).(holder := None)
    case Checking =>
      if s.active >= max then s' == Move(s, t, Refused) else s' == Move(s, t, Passed)
    case Passed => s' == Move(s, t, Serving).(tries := 0)
    case Serving => s' == Move(s, t, Leaving)
    case Refused => s.holder.None? && s' == Move(s, t, RefusedIn).(holder := Some(t))
    case RefusedIn => s' == Move(s, t, RefusedRead(s.active))
    case RefusedRead(n) => s' == Move(s, t, RefusedOut).(active := n - 1, decs := s.decs[t := s.decs[t] + 1])
    case RefusedOut =>
      if s.tries > maxTries then s' == s.(exited := true)
      else s' == Move(s, t, Done).(holder := None, tries := s.tries + 1)
    case Leaving => s.holder.None? && s' == Move(s, t, LeavingIn).(holder := Some(t))
    case LeavingIn => s' == Move(s, t, LeavingRead(s.active))
    case LeavingRead(n) => s' == Move(s, t, LeavingOut).(active := n - 1, decs := s.decs[t := s.decs[t] + 1])
    case LeavingOut => s' == Move(s, t, Done).(holder := None)
    case Done => false
  }

  function Spawned(s: State): State {
    s.(pcs := s.pcs + [Arriving], incs := s.incs + [0], decs := s.decs + [0])
  }

  /** A connection arrives, or some thread takes a step, unless the server has given up. */
  predicate Next(s: State, s': State, max: int, maxTries: int) {
    && !s.exited && |s.pcs| == |s.incs| == |s.decs|
    && (s' == Spawned(s) || exists t: nat :: t < |s.pcs| && ThreadStep(s, s', t, max, maxTries))
  }

  function Start(): State {
    State(0, None, [], 0, false, [], [])
  }

  predicate Run(run: seq<State>, max: int, maxTries: int) {
    |run| > 0 && run[0] == Start() && forall k :: 0 <= k < |run| - 1 ==> Next(run[k], run[k + 1], max, maxTries)
  }

  // ---- what every step keeps ----

  /** The thread in a critical section has the lock, what it read of the counter is still true, and its own
      increments and decrements match where it is. */
  predicate ThreadOk(s: State, t: nat)
    requires t < |s.pcs| == |s.incs| == |s.decs|
  {
    var pc := s.pcs[t];
    && (InSection(pc) <==> s.holder == Some(t))
    && (pc.Counting? || pc.RefusedRead? || pc.LeavingRead? ==> pc.n == s.active)
    && s.incs[t] == (if Incremented(pc) then 1 else 0)
    && s.decs[t] == (if Incremented(pc) && !HasSlot(pc) then 1 else 0)
  }

  predicate Inv(s: State, max: int) {
    && |s.pcs| == |s.incs| == |s.decs|
    && (s.holder.Some? ==> s.holder.value < |s.pcs|)
    && (forall t: nat :: t < |s.pcs| ==> ThreadOk(s, t))
    && s.active == Slots(s.pcs)
    && (Served(s.pcs) == 0 || Served(s.pcs) <= max - 1)
  }

  lemma {:induction false} SlotsAt(pcs: seq<PC>, t: nat, pc: PC)
    requires t < |pcs|
    ensures Slots(pcs[t := pc]) == Slots(pcs) - (if HasSlot(pcs[t]) then 1 else 0) + (if HasSlot(pc) then 1 else 0)
    ensures Served(pcs[t := pc]) == Served(pcs) - (if Admitted(pcs[t]) then 1 else 0) + (if Admitted(pc) then 1 else 0)
    ensures Slots(pcs) >= (if HasSlot(pcs[t]) then 1 else 0) && Served(pcs) >= (if Admitted(pcs[t]) then 1 else 0)
  {
    hide HasSlot, Admitted;
    var n := |pcs| - 1;
    if t == n {
      assert pcs[t := pc][..n] == pcs[..n];
    } else {
      SlotsAt(pcs[..n], t, pc);
      assert pcs[t := pc][..n] == pcs[..n][t := pc];
    }
  }

  /** Those let in are among those with a slot, and a thread still being checked is one more of these. */
  lemma {:induction false} ServedHaveSlots(pcs: seq<PC>)
    ensures Served(pcs) <= Slots(pcs)
  {
    if |pcs| > 0 {
      ServedHaveSlots(pcs[..|pcs| - 1]);
    }
  }

  lemma CheckedOneMore(pcs: seq<PC>, t: nat)
    requires t < |pcs| && pcs[t].Checking?
    ensures Served(pcs) + 1 <= Slots(pcs)
  {
    SlotsAt(pcs, t, Done);
    ServedHaveSlots(pcs[t := Done]);
  }

  lemma StepKeeps(s: State, s': State, t: nat, max: int, maxTries: int)
    requires Inv(s, max) && t < |s.pcs| && ThreadStep(s, s', t, max, maxTries)
    ensures Inv(s', max)
  {
    hide ThreadOk, Slots, Served, HasSlot, Admitted, ThreadStep;
    assert ThreadOk(s, t);
    StepThreads(s, s', t, max, maxTries);
    StepCounts(s, s', t, max, maxTries);
    SlotsAt(s.pcs, t, s'.pcs[t]);
    if s.pcs[t].Checking? {
      CheckedOneMore(s.pcs, t);
    }
  }

  /** The counter follows the slots, and only a thread that finds it below the limit is let in. */
  lemma StepCounts(s: State, s': State, t: nat, max: int, maxTries: int)
    requires |s.pcs| == |s.incs| == |s.decs| && t < |s.pcs| && ThreadOk(s, t) && ThreadStep(s, s', t, max, maxTries)
    ensures t < |s'.pcs| && s'.pcs == s.pcs[t := s'.pcs[t]]
    ensures s'.active == s.active - (if HasSlot(s.pcs[t]) then 1 else 0) + (if HasSlot(s'.pcs[t]) then 1 else 0)
    ensures Admitted(s'.pcs[t]) ==> Admitted(s.pcs[t]) || (s.pcs[t].Checking? && s.active < max)
    ensures s.pcs[t].Checking? ==> !Admitted(s.pcs[t])
  {
    hide InSection;
    assert s.pcs[t := s.pcs[t]] == s.pcs;
  }

  lemma StepThreads(s: State, s': State, t: nat, max: int, maxTries: int)
    requires |s.pcs| == |s.incs| == |s.decs| && t < |s.pcs| && ThreadStep(s, s', t, max, maxTries)
    requires forall u: nat :: u < |s.pcs| ==> ThreadOk(s, u)
    ensures |s'.pcs| == |s'.incs| == |s'.decs| == |s.pcs| && (s'.holder.Some? ==> s'.holder == Some(t) || s'.holder == s.holder)
    ensures forall u: nat :: u < |s'.pcs| ==> ThreadOk(s', u)
  {
    hide ThreadOk;
    forall u: nat | u < |s'.pcs|
      ensures ThreadOk(s', u)
    {
      assert ThreadOk(s, t) && ThreadOk(s, u);
      StepThread(s, s', t, u, max, maxTries);
    }
  }

  lemma StepThread(s: State, s': State, t: nat, u: nat, max: int, maxTries: int)
    requires |s.pcs| == |s.incs| == |s.decs| && t < |s.pcs| && u < |s.pcs| && ThreadStep(s, s', t, max, maxTries)
    requires ThreadOk(s, t) && ThreadOk(s, u)
    ensures |s'.pcs| == |s'.incs| == |s'.decs| == |s.pcs| && ThreadOk(s', u)
  {
    StepOthers(s, s', t, max, maxTries);
    if u == t {
      StepItself(s, s', t, max, maxTries);
    } else {
      hide ThreadStep, Incremented, HasSlot;
    }
  }

  /** The lock keeps the other threads out while the counter changes. */
  lemma StepOthers(s: State, s': State, t: nat, max: int, maxTries: int)
    requires |s.pcs| == |s.incs| == |s.decs| && t < |s.pcs| && ThreadStep(s, s', t, max, maxTries) && ThreadOk(s, t)
    ensures |s'.pcs| == |s'.incs| == |s'.decs| == |s.pcs|
    ensures forall u: nat :: u < |s.pcs| && u != t ==> s'.pcs[u] == s.pcs[u] && s'.incs[u] == s.incs[u] && s'.decs[u] == s.decs[u]
    ensures s'.holder == s.holder || (s.holder.None? && s'.holder == Some(t)) || (s.holder == Some(t) && s'.holder.None?)
    ensures s'.active == s.active || s.holder == Some(t)
  {
    hide HasSlot, Incremented;
  }

  lemma StepItself(s: State, s': State, t: nat, max: int, maxTries: int)
    requires |s.pcs| == |s.incs| == |s.decs| && t < |s.pcs| && ThreadStep(s, s', t, max, maxTries) && ThreadOk(s, t)
    requires |s'.pcs| == |s'.incs| == |s'.decs| == |s.pcs|
    ensures ThreadOk(s', t)
  {}

  lemma SpawnKeeps(s: State, max: int)
    requires Inv(s, max)
    ensures Inv(Spawned(s), max)
  {
    var s' := Spawned(s);
    assert s'.pcs[..|s.pcs|] == s.pcs;
    forall u: nat | u < |s'.pcs|
      ensures ThreadOk(s', u)
    {
      if u < |s.pcs| {
        assert ThreadOk(s, u);
      }
    }
  }

  lemma {:induction false} RunKeeps(run: seq<State>, max: int, maxTries: int, k: nat)
    requires Run(run, max, maxTries) && k < |run|
    ensures Inv(run[k], max)
  {
    if k > 0 {
      RunKeeps(run, max, maxTries, k - 1);
      hide Inv;
      assert Next(run[k - 1], run[k], max, maxTries);
      if run[k] == Spawned(run[k - 1]) {
        SpawnKeeps(run[k - 1], max);
      } else {
        var t: nat :| t < |run[k - 1].pcs| && ThreadStep(run[k - 1], run[k], t, max, maxTries);
        StepKeeps(run[k - 1], run[k], t, max, maxTries);
      }
    }
  }

  /** At every moment of every run the counter is the number of threads between increment and decrement, although
      the limit is checked outside the lock at most `max - 1` connections are being served, and a thread that is
      done has taken one slot and given it back once. */
  lemma AdmissionSafe(run: seq<State>, max: int, maxTries: int, k: nat)
    requires Run(run, max, maxTries) && k < |run|
    ensures var s := run[k];
            && s.active == Slots(s.pcs) && (Served(s.pcs) == 0 || Served(s.pcs) <= max - 1)
            && |s.pcs| == |s.incs| == |s.decs|
            && (forall t: nat :: t < |s.pcs| && s.pcs[t].Done? ==> s.incs[t] == 1 && s.decs[t] == 1)
  {
    RunKeeps(run, max, maxTries, k);
    forall t: nat | t < |run[k].pcs| && run[k].pcs[t].Done?
      ensures run[k].incs[t] == 1 && run[k].decs[t] == 1
    {
      assert ThreadOk(run[k], t);
    }
  }

  // ---- the limit is reached ----

  /** `n` connections being served, `r` turned away and `m` about to be checked. */
  function Crowd(n: nat, r: nat, m: nat): State {
    var all := n + r + m;
    State(all, None, seq(all, t => if t < n then Serving else if t < n + r then Refused else Checking), 0, false,
          seq(all, _ => 1), seq(all, _ => 0))
  }

  /** The states through which one more connection comes to be checked. */
  function Comes(n: nat, m: nat): seq<State> {
    var t := n + m;
    var s := Spawned(Crowd(n, 0, m));
    var a := Move(s, t, Entered).(holder := Some(t));
    var b := Move(a, t, Counting(t));
    var c := Move(b, t, Counted).(active := t + 1, incs := b.incs[t := 1]);
    [s, a, b, c, Crowd(n, 0, m + 1)]
  }

  lemma ComesSteps(n: nat, m: nat, max: int, maxTries: int, k: nat)
    requires k < 4
    ensures Next(Crowd(n, 0, m), Comes(n, m)[0], max, maxTries)
    ensures Next(Comes(n, m)[k], Comes(n, m)[k + 1], max, maxTries)
  {
    var steps, t := Comes(n, m), n + m;
    assert ThreadStep(steps[k], steps[k + 1], t, max, maxTries) by {
      if k == 3 {
        assert Move(steps[3], t, Checking).pcs == Crowd(n, 0, m + 1).pcs;
        assert steps[3].incs == Crowd(n, 0, m + 1).incs && steps[3].decs == Crowd(n, 0, m + 1).decs;
      }
    }
  }

  lemma Extend(run: seq<State>, more: seq<State>, max: int, maxTries: int)
    requires Run(run, max, maxTries) && |more| > 0 && Next(run[|run| - 1], more[0], max, maxTries)
    requires forall k :: 0 <= k < |more| - 1 ==> Next(more[k], more[k + 1], max, maxTries)
    ensures Run(run + more, max, maxTries)
  {
    hide Next;
    var all := run + more;
    forall k | 0 <= k < |all| - 1
      ensures Next(all[k], all[k + 1], max, maxTries)
    {
      if k < |run| - 1 {
        assert Next(run[k], run[k + 1], max, maxTries);
      } else if k >= |run| {
        assert Next(more[k - |run|], more[k - |run| + 1], max, maxTries);
      }
    }
  }

  /** Nobody has been let in at any moment. */
  predicate NobodyIn(run: seq<State>) {
    forall k, t :: 0 <= k < |run| && 0 <= t < |run[k].pcs| ==> !Admitted(run[k].pcs[t])
  }

  lemma ComeIn(run: seq<State>, n: nat, m: nat, max: int, maxTries: int) returns (longer: seq<State>)
    requires Run(run, max, maxTries) && run[|run| - 1] == Crowd(n, 0, m)
    ensures Run(longer, max, maxTries) && longer[|longer| - 1] == Crowd(n, 0, m + 1)
    ensures n == 0 && NobodyIn(run) ==> NobodyIn(longer)
  {
    hide Next, Run;
    var more := Comes(n, m);
    forall k | 0 <= k < |more| - 1
      ensures Next(more[k], more[k + 1], max, maxTries)
    {
      ComesSteps(n, m, max, maxTries, k);
    }
    ComesSteps(n, m, max, maxTries, 0);
    Extend(run, more, max, maxTries);
    longer := run + more;
  }

  /** Every number of connections below the limit can be served at once. */
  lemma {:induction false} LimitReached(n: nat, max: int, maxTries: int) returns (run: seq<State>)
    requires n == 0 || n <= max - 1
    ensures Run(run, max, maxTries) && run[|run| - 1] == Crowd(n, 0, 0) && Served(Crowd(n, 0, 0).pcs) == n
    ensures n == 0 ==> NobodyIn(run)
  {
    CrowdServed(n, 0, 0);
    if n == 0 {
      run := [Start()];
      assert Crowd(0, 0, 0) == Start();
    } else {
      hide Next;
      run := LimitReached(n - 1, max, maxTries);
      run := ComeIn(run, n - 1, 0, max, maxTries);
      var passed := Move(Crowd(n - 1, 0, 1), n - 1, Passed);
      LetIn(n - 1, max, maxTries);
      Extend(run, [passed, Crowd(n, 0, 0)], max, maxTries);
      run := run + [passed, Crowd(n, 0, 0)];
    }
  }

  lemma LetIn(n: nat, max: int, maxTries: int)
    requires n + 1 < max
    ensures var passed := Move(Crowd(n, 0, 1), n, Passed);
            Next(Crowd(n, 0, 1), passed, max, maxTries) && Next(passed, Crowd(n + 1, 0, 0), max, maxTries)
  {
    var passed := Move(Crowd(n, 0, 1), n, Passed);
    assert ThreadStep(Crowd(n, 0, 1), passed, n, max, maxTries);
    assert Move(passed, n, Serving).pcs == Crowd(n + 1, 0, 0).pcs;
    assert passed.incs == Crowd(n + 1, 0, 0).incs && passed.decs == Crowd(n + 1, 0, 0).decs;
    assert ThreadStep(passed, Crowd(n + 1, 0, 0), n, max, maxTries);
  }

  lemma {:induction false} CrowdServed(n: nat, r: nat, m: nat)
    ensures Served(Crowd(n, r, m).pcs) == n && Slots(Crowd(n, r, m).pcs) == n + r + m
    decreases n + r + m
  {
    hide HasSlot, Admitted, Crowd;
    CrowdLast(n, r, m);
    WhoIsServed();
    if m > 0 {
      CrowdServed(n, r, m - 1);
    } else if r > 0 {
      CrowdServed(n, r - 1, 0);
    } else if n > 0 {
      CrowdServed(n - 1, 0, 0);
    }
  }

  lemma CrowdLast(n: nat, r: nat, m: nat)
    ensures var pcs := Crowd(n, r, m).pcs;
            && |pcs| == n + r + m
            && (m > 0 ==> pcs[..|pcs| - 1] == Crowd(n, r, m - 1).pcs && pcs[|pcs| - 1] == Checking)
            && (m == 0 && r > 0 ==> pcs[..|pcs| - 1] == Crowd(n, r - 1, 0).pcs && pcs[|pcs| - 1] == Refused)
            && (m == 0 && r == 0 && n > 0 ==> pcs[..|pcs| - 1] == Crowd(n - 1, 0, 0).pcs && pcs[|pcs| - 1] == Serving)
  {}

  lemma WhoIsServed()
    ensures HasSlot(Serving) && HasSlot(Refused) && HasSlot(Checking)
    ensures Admitted(Serving) && !Admitted(Refused) && !Admitted(Checking)
  {}

  /** Some run lets `n` connections in at once. */
  ghost predicate CanServe(n: nat, max: int, maxTries: int) {
    exists run: seq<State> :: Run(run, max, maxTries) && Served(run[|run| - 1].pcs) == n
  }

  /** The numbers of connections that can be served at once are exactly those below the limit, whatever the order of the
      steps; a limit of 1 lets nobody in. */
  lemma ServedIff(n: nat, max: int, maxTries: int)
    ensures CanServe(n, max, maxTries) <==> n == 0 || n <= max - 1
  {
    hide Next, Served;
    if n == 0 || n <= max - 1 {
      var run := LimitReached(n, max, maxTries);
    }
    if run: seq<State> :| Run(run, max, maxTries) && Served(run[|run| - 1].pcs) == n {
      AdmissionSafe(run, max, maxTries, |run| - 1);
    }
  }

  // ---- turning away ----

  predicate TurnedAway(s: State, s': State) {
    |s.pcs| == |s'.pcs| && exists t :: 0 <= t < |s.pcs| && s.pcs[t].Checking? && s'.pcs[t].Refused?
  }

  /** The last step of the run turns a connection away. */
  predicate TurnsAway(run: seq<State>) {
    |run| >= 2 && TurnedAway(run[|run| - 2], run[|run| - 1])
  }

  /** A connection whose check is over between two states of a run is turned away exactly when as many threads as the limit,
      this one included, have counted themselves and not yet taken that back, whether they are served, still to be checked
      or turned away themselves.  So as many as the limit must have arrived. */
  lemma RefusedOnly(run: seq<State>, max: int, maxTries: int, k: nat, t: nat)
    requires Run(run, max, maxTries) && k + 1 < |run| && t < |run[k].pcs| && run[k].pcs[t].Checking?
    ensures t < |run[k + 1].pcs|
    ensures !run[k + 1].pcs[t].Checking? ==>
            && (run[k + 1].pcs[t] == if Slots(run[k].pcs) >= max then Refused else Passed)
            && (run[k + 1].pcs[t].Refused? ==> |run[k].pcs| >= max)
  {
    hide Inv, Slots, Served;
    RunKeeps(run, max, maxTries, k);
    CounterRight(run[k], max);
    SlotsBound(run[k].pcs);
    assert Next(run[k], run[k + 1], max, maxTries);
    if run[k + 1] != Spawned(run[k]) {
      var u: nat :| u < |run[k].pcs| && ThreadStep(run[k], run[k + 1], u, max, maxTries);
      OnlyThat(run[k], run[k + 1], u, max, maxTries);
    }
  }

  lemma CounterRight(s: State, max: int)
    requires Inv(s, max)
    ensures s.active == Slots(s.pcs)
  {}

  lemma OnlyThat(s: State, s': State, u: nat, max: int, maxTries: int)
    requires u < |s.pcs| == |s.incs| == |s.decs| && ThreadStep(s, s', u, max, maxTries)
    ensures |s'.pcs| == |s.pcs| && forall t :: 0 <= t < |s.pcs| && t != u ==> s'.pcs[t] == s.pcs[t]
  {}

  lemma {:induction false} SlotsBound(pcs: seq<PC>)
    ensures Slots(pcs) <= |pcs|
  {
    if |pcs| > 0 {
      SlotsBound(pcs[..|pcs| - 1]);
    }
  }

  /** However few are being served: with `n` of them, `m` more that arrive together fill the limit. */
  lemma {:induction false} Crowded(n: nat, m: nat, max: int, maxTries: int) returns (run: seq<State>)
    requires n == 0 || n <= max - 1
    ensures Run(run, max, maxTries) && run[|run| - 1] == Crowd(n, 0, m)
    ensures n == 0 ==> NobodyIn(run)
    decreases m
  {
    if m == 0 {
      run := LimitReached(n, max, maxTries);
    } else {
      hide Run, NobodyIn, Crowd;
      run := Crowded(n, m - 1, max, maxTries);
      run := ComeIn(run, n, m - 1, max, maxTries);
    }
  }

  /** Once the limit is filled by connections that are served, turned away or still to be checked, all the latter are turned
      away one after the other. */
  lemma {:induction false} AllTurnedAway(n: nat, r: nat, m: nat, max: int, maxTries: int) returns (run: seq<State>)
    requires (n == 0 || n <= max - 1) && n + r + m >= max
    ensures Run(run, max, maxTries) && run[|run| - 1] == Crowd(n, r, m)
    ensures n == 0 ==> NobodyIn(run)
    ensures r > 0 ==> TurnsAway(run)
    decreases r
  {
    if r == 0 {
      run := Crowded(n, m, max, maxTries);
    } else {
      hide Run, Next, Crowd;
      run := AllTurnedAway(n, r - 1, m + 1, max, maxTries);
      OneTurnedAway(n, r - 1, m, max, maxTries);
      TurnedLast(run, Crowd(n, r, m), n + r - 1, max, maxTries);
      run := run + [Crowd(n, r, m)];
    }
  }

  lemma OneTurnedAway(n: nat, r: nat, m: nat, max: int, maxTries: int)
    requires n + r + m + 1 >= max
    ensures var s, s' := Crowd(n, r, m + 1), Crowd(n, r + 1, m);
            && Next(s, s', max, maxTries) && n + r < |s'.pcs| == |s.pcs| && s.pcs[n + r].Checking? && s'.pcs[n + r].Refused?
            && (n == 0 ==> forall t :: 0 <= t < |s'.pcs| ==> !Admitted(s'.pcs[t]))
  {
    var s, s' := Crowd(n, r, m + 1), Crowd(n, r + 1, m);
    assert Move(s, n + r, Refused).pcs == s'.pcs && s.incs == s'.incs && s.decs == s'.decs;
    assert ThreadStep(s, s', n + r, max, maxTries);
  }

  lemma TurnedLast(run: seq<State>, s': State, t: nat, max: int, maxTries: int)
    requires Run(run, max, maxTries) && Next(run[|run| - 1], s', max, maxTries)
    requires t < |s'.pcs| == |run[|run| - 1].pcs| && run[|run| - 1].pcs[t].Checking? && s'.pcs[t].Refused?
    ensures Run(run + [s'], max, maxTries) && TurnsAway(run + [s'])
  {
    hide Next;
    Extend(run, [s'], max, maxTries);
    assert (run + [s'])[|run| - 1] == run[|run| - 1] && (run + [s'])[|run|] == s';
  }

  /** Some run turns a connection away while `n` are served. */
  ghost predicate CanRefuse(n: nat, max: int, maxTries: int) {
    exists run: seq<State> :: Run(run, max, maxTries) && TurnsAway(run) && Served(run[|run| - 1].pcs) == n
  }

  /** Turning away is no sign of a server at its limit: it can happen with every number of served connections that is possible
      at all, none included. */
  lemma RefusedIff(n: nat, max: int, maxTries: int)
    ensures CanRefuse(n, max, maxTries) <==> n == 0 || n <= max - 1
  {
    hide Next, Served, TurnsAway;
    if n == 0 || n <= max - 1 {
      var m := if max > n then max - n else 1;
      var run := AllTurnedAway(n, 1, m - 1, max, maxTries);
      CrowdServed(n, 1, m - 1);
    }
    if run: seq<State> :| Run(run, max, maxTries) && TurnsAway(run) && Served(run[|run| - 1].pcs) == n {
      AdmissionSafe(run, max, maxTries, |run| - 1);
    }
  }

  /** At the worst all of the first `max` connections, when they arrive together, are turned away, and none is ever let in. */
  lemma AllRefused(max: nat, maxTries: int) returns (run: seq<State>)
    ensures Run(run, max, maxTries) && run[|run| - 1].pcs == seq(max, _ => Refused)
    ensures NobodyIn(run) && forall k :: 0 <= k < |run| ==> Served(run[k].pcs) == 0
  {
    hide Run;
    run := AllTurnedAway(0, max, 0, max, maxTries);
    forall k | 0 <= k < |run|
      ensures Served(run[k].pcs) == 0
    {
      NoneServed(run[k].pcs);
    }
  }

  lemma {:induction false} NoneServed(pcs: seq<PC>)
    requires forall t :: 0 <= t < |pcs| ==> !Admitted(pcs[t])
    ensures Served(pcs) == 0
  {
    if |pcs| > 0 {
      NoneServed(pcs[..|pcs| - 1]);
    }
  }

  /** The instance for a limit of 2 and two connections. */
  lemma BothRefused(maxTries: int) returns (run: seq<State>)
    ensures Run(run, 2, maxTries)
    ensures run[|run| - 1].pcs == [Refused, Refused]
    ensures forall k :: 0 <= k < |run| ==> Served(run[k].pcs) == 0
  {
    hide Run, Served;
    run := AllRefused(2, maxTries);
    assert seq(2, _ => Refused) == [Refused, Refused];
  }

  // ---- giving up ----

  /** Some connection is let in. */
  predicate LetsIn(s: State, s': State) {
    |s.pcs| == |s'.pcs| && exists t :: 0 <= t < |s.pcs| && s.pcs[t].Passed? && s'.pcs[t].Serving?
  }

  /** The refusal of some connection is over. */
  predicate Refuses(s: State, s': State) {
    |s.pcs| == |s'.pcs| && exists t :: 0 <= t < |s.pcs| && s.pcs[t].RefusedOut? && s'.pcs[t].Done?
  }

  /** How many refusals there have been up to `run[k]` since a connection was last let in, counted from the steps. */
  function RefusalsSince(run: seq<State>, k: nat): nat
    requires k < |run|
  {
    if k == 0 || LetsIn(run[k - 1], run[k]) then 0
    else RefusalsSince(run, k - 1) + if Refuses(run[k - 1], run[k]) then 1 else 0
  }

  lemma StepTries(s: State, s': State, t: nat, max: int, maxTries: int)
    requires t < |s.pcs| == |s.incs| == |s.decs| && ThreadStep(s, s', t, max, maxTries)
    ensures s'.tries == if LetsIn(s, s') then 0 else s.tries + if Refuses(s, s') then 1 else 0
    ensures s'.exited ==> s.exited || (s.pcs[t].RefusedOut? && s.tries > maxTries)
    ensures s.pcs[t].RefusedOut? && s'.pcs[t] != RefusedOut ==> s'.pcs[t].Done? && s.tries <= maxTries && s'.exited == s.exited
  {
    OnlyThat(s, s', t, max, maxTries);
    TurnOf(s, s', t);
  }

  lemma TurnOf(s: State, s': State, t: nat)
    requires t < |s.pcs| == |s'.pcs| && forall u :: 0 <= u < |s.pcs| && u != t ==> s'.pcs[u] == s.pcs[u]
    ensures LetsIn(s, s') <==> s.pcs[t].Passed? && s'.pcs[t].Serving?
    ensures Refuses(s, s') <==> s.pcs[t].RefusedOut? && s'.pcs[t].Done?
  {}

  lemma {:induction false} TriesCount(run: seq<State>, max: int, maxTries: int, k: nat)
    requires Run(run, max, maxTries) && k < |run|
    ensures run[k].tries == RefusalsSince(run, k)
  {
    hide LetsIn, Refuses, ThreadStep;
    if k > 0 {
      TriesCount(run, max, maxTries, k - 1);
      var s, s' := run[k - 1], run[k];
      assert Next(s, s', max, maxTries);
      if s' == Spawned(s) {
        SpawnTries(s);
      } else {
        var t: nat :| t < |s.pcs| && ThreadStep(s, s', t, max, maxTries);
        StepTries(s, s', t, max, maxTries);
      }
    }
  }

  lemma SpawnTries(s: State)
    ensures !LetsIn(s, Spawned(s)) && !Refuses(s, Spawned(s)) && Spawned(s).tries == s.tries && Spawned(s).exited == s.exited
  {}

  /** The server gives up only at the end of a refusal, when there have been more than `maxTries` others since a connection
      was last let in; and the end of a refusal is reached without giving up only when there have not. */
  lemma GivesUpOnly(run: seq<State>, max: int, maxTries: int, k: nat)
    requires Run(run, max, maxTries) && k + 1 < |run|
    ensures !run[k].exited && |run[k].pcs| <= |run[k + 1].pcs|
    ensures run[k + 1].exited ==> RefusalsSince(run, k) > maxTries && RefusedOut in run[k].pcs && run[k + 1].pcs == run[k].pcs
    ensures forall t :: 0 <= t < |run[k].pcs| && run[k].pcs[t].RefusedOut? && !run[k + 1].pcs[t].RefusedOut? ==>
              run[k + 1].pcs[t].Done? && RefusalsSince(run, k) <= maxTries && !run[k + 1].exited
  {
    hide LetsIn, Refuses, RefusalsSince;
    TriesCount(run, max, maxTries, k);
    var s, s' := run[k], run[k + 1];
    assert Next(s, s', max, maxTries);
    if s' != Spawned(s) {
      var u: nat :| u < |s.pcs| && ThreadStep(s, s', u, max, maxTries);
      OnlyThat(s, s', u, max, maxTries);
      StepTries(s, s', u, max, maxTries);
      if s'.exited {
        ExitStays(s, s', u, max, maxTries);
      }
    }
  }

  lemma ExitStays(s: State, s': State, t: nat, max: int, maxTries: int)
    requires t < |s.pcs| == |s.incs| == |s.decs| && ThreadStep(s, s', t, max, maxTries) && !s.exited && s'.exited
    ensures s'.pcs == s.pcs && s.pcs[t] == RefusedOut
  {}

  /** Every refusal can come to its end, one way or the other as the number of refusals says. */
  lemma RefusalEnds(run: seq<State>, max: int, maxTries: int, t: nat) returns (s': State)
    requires Run(run, max, maxTries) && t < |run[|run| - 1].pcs| && run[|run| - 1].pcs[t].RefusedOut? && !run[|run| - 1].exited
    ensures Run(run + [s'], max, maxTries)
    ensures if RefusalsSince(run, |run| - 1) > maxTries then s'.exited else !s'.exited && t < |s'.pcs| && s'.pcs[t].Done?
  {
    hide Inv;
    var s := run[|run| - 1];
    TriesCount(run, max, maxTries, |run| - 1);
    RunKeeps(run, max, maxTries, |run| - 1);
    SameLengths(s, max);
    s' := if s.tries > maxTries then s.(exited := true) else Move(s, t, Done).(holder := None, tries := s.tries + 1);
    assert ThreadStep(s, s', t, max, maxTries);
    assert Next(s, s', max, maxTries);
    hide Next;
    Extend(run, [s'], max, maxTries);
  }

  lemma SameLengths(s: State, max: int)
    requires Inv(s, max)
    ensures |s.pcs| == |s.incs| == |s.decs|
  {}

  /** `n` connections being served, `r` turned away, the first `d` of these finished. */
  function Backing(n: nat, r: nat, d: nat): State
    requires d <= r
  {
    State(n + r - d, None, seq(n + r, t => if t < n then Serving else if t < n + d then Done else Refused), d, false,
          seq(n + r, _ => 1), seq(n + r, t => if n <= t < n + d then 1 else 0))
  }

  /** The states up to the end of one more refusal. */
  function BackingOut(n: nat, r: nat, d: nat): seq<State>
    requires d < r
  {
    var t, s := n + d, Backing(n, r, d);
    var a := Move(s, t, RefusedIn).(holder := Some(t));
    var b := Move(a, t, RefusedRead(n + r - d));
    [a, b, Move(b, t, RefusedOut).(active := n + r - d - 1, decs := b.decs[t := 1])]
  }

  lemma BackingSteps(n: nat, r: nat, d: nat, max: int, maxTries: int)
    requires d < r
    ensures var more := BackingOut(n, r, d);
            && Next(Backing(n, r, d), more[0], max, maxTries) && Next(more[0], more[1], max, maxTries)
            && Next(more[1], more[2], max, maxTries) && n + d < |more[2].pcs| && more[2].pcs[n + d].RefusedOut? && !more[2].exited
            && |more[2].pcs| == |more[2].incs| == |more[2].decs| && more[2].tries == d
  {
    var s, more, t := Backing(n, r, d), BackingOut(n, r, d), n + d;
    assert ThreadStep(s, more[0], t, max, maxTries);
    assert ThreadStep(more[0], more[1], t, max, maxTries);
    assert ThreadStep(more[1], more[2], t, max, maxTries);
  }

  lemma BackingDone(n: nat, r: nat, d: nat, max: int, maxTries: int)
    requires d < r && d <= maxTries
    ensures Next(BackingOut(n, r, d)[2], Backing(n, r, d + 1), max, maxTries)
  {
    var s, s', t := BackingOut(n, r, d)[2], Backing(n, r, d + 1), n + d;
    assert Move(s, t, Done).pcs == s'.pcs && s.incs == s'.incs && s.decs == s'.decs;
    assert ThreadStep(s, s', t, max, maxTries);
  }

  lemma {:induction false} BacksOut(n: nat, r: nat, d: nat, max: int, maxTries: int) returns (run: seq<State>)
    requires (n == 0 || n <= max - 1) && n + r >= max && d <= r && (d == 0 || d <= maxTries + 1)
    ensures Run(run, max, maxTries) && run[|run| - 1] == Backing(n, r, d)
  {
    hide Run, Next, Crowd, Backing, BackingOut;
    if d == 0 {
      run := AllTurnedAway(n, r, 0, max, maxTries);
      BackingNone(n, r);
    } else {
      run := BacksOut(n, r, d - 1, max, maxTries);
      var more := BackingOut(n, r, d - 1);
      BackingSteps(n, r, d - 1, max, maxTries);
      BackingDone(n, r, d - 1, max, maxTries);
      ThreeStates(n, r, d - 1);
      run := ThreeMore(run, more, Backing(n, r, d), max, maxTries);
    }
  }

  lemma BackingNone(n: nat, r: nat)
    ensures Backing(n, r, 0) == Crowd(n, r, 0)
  {
    assert Crowd(n, r, 0).pcs == Backing(n, r, 0).pcs && Crowd(n, r, 0).decs == Backing(n, r, 0).decs;
  }

  lemma ThreeStates(n: nat, r: nat, d: nat)
    requires d < r
    ensures |BackingOut(n, r, d)| == 3
  {}

  lemma ThreeMore(run: seq<State>, more: seq<State>, last: State, max: int, maxTries: int) returns (longer: seq<State>)
    requires Run(run, max, maxTries) && |more| == 3 && Next(run[|run| - 1], more[0], max, maxTries)
    requires Next(more[0], more[1], max, maxTries) && Next(more[1], more[2], max, maxTries) && Next(more[2], last, max, maxTries)
    ensures Run(longer, max, maxTries) && longer[|longer| - 1] == last
  {
    hide Next;
    Extend(run, more + [last], max, maxTries);
    longer := run + (more + [last]);
  }

  /** The server can give up with any number of connections being served that is possible at all. */
  lemma GivesUp(n: nat, max: int, maxTries: int) returns (run: seq<State>)
    requires n == 0 || n <= max - 1
    ensures Run(run, max, maxTries) && run[|run| - 1].exited && Served(run[|run| - 1].pcs) == n
  {
    hide Next;
    var d := if maxTries < 0 then 0 else maxTries + 1;
    var r := if max > d + 1 then max else d + 1;
    run := BacksOut(n, r, d, max, maxTries);
    var more := BackingOut(n, r, d);
    BackingSteps(n, r, d, max, maxTries);
    var last := more[2].(exited := true);
    assert Next(more[2], last, max, maxTries) by { LastStraw(more[2], n + d, max, maxTries); }
    run := ThreeMore(run, more, last, max, maxTries);
    BackingServed(n, r, d);
  }

  lemma LastStraw(s: State, t: nat, max: int, maxTries: int)
    requires t < |s.pcs| == |s.incs| == |s.decs| && s.pcs[t].RefusedOut? && s.tries > maxTries && !s.exited
    ensures Next(s, s.(exited := true), max, maxTries)
  {
    assert ThreadStep(s, s.(exited := true), t, max, maxTries);
  }

  lemma BackingServed(n: nat, r: nat, d: nat)
    requires d < r
    ensures Served(BackingOut(n, r, d)[2].pcs) == n
  {
    var pcs := BackingOut(n, r, d)[2].pcs;
    FrontServed(pcs, n, n + r);
    assert pcs[..n + r] == pcs;
  }

  lemma {:induction false} FrontServed(pcs: seq<PC>, n: nat, m: nat)
    requires n <= |pcs| && m <= |pcs|
    requires (forall t :: 0 <= t < n ==> pcs[t] == Serving) && forall t :: n <= t < |pcs| ==> !Admitted(pcs[t])
    ensures Served(pcs[..m]) == if m < n then m else n
    decreases m
  {
    if m > 0 {
      assert pcs[..m][..m - 1] == pcs[..m - 1] && pcs[..m][m - 1] == pcs[m - 1];
      FrontServed(pcs, n, m - 1);
    }
  }
}
