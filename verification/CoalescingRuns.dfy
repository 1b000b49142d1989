/** What holds over whole runs of the coalescing protocol. */
module CoalescingRuns {
  import opened Sequences
  import opened Keys
  import opened Coalescing

  /** The states of a run and the steps between them. */
  ghost predicate Path(states: seq<State>, steps: seq<Action>) {
    |states| == |steps| + 1 && forall i :: 0 <= i < |steps| ==> StepAt(states, steps, i)
  }

  ghost predicate StepAt(states: seq<State>, steps: seq<Action>, i: nat)
    requires |states| == |steps| + 1 && i < |steps|
  {
    Enabled(states[i], steps[i]) && states[i + 1] == Next(states[i], steps[i])
  }

  ghost predicate IsRun(states: seq<State>, steps: seq<Action>) {
    Path(states, steps) && states[0] == INIT
  }

  /** Every reachable state satisfies the invariant, whatever the interleaving. */
  lemma {:induction false} ReachableInv(states: seq<State>, steps: seq<Action>, i: nat)
    requires IsRun(states, steps) && i < |states|
    ensures Inv(states[i])
  {
    if i == 0 {
      InitKeepsInv();
    } else {
      ReachableInv(states, steps, i - 1);
      assert StepAt(states, steps, i - 1);
      StepKeepsInv(states[i - 1], steps[i - 1]);
    }
  }

  // ------------------------------------------------------------ what only grows

  /** Generation `g` can no longer be found through the table. */
  ghost predicate Detached(s: State, g: nat) {
    forall key :: key in s.scanCtxs ==> s.scanCtxs[key] != g
  }

  ghost predicate GenLater(s: State, s': State, g: nat)
    requires g < |s.gens| && g < |s'.gens|
  {
    var was, now := s.gens[g], s'.gens[g];
    && now.call == was.call
    && was.runs <= now.runs
    && (was.ctxCancelled ==> now.ctxCancelled)
    && (was.done ==> now.done && now.result == was.result)
    && (Detached(s, g) ==> Detached(s', g) && now.count <= was.count)
  }

  ghost predicate Later(s: State, s': State) {
    && |s.gens| <= |s'.gens|
    && |s.callers| <= |s'.callers|
    && |s.shutdowns| <= |s'.shutdowns|
    && (forall g :: 0 <= g < |s.gens| ==> GenLater(s, s', g))
    && (s.life.draining ==> s'.life.draining)
    && (s.life.cancelled ==> s'.life.cancelled)
    && (s.life.draining && s.life.active == 0 ==> s'.life.active == 0 && |s'.gens| == |s.gens|)
  }

  lemma HandlerStepIsLater(s: State, a: Action)
    requires Inv(s) && Enabled(s, a) && !IsExecution(a) && !IsShutdown(a)
    ensures Later(s, Next(s, a))
  {
    var s' := Next(s, a);
    if a.Join? || a.EndCall? {
      SumAtLeast(Registered, s.callers, a.c);
    }
    forall g | 0 <= g < |s.gens| ensures GenLater(s, s', g) {
      assert GenOk(s, g);
    }
  }

  lemma ExecutionGenIsLater(s: State, a: Action, g: nat)
    requires Inv(s) && Enabled(s, a) && IsExecution(a) && g < |s.gens|
    ensures GenLater(s, Next(s, a), g)
  {
    var s' := Next(s, a);
    assert GenOk(s, g);
    assert Detached(s, g) ==> Detached(s', g);
    assert g != a.g ==> s'.gens[g] == s.gens[g];
  }

  lemma ExecutionStepIsLater(s: State, a: Action)
    requires Inv(s) && Enabled(s, a) && IsExecution(a)
    ensures Later(s, Next(s, a))
  {
    var s' := Next(s, a);
    SumAtLeast(Unended, s.gens, a.g);
    forall g | 0 <= g < |s.gens| ensures GenLater(s, s', g) {
      ExecutionGenIsLater(s, a, g);
    }
  }

  lemma ShutdownStepIsLater(s: State, a: Action)
    requires Inv(s) && Enabled(s, a) && IsShutdown(a)
    ensures Later(s, Next(s, a))
  {
    var s' := Next(s, a);
    forall g | 0 <= g < |s.gens| ensures GenLater(s, s', g) {
    }
  }

  lemma StepIsLater(s: State, a: Action)
    requires Inv(s) && Enabled(s, a)
    ensures Later(s, Next(s, a))
  {
    if IsExecution(a) { ExecutionStepIsLater(s, a); }
    else if IsShutdown(a) { ShutdownStepIsLater(s, a); }
    else { HandlerStepIsLater(s, a); }
  }

  lemma PathStepIsLater(states: seq<State>, steps: seq<Action>, i: nat)
    requires IsRun(states, steps) && i < |steps|
    ensures Later(states[i], states[i + 1])
  {
    ReachableInv(states, steps, i);
    assert StepAt(states, steps, i);
    StepIsLater(states[i], steps[i]);
  }

  lemma {:induction false} RunIsLater(states: seq<State>, steps: seq<Action>, i: nat, j: nat)
    requires IsRun(states, steps) && i <= j < |states|
    ensures Later(states[i], states[j])
    decreases j - i
  {
    if i < j {
      RunIsLater(states, steps, i, j - 1);
      StillLater(states, steps, i, j - 1);
    } else {
      LaterIsReflexive(states[i]);
    }
  }

  lemma StillLater(states: seq<State>, steps: seq<Action>, i: nat, j: nat)
    requires IsRun(states, steps) && i <= j < |steps| && Later(states[i], states[j])
    ensures Later(states[i], states[j + 1])
  {
    PathStepIsLater(states, steps, j);
    LaterIsTransitive(states[i], states[j], states[j + 1]);
  }

  lemma LaterIsReflexive(s: State)
    ensures Later(s, s)
  {
  }

  lemma LaterIsTransitive(s: State, t: State, u: State)
    requires Later(s, t) && Later(t, u)
    ensures Later(s, u)
  {
    forall g | 0 <= g < |s.gens| ensures GenLater(s, u, g) {
      assert GenLater(s, t, g) && GenLater(t, u, g);
    }
  }

  // -------------------------------------------------------------- coalescing

  /** The caller has taken the shared result of generation `g`. */
  predicate Took(s: State, c: nat, g: nat, result: Outcome) {
    && c < |s.callers|
    && (s.callers[c].place.Leaving? || s.callers[c].place.Served?)
    && s.callers[c].place.gen == g
    && s.callers[c].place.reply == Shared(result)
  }

  /** At most one execution per key is live. */
  lemma OneLiveExecutionPerKey(states: seq<State>, steps: seq<Action>, i: nat, g: nat, h: nat)
    requires IsRun(states, steps) && i < |states|
    requires g < |states[i].gens| && h < |states[i].gens|
    requires states[i].gens[g].call.key == states[i].gens[h].call.key
    requires states[i].gens[g].InFlight() && !states[i].gens[g].ctxCancelled
    requires states[i].gens[h].InFlight() && !states[i].gens[h].ctxCancelled
    ensures g == h
  {
    ReachableInv(states, steps, i);
    assert GenOk(states[i], g) && GenOk(states[i], h);
  }

  /** An execution is cancelled under its function only when nobody waits for it,
      and from then on nobody ever does. */
  lemma CancelledHasNobodyForever(states: seq<State>, steps: seq<Action>, i: nat, j: nat, g: nat)
    requires IsRun(states, steps) && i <= j < |states| && g < |states[i].gens|
    requires states[i].gens[g].InFlight() && states[i].gens[g].ctxCancelled
    ensures g < |states[j].gens| && states[j].gens[g].count == 0
    ensures forall c :: 0 <= c < |states[j].callers| ==> Present(g)(states[j].callers[c]) == 0
  {
    ReachableInv(states, steps, i);
    ReachableInv(states, steps, j);
    RunIsLater(states, steps, i, j);
    assert GenOk(states[i], g) && GenOk(states[j], g);
    assert GenLater(states[i], states[j], g);
    forall c | 0 <= c < |states[j].callers| ensures Present(g)(states[j].callers[c]) == 0 {
      SumAtLeast(Present(g), states[j].callers, c);
    }
  }

  /** Whoever joins, joins a generation that is in flight, uncancelled, not yet
      published and listed under the caller's key, and is counted by it. */
  lemma JoinersFindLiveWork(states: seq<State>, steps: seq<Action>, i: nat)
    requires IsRun(states, steps) && i < |steps| && steps[i].Join?
    ensures var s, a := states[i + 1], steps[i];
            && a.c < |s.callers| && s.callers[a.c].place.Waiting?
            && var g := s.callers[a.c].place.gen;
               && g < |s.gens| && s.gens[g].InFlight() && !s.gens[g].ctxCancelled && !s.gens[g].done
               && s.gens[g].call.key == a.call.key && s.gens[g].count >= 1
               && a.call.key in s.scanCtxs && s.scanCtxs[a.call.key] == g
  {
    assert StepAt(states, steps, i);
    ReachableInv(states, steps, i);
    ReachableInv(states, steps, i + 1);
    var s, a := states[i + 1], steps[i];
    var g := s.callers[a.c].place.gen;
    assert GenOk(s, g) && CallerOk(s, a.c);
    SumAtLeast(Present(g), s.callers, a.c);
    assert Present(g)(s.callers[a.c]) == 1;
  }

  /** A generation once listed stays listed exactly as long as it is live: nobody
      takes out a live entry, whoever retires or leaves under the same key, and
      no dead one stays. */
  lemma ListedWhileLive(states: seq<State>, steps: seq<Action>, i: nat, j: nat, key: Text, g: nat)
    requires IsRun(states, steps) && i <= j < |states|
    requires key in states[i].scanCtxs && states[i].scanCtxs[key] == g
    ensures g < |states[j].gens|
    ensures var s := states[j];
            (key in s.scanCtxs && s.scanCtxs[key] == g) <==> (s.gens[g].InFlight() && !s.gens[g].ctxCancelled)
  {
    ReachableInv(states, steps, i);
    ReachableInv(states, steps, j);
    RunIsLater(states, steps, i, j);
    assert GenLater(states[i], states[j], g) && GenOk(states[j], g);
  }

  /** An entry has a caller behind it, so the table is empty once all have left. */
  lemma NoCallersNoEntries(states: seq<State>, steps: seq<Action>, i: nat)
    requires IsRun(states, steps) && i < |states|
    requires forall c :: 0 <= c < |states[i].callers| ==>
      !states[i].callers[c].place.Waiting? && !states[i].callers[c].place.Leaving?
    ensures states[i].scanCtxs == map[]
  {
    var s := states[i];
    ReachableInv(states, steps, i);
    forall key | key in s.scanCtxs ensures false {
      var g := s.scanCtxs[key];
      assert GenOk(s, g);
      var c := SumWitness(Present(g), s.callers);
    }
  }

  /** Limited executions never hold more than the two permits. */
  lemma PermitsAreBounded(states: seq<State>, steps: seq<Action>, i: nat)
    requires IsRun(states, steps) && i < |states|
    ensures states[i].permits == Sum(Holding, states[i].gens) <= 2
  {
    ReachableInv(states, steps, i);
  }

  // ---------------------------------------------------------------- shutdown

  /** Nothing registered: every handler has ended or was refused, and every
      execution has ended. */
  predicate Quiet(s: State) {
    && (forall c :: 0 <= c < |s.callers| ==> s.callers[c].place.Refused? || s.callers[c].place.Gone?)
    && (forall g :: 0 <= g < |s.gens| ==> s.gens[g].phase.Ended?)
  }

  lemma InactiveIsQuiet(s: State)
    requires Inv(s)
    ensures s.life.active == 0 <==> Quiet(s)
  {
    if s.life.active == 0 {
      forall c | 0 <= c < |s.callers| ensures s.callers[c].place.Refused? || s.callers[c].place.Gone? {
        SumAtLeast(Registered, s.callers, c);
      }
      forall g | 0 <= g < |s.gens| ensures s.gens[g].phase.Ended? {
        SumAtLeast(Unended, s.gens, g);
      }
    }
    if Quiet(s) {
      SumZero(Registered, s.callers);
      SumZero(Unended, s.gens);
    }
  }

  /** Once one call of shutdown has returned nil, no handler and no shared
      execution is running, and none ever starts again. */
  lemma CleanShutdownIsFinal(states: seq<State>, steps: seq<Action>, i: nat, j: nat, t: nat)
    requires IsRun(states, steps) && i <= j < |states|
    requires t < |states[i].shutdowns| && states[i].shutdowns[t] == Finished(true)
    ensures Quiet(states[j]) && |states[j].gens| == |states[i].gens|
  {
    ReachableInv(states, steps, i);
    ReachableInv(states, steps, j);
    RunIsLater(states, steps, i, j);
    InactiveIsQuiet(states[j]);
  }

  /** shutdown reports failure only while work is registered, and after telling
      that work to stop. */
  lemma FailedShutdownIsHonest(states: seq<State>, steps: seq<Action>, i: nat)
    requires IsRun(states, steps) && i < |steps| && steps[i].JoinTimeout?
    ensures !Quiet(states[i]) && states[i].life.cancelled
  {
    ReachableInv(states, steps, i);
    assert StepAt(states, steps, i);
    InactiveIsQuiet(states[i]);
    var ch := states[i].shutdowns[steps[i].t].channel;
    assert ch in states[i].life.waiters;
  }

  lemma OnlyGraceOverCancels(s: State, a: Action)
    requires Enabled(s, a)
    ensures Next(s, a).life.cancelled <==> s.life.cancelled || a.GraceOver?
  {
  }

  /** Running work has been told to stop if and only if the grace period of some
      call of shutdown has run out; work is no longer admitted then. */
  lemma {:induction false} CancelledAfterGrace(states: seq<State>, steps: seq<Action>, i: nat)
    requires IsRun(states, steps) && i < |states|
    ensures states[i].life.cancelled <==> exists k :: 0 <= k < i && steps[k].GraceOver?
    decreases i
  {
    if i > 0 {
      assert StepAt(states, steps, i - 1);
      CancelledAfterGrace(states, steps, i - 1);
      OnlyGraceOverCancels(states[i - 1], steps[i - 1]);
    }
  }

  /** And work is no longer admitted by then. */
  lemma CancelledIsDraining(states: seq<State>, steps: seq<Action>, i: nat)
    requires IsRun(states, steps) && i < |states| && states[i].life.cancelled
    ensures states[i].life.draining
  {
    ReachableInv(states, steps, i);
  }

  /** From then on no handler is held by its execution: each one that waits can leave
      with its context's error. */
  lemma CancelledFreesCallers(states: seq<State>, steps: seq<Action>, i: nat, j: nat, c: nat)
    requires IsRun(states, steps) && i <= j < |states| && states[i].life.cancelled
    requires c < |states[j].callers| && states[j].callers[c].place.Waiting?
    ensures Enabled(states[j], SeeContext(c)) && Enabled(Next(states[j], SeeContext(c)), Leave(c))
  {
    ReachableInv(states, steps, j);
    RunIsLater(states, steps, i, j);
    assert CallerOk(states[j], c);
  }

  /** Nobody is at the select or past it. */
  predicate NobodyPresent(s: State) {
    forall c :: 0 <= c < |s.callers| ==> !s.callers[c].place.Waiting? && !s.callers[c].place.Leaving?
  }

  /** With nobody present every execution still under way is cancelled. */
  lemma NobodyPresentCancels(s: State)
    requires Inv(s) && NobodyPresent(s)
    ensures forall g :: 0 <= g < |s.gens| && s.gens[g].InFlight() ==> s.gens[g].ctxCancelled
  {
    forall g | 0 <= g < |s.gens| && s.gens[g].InFlight() ensures s.gens[g].ctxCancelled {
      assert GenOk(s, g);
      SumZero(Present(g), s.callers);
    }
  }

  function Pending(c: Caller): nat {
    if c.place.Waiting? then 2 else if c.place.Leaving? then 1 else 0
  }

  predicate IsLeaving(a: Action) {
    a.SeeContext? || a.Leave?
  }

  lemma PathFrom(s: State, a: Action, states: seq<State>, steps: seq<Action>)
    requires Enabled(s, a) && Path(states, steps) && states[0] == Next(s, a)
    ensures Path([s] + states, [a] + steps)
  {
    var all, moves := [s] + states, [a] + steps;
    forall i | 0 <= i < |moves| ensures StepAt(all, moves, i) {
      if i > 0 { assert StepAt(states, steps, i - 1); }
    }
  }

  /** Someone present can take a step out, and executions stay where they are. */
  lemma OneCanLeave(s: State) returns (a: Action)
    requires Inv(s) && s.life.cancelled && !NobodyPresent(s)
    ensures IsLeaving(a) && Enabled(s, a) && Next(s, a).life.cancelled
    ensures Sum(Pending, Next(s, a).callers) < Sum(Pending, s.callers)
    ensures SamePhases(s, Next(s, a))
  {
    var c :| 0 <= c < |s.callers| && (s.callers[c].place.Waiting? || s.callers[c].place.Leaving?);
    assert CallerOk(s, c);
    a := if s.callers[c].place.Waiting? then SeeContext(c) else Leave(c);
    SumUpdate(Pending, s.callers, c, Next(s, a).callers[c]);
  }

  predicate SamePhases(s: State, s': State) {
    |s'.gens| == |s.gens| && forall g :: 0 <= g < |s.gens| ==> s'.gens[g].phase == s.gens[g].phase
  }

  /** Once work has been told to stop, handlers alone can bring about that all have
      left and every execution under way is cancelled; no execution need move. */
  lemma {:induction false} HandlersCanLeave(s: State) returns (states: seq<State>, steps: seq<Action>)
    requires Inv(s) && s.life.cancelled
    ensures Path(states, steps) && states[0] == s
    ensures forall a :: a in steps ==> IsLeaving(a)
    ensures var end := states[|steps|];
            && NobodyPresent(end) && SamePhases(s, end)
            && forall g :: 0 <= g < |s.gens| && s.gens[g].InFlight() ==> end.gens[g].ctxCancelled
    decreases Sum(Pending, s.callers)
  {
    if NobodyPresent(s) {
      states, steps := [s], [];
      NobodyPresentCancels(s);
    } else {
      var a := OneCanLeave(s);
      StepKeepsInv(s, a);
      var later, moves := HandlersCanLeave(Next(s, a));
      PathFrom(s, a, later, moves);
      states, steps := [s] + later, [a] + moves;
      assert states[|steps|] == later[|moves|];
    }
  }

  /** No idle channel is closed twice, and all are closed when work runs out. */
  lemma IdleChannelsCloseOnce(states: seq<State>, steps: seq<Action>, i: nat, ch: nat)
    requires IsRun(states, steps) && i < |states| && ch < |states[i].life.closes|
    ensures states[i].life.closes[ch] <= 1
    ensures states[i].life.closes[ch] == 1 <==> Quiet(states[i])
  {
    ReachableInv(states, steps, i);
    InactiveIsQuiet(states[i]);
  }
}
