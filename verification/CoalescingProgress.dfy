/** Draining ends: while work is registered some participant can move, and each
    such move uses up a bounded amount of work. */
module CoalescingProgress {
  import opened Sequences
  import opened Coalescing
  import opened CoalescingRuns

  /** Steps of handlers and executions. A shared function returning is one of
      them, so the results below are for functions that do return. */
  predicate Productive(a: Action) {
    a.Join? || a.SeeContext? || a.SeeDone? || a.Leave? || a.EndCall? || IsExecution(a)
  }

  /** Steps still ahead of a generation, and of a caller with the generation it
      may yet start. */
  function GenWork(g: Gen): nat {
    match g.phase
    case Queued => 8
    case Running => 7
    case Returned => 6
    case Released => 5
    case Retired => 4
    case Cancelled => 3
    case Published => 2
    case Ended => 0
  }

  function CallerWork(c: Caller): nat {
    match c.place
    case Handling => 13
    case Waiting(_, _) => 4
    case Leaving(_, _, _) => 3
    case Served(_, _, _) => 2
    case _ => 0
  }

  function Work(s: State): nat {
    Sum(CallerWork, s.callers) + Sum(GenWork, s.gens)
  }

  lemma ExecutionUsesWork(s: State, a: Action)
    requires Enabled(s, a) && IsExecution(a)
    ensures Work(Next(s, a)) < Work(s)
  {
    SumUpdate(GenWork, s.gens, a.g, Next(s, a).gens[a.g]);
  }

  lemma JoinUsesWork(s: State, c: nat, call: Call)
    requires Enabled(s, Join(c, call))
    ensures Work(Next(s, Join(c, call))) < Work(s)
  {
    var s' := Next(s, Join(c, call));
    SumUpdate(CallerWork, s.callers, c, s'.callers[c]);
    if call.key in s.scanCtxs {
      var g := s.scanCtxs[call.key];
      SumUpdate(GenWork, s.gens, g, s'.gens[g]);
    } else {
      SumAppend(GenWork, s.gens, NewGen(call));
    }
  }

  lemma LeaveUsesWork(s: State, c: nat)
    requires Enabled(s, Leave(c))
    ensures Work(Next(s, Leave(c))) < Work(s)
  {
    var s' := Next(s, Leave(c));
    var g := s.callers[c].place.gen;
    assert s'.gens == s.gens[g := s'.gens[g]] && s'.gens[g].phase == s.gens[g].phase;
    assert s'.callers == s.callers[c := s'.callers[c]];
    SumUpdate(CallerWork, s.callers, c, s'.callers[c]);
    SumUpdate(GenWork, s.gens, g, s'.gens[g]);
  }

  lemma ProductiveUsesWork(s: State, a: Action)
    requires Enabled(s, a) && Productive(a)
    ensures Work(Next(s, a)) < Work(s)
  {
    if IsExecution(a) { ExecutionUsesWork(s, a); }
    else if a.Join? { JoinUsesWork(s, a.c, a.call); }
    else if a.Leave? { LeaveUsesWork(s, a.c); }
    else { SumUpdate(CallerWork, s.callers, a.c, Next(s, a).callers[a.c]); }
  }

  lemma DrainingAddsNoWork(s: State, a: Action)
    requires Enabled(s, a) && !Productive(a)
    requires s.life.draining
    ensures Work(Next(s, a)) == Work(s)
  {
    var s' := Next(s, a);
    if a.BeginCall? {
      SumAppend(CallerWork, s.callers, Caller(Refused, false));
    } else if a.ContextEnds? {
      SumUpdate(CallerWork, s.callers, a.c, s'.callers[a.c]);
    }
  }

  function ProductiveSteps(steps: seq<Action>): nat {
    if steps == [] then 0
    else ProductiveSteps(steps[..|steps| - 1]) + if Productive(steps[|steps| - 1]) then 1 else 0
  }

  /** However the participants are scheduled, the number of handler and
      execution steps after draining has begun is bounded by the work then
      outstanding; nothing can keep it going. */
  lemma {:induction false} DrainingIsBounded(states: seq<State>, steps: seq<Action>)
    requires Path(states, steps)
    requires states[0].life.draining
    ensures states[|steps|].life.draining
    ensures ProductiveSteps(steps) + Work(states[|steps|]) <= Work(states[0])
  {
    if steps != [] {
      var n := |steps| - 1;
      var visited, taken := states[..n + 1], steps[..n];
      forall i | 0 <= i < n ensures StepAt(visited, taken, i) {
        assert StepAt(states, steps, i);
      }
      DrainingIsBounded(visited, taken);
      var s, a := states[n], steps[n];
      assert StepAt(states, steps, n);
      assert Next(s, a).life.draining;
      if Productive(a) {
        ProductiveUsesWork(s, a);
      } else {
        DrainingAddsNoWork(s, a);
      }
    }
  }

  /** An execution that has not ended can move, unless it waits for a permit. */
  lemma ExecutionCanMove(s: State, g: nat) returns (a: Action)
    requires g < |s.gens| && !s.gens[g].phase.Ended?
    requires s.gens[g].phase.Queued? && s.gens[g].call.limited ==> s.permits < PERMITS
    ensures IsExecution(a) && Enabled(s, a)
  {
    match s.gens[g].phase
    case Queued => a := if s.gens[g].call.limited then Acquire(g) else Start(g);
    case Running => a := Return(g, Value(0));
    case Returned => a := Release(g);
    case Released => a := Retire(g);
    case Retired => a := CancelOwn(g);
    case Cancelled => a := Publish(g);
    case Published => a := EndExecution(g);
  }

  lemma CallerCanMove(s: State, c: nat) returns (a: Action)
    requires Inv(s) && c < |s.callers| && Registered(s.callers[c]) > 0
    requires forall g :: 0 <= g < |s.gens| ==> s.gens[g].phase.Ended?
    ensures Productive(a) && Enabled(s, a)
  {
    assert CallerOk(s, c);
    var p := s.callers[c].place;
    if p.Waiting? {
      assert GenOk(s, p.gen);
      a := SeeDone(c);
    } else {
      a := if p.Leaving? then Leave(c) else EndCall(c);
    }
  }

  /** No deadlock: while anything is registered, a handler or an execution can
      take a step. In particular nobody is stranded behind the semaphore. */
  lemma WorkCanMove(s: State) returns (a: Action)
    requires Inv(s) && s.life.active > 0
    ensures Productive(a) && Enabled(s, a)
  {
    if g :| 0 <= g < |s.gens| && !s.gens[g].phase.Ended? {
      if s.gens[g].phase.Queued? && s.gens[g].call.limited && s.permits >= PERMITS {
        var holder := SumWitness(Holding, s.gens);
        a := ExecutionCanMove(s, holder);
      } else {
        a := ExecutionCanMove(s, g);
      }
    } else {
      SumZeroUnended(s);
      var c := SumWitness(Registered, s.callers);
      a := CallerCanMove(s, c);
    }
  }

  lemma SumZeroUnended(s: State)
    requires forall g :: 0 <= g < |s.gens| ==> s.gens[g].phase.Ended?
    ensures Sum(Unended, s.gens) == 0
  {
    SumZero(Unended, s.gens);
  }

  /** A drained server that can move no more is quiet, and every waiting call of
      shutdown can then return nil. */
  lemma StuckMeansDone(states: seq<State>, steps: seq<Action>, t: nat)
    requires IsRun(states, steps)
    requires var s := states[|steps|]; forall a :: Productive(a) ==> !Enabled(s, a)
    ensures var s := states[|steps|];
            && Quiet(s)
            && (t < |s.shutdowns| && s.shutdowns[t].Grace? ==> Enabled(s, GraceIdle(t)))
            && (t < |s.shutdowns| && s.shutdowns[t].Joining? ==> Enabled(s, JoinIdle(t)))
  {
    var s := states[|steps|];
    ReachableInv(states, steps, |steps|);
    if s.life.active > 0 {
      var a := WorkCanMove(s);
      assert false;
    }
    InactiveIsQuiet(s);
  }
}
