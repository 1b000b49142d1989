/** What the participants of the coalescing protocol are told, by the steps that
    were taken: callers, refused handlers and calls of shutdown. */
module CoalescingAnswers {
  import opened Sequences
  import opened Coalescing
  import opened CoalescingRuns

  // ------------------------------------------------------------ results and answers

  /** The step by which the function of generation `g` returns `x`, or by which it is
      never called for want of a permit. */
  predicate Gives(a: Action, g: nat, x: Outcome) {
    a == Return(g, x) || (a.AcquireFails? && a.g == g && x == Error(a.error))
  }

  lemma ExecutionGivesResult(s: State, a: Action, g: nat, x: Outcome)
    requires Inv(s) && Enabled(s, a) && IsExecution(a) && g < |s.gens| && x != Unset
    ensures Next(s, a).gens[g].result == x <==> s.gens[g].result == x || Gives(a, g, x)
  {
    assert GenOk(s, g);
    assert g != a.g ==> Next(s, a).gens[g] == s.gens[g];
  }

  lemma OthersGiveNothing(s: State, a: Action, g: nat, x: Outcome)
    requires Enabled(s, a) && !IsExecution(a) && g < |Next(s, a).gens| && x != Unset
    ensures Next(s, a).gens[g].result == x <==> g < |s.gens| && s.gens[g].result == x
  {
  }

  /** The generation's result is `x`. */
  predicate HasResult(s: State, g: nat, x: Outcome) {
    g < |s.gens| && s.gens[g].result == x
  }

  lemma GensAreKept(s: State, a: Action)
    requires Enabled(s, a)
    ensures |s.gens| <= |Next(s, a).gens|
  {
  }

  lemma StepGivesResult(s: State, a: Action, g: nat, x: Outcome)
    requires Inv(s) && Enabled(s, a) && x != Unset
    ensures HasResult(Next(s, a), g, x) <==> HasResult(s, g, x) || Gives(a, g, x)
  {
    GensAreKept(s, a);
    if g < |Next(s, a).gens| {
      if !IsExecution(a) { OthersGiveNothing(s, a, g, x); }
      else if g < |s.gens| { ExecutionGivesResult(s, a, g, x); }
    }
  }

  /** A generation's result is what its function returned, or the error of the
      semaphore it got no permit from, and nothing else. */
  lemma {:induction false} ResultIffGiven(states: seq<State>, steps: seq<Action>, i: nat, g: nat, x: Outcome)
    requires IsRun(states, steps) && i < |states| && x != Unset
    ensures HasResult(states[i], g, x) <==> exists k :: 0 <= k < i && Gives(steps[k], g, x)
    decreases i
  {
    if i > 0 {
      ResultIffGiven(states, steps, i - 1, g, x);
      ReachableInv(states, steps, i - 1);
      assert StepAt(states, steps, i - 1);
      StepGivesResult(states[i - 1], steps[i - 1], g, x);
    }
  }

  lemma StepTakes(s: State, a: Action, c: nat, g: nat, x: Outcome)
    requires Inv(s) && Enabled(s, a) && Took(Next(s, a), c, g, x)
    ensures Took(s, c, g, x) || (a == SeeDone(c) && c < |s.callers| && WaitsFor(s, c, g) && s.gens[g].done && s.gens[g].result == x)
  {
  }

  predicate WaitsFor(s: State, c: nat, g: nat) {
    c < |s.callers| && s.callers[c].place.Waiting? && s.callers[c].place.gen == g && g < |s.gens|
  }

  /** Whoever has the shared result saw the generation's done channel closed. */
  lemma {:induction false} TookBySeeingDone(states: seq<State>, steps: seq<Action>, i: nat, c: nat, g: nat, x: Outcome) returns (j: nat)
    requires IsRun(states, steps) && i < |states| && Took(states[i], c, g, x)
    ensures j < i && steps[j] == SeeDone(c) && WaitsFor(states[j], c, g)
    ensures states[j].gens[g].done && states[j].gens[g].result == x
    decreases i
  {
    assert StepAt(states, steps, i - 1);
    ReachableInv(states, steps, i - 1);
    StepTakes(states[i - 1], steps[i - 1], c, g, x);
    if Took(states[i - 1], c, g, x) {
      j := TookBySeeingDone(states, steps, i - 1, c, g, x);
    } else {
      j := i - 1;
    }
  }

  lemma FailureIsCancelled(states: seq<State>, steps: seq<Action>, k: nat, g: nat)
    requires IsRun(states, steps) && k < |steps| && steps[k].AcquireFails? && steps[k].g == g
    ensures g < |states[k].gens|
    ensures states[k].gens[g].InFlight() && states[k].gens[g].ctxCancelled && !states[k].gens[g].done
  {
    assert StepAt(states, steps, k);
    ReachableInv(states, steps, k);
    assert GenOk(states[k], g);
  }

  /** Nobody is answered by a generation that got no permit: it was cancelled, so all
      had left it before, and none joins it later. */
  lemma FailureAnswersNobody(states: seq<State>, steps: seq<Action>, k: nat, j: nat, c: nat, g: nat)
    requires IsRun(states, steps) && k < |steps| && j < |states|
    requires steps[k].AcquireFails? && steps[k].g == g
    ensures WaitsFor(states[j], c, g) ==> !states[j].gens[g].done
  {
    FailureIsCancelled(states, steps, k, g);
    if k <= j {
      CancelledHasNobodyForever(states, steps, k, j, g);
      if c < |states[j].callers| { assert Present(g)(states[j].callers[c]) == 0; }
    } else {
      RunIsLater(states, steps, j, k);
      assert g < |states[j].gens| ==> GenLater(states[j], states[k], g);
    }
  }

  /** The answer is the function's: what a caller takes from the generation it waited
      for is what that generation's function returned, never the semaphore's error. */
  lemma AnswerIsReturned(states: seq<State>, steps: seq<Action>, i: nat, c: nat, g: nat, x: Outcome)
    requires IsRun(states, steps) && i < |states| && Took(states[i], c, g, x)
    ensures exists k :: 0 <= k < i && steps[k] == Return(g, x)
  {
    var j := TookBySeeingDone(states, steps, i, c, g, x);
    ReachableInv(states, steps, j);
    assert GenOk(states[j], g);
    ResultIffGiven(states, steps, j, g, x);
    var k :| 0 <= k < j && Gives(steps[k], g, x);
    if steps[k].AcquireFails? {
      FailureAnswersNobody(states, steps, k, j, c, g);
    }
  }

  /** All callers that leave one generation through its done channel, at any two
      moments of a run, leave with the same result, and it is what the function had returned. */
  lemma SharedResultIsOne(states: seq<State>, steps: seq<Action>, i: nat, j: nat, c: nat, d: nat, g: nat, x: Outcome, y: Outcome)
    requires IsRun(states, steps) && i <= j < |states|
    requires Took(states[i], c, g, x) && Took(states[j], d, g, y)
    ensures x == y && x != Unset
    ensures exists k :: 0 <= k < i && steps[k] == Return(g, x)
  {
    AnswerIsReturned(states, steps, i, c, g, x);
    ReachableInv(states, steps, i);
    ReachableInv(states, steps, j);
    RunIsLater(states, steps, i, j);
    assert CallerOk(states[i], c) && CallerOk(states[j], d);
    assert GenOk(states[i], g);
    assert GenLater(states[i], states[j], g);
  }

  /** A shared function runs at most once, and the generation's value, as opposed to an
      error, is the one that run returned. */
  lemma FunctionRunsOnce(states: seq<State>, steps: seq<Action>, i: nat, g: nat)
    requires IsRun(states, steps) && i < |states| && g < |states[i].gens|
    ensures states[i].gens[g].runs <= 1
    ensures states[i].gens[g].phase.Running? || states[i].gens[g].result.Value? ==> states[i].gens[g].runs == 1
    ensures forall v :: states[i].gens[g].result == Value(v) <==> exists k :: 0 <= k < i && steps[k] == Return(g, Value(v))
  {
    ReachableInv(states, steps, i);
    assert GenOk(states[i], g);
    forall v ensures states[i].gens[g].result == Value(v) <==> exists k :: 0 <= k < i && steps[k] == Return(g, Value(v)) {
      ValueIffReturned(states, steps, i, g, v);
    }
  }

  lemma ValueIffReturned(states: seq<State>, steps: seq<Action>, i: nat, g: nat, v: int)
    requires IsRun(states, steps) && i < |states|
    ensures HasResult(states[i], g, Value(v)) <==> exists k :: 0 <= k < i && steps[k] == Return(g, Value(v))
  {
    ResultIffGiven(states, steps, i, g, Value(v));
    if k :| 0 <= k < i && steps[k] == Return(g, Value(v)) {
      assert Gives(steps[k], g, Value(v));
    }
  }

  // ---------------------------------------------------------------- which way callers leave

  predicate HasLeft(s: State, c: nat) {
    c < |s.callers| && (s.callers[c].place.Leaving? || s.callers[c].place.Served?)
  }

  predicate LeftInterrupted(s: State, c: nat) {
    HasLeft(s, c) && s.callers[c].place.reply.Interrupted?
  }

  predicate LeftAnswered(s: State, c: nat) {
    HasLeft(s, c) && s.callers[c].place.reply.Shared?
  }

  lemma StepLeaves(s: State, a: Action, c: nat)
    requires Enabled(s, a) && HasLeft(Next(s, a), c)
    ensures LeftInterrupted(Next(s, a), c) <==> LeftInterrupted(s, c) || a == SeeContext(c)
    ensures LeftAnswered(Next(s, a), c) <==> LeftAnswered(s, c) || a == SeeDone(c)
    ensures a == SeeContext(c) || a == SeeDone(c) ==> !HasLeft(s, c)
    ensures !(a == SeeContext(c) || a == SeeDone(c)) ==> HasLeft(s, c)
  {
  }

  /** Nothing undoes the leaving: before it the caller had taken neither way. */
  lemma {:induction false} NotYetLeft(states: seq<State>, steps: seq<Action>, i: nat, c: nat)
    requires IsRun(states, steps) && i < |states|
    requires c < |states[i].callers| ==> states[i].callers[c].place.Handling? || states[i].callers[c].place.Waiting?
    ensures forall k :: 0 <= k < i ==> steps[k] != SeeContext(c) && steps[k] != SeeDone(c)
    decreases i
  {
    if i > 0 {
      assert StepAt(states, steps, i - 1);
      StepHasNotLeft(states[i - 1], steps[i - 1], c);
      NotYetLeft(states, steps, i - 1, c);
    }
  }

  lemma StepHasNotLeft(s: State, a: Action, c: nat)
    requires Enabled(s, a)
    requires var s' := Next(s, a); c < |s'.callers| ==> s'.callers[c].place.Handling? || s'.callers[c].place.Waiting?
    ensures a != SeeContext(c) && a != SeeDone(c)
    ensures c < |s.callers| ==> s.callers[c].place.Handling? || s.callers[c].place.Waiting?
  {
  }

  /** A caller that has left was interrupted if it left by its context, and answered if
      it left by the done channel. */
  lemma {:induction false} LeftAsItChose(states: seq<State>, steps: seq<Action>, i: nat, c: nat)
    requires IsRun(states, steps) && i < |states| && HasLeft(states[i], c)
    ensures LeftInterrupted(states[i], c) <==> exists k :: 0 <= k < i && steps[k] == SeeContext(c)
    ensures LeftAnswered(states[i], c) <==> exists k :: 0 <= k < i && steps[k] == SeeDone(c)
    decreases i
  {
    assert StepAt(states, steps, i - 1);
    StepLeaves(states[i - 1], steps[i - 1], c);
    if HasLeft(states[i - 1], c) {
      LeftAsItChose(states, steps, i - 1, c);
    } else {
      NotYetLeft(states, steps, i - 1, c);
    }
  }

  lemma StepEndsContext(s: State, a: Action, c: nat)
    requires Enabled(s, a) && c < |Next(s, a).callers|
    ensures Next(s, a).callers[c].ctxDone <==> (c < |s.callers| && s.callers[c].ctxDone) || a == ContextEnds(c)
  {
  }

  /** A handler's own context has ended if and only if it was ended. */
  lemma {:induction false} ContextDoneIff(states: seq<State>, steps: seq<Action>, i: nat, c: nat)
    requires IsRun(states, steps) && i < |states| && c < |states[i].callers|
    ensures states[i].callers[c].ctxDone <==> exists k :: 0 <= k < i && steps[k] == ContextEnds(c)
    decreases i
  {
    if i > 0 {
      assert StepAt(states, steps, i - 1);
      StepEndsContext(states[i - 1], steps[i - 1], c);
      if c < |states[i - 1].callers| {
        ContextDoneIff(states, steps, i - 1, c);
      } else {
        NotThereYet(states, steps, i - 1, c);
      }
    }
  }

  lemma NotThereYet(states: seq<State>, steps: seq<Action>, i: nat, c: nat)
    requires IsRun(states, steps) && i < |states| && c >= |states[i].callers|
    ensures forall k :: 0 <= k < i ==> steps[k] != ContextEnds(c)
  {
    forall k | 0 <= k < i ensures steps[k] != ContextEnds(c) {
      assert StepAt(states, steps, k);
      RunIsLater(states, steps, k, i);
    }
  }

  /** A waiting caller can leave by its context if and only if that was ended, or
      shutdown has given up on draining. */
  lemma MayLeaveIff(states: seq<State>, steps: seq<Action>, i: nat, c: nat)
    requires IsRun(states, steps) && i < |states| && c < |states[i].callers| && states[i].callers[c].place.Waiting?
    ensures Enabled(states[i], SeeContext(c)) <==> exists k :: 0 <= k < i && (steps[k] == ContextEnds(c) || steps[k].GraceOver?)
  {
    ContextDoneIff(states, steps, i, c);
    CancelledAfterGrace(states, steps, i);
  }

  // ------------------------------------------------------------- admission and shutdown

  lemma OnlyStartDrainDrains(s: State, a: Action)
    requires Enabled(s, a)
    ensures Next(s, a).life.draining <==> s.life.draining || a.StartDrain?
  {
  }

  /** The server is draining if and only if shutdown was called. */
  lemma {:induction false} DrainingIff(states: seq<State>, steps: seq<Action>, i: nat)
    requires IsRun(states, steps) && i < |states|
    ensures states[i].life.draining <==> exists k :: 0 <= k < i && steps[k].StartDrain?
    decreases i
  {
    if i > 0 {
      assert StepAt(states, steps, i - 1);
      DrainingIff(states, steps, i - 1);
      OnlyStartDrainDrains(states[i - 1], steps[i - 1]);
    }
  }

  /** A handler is refused if shutdown was called before, and admitted otherwise. */
  lemma RefusedIffDraining(states: seq<State>, steps: seq<Action>, i: nat)
    requires IsRun(states, steps) && i < |steps| && steps[i].BeginCall?
    ensures var s := states[i + 1];
            && |s.callers| == |states[i].callers| + 1
            && s.callers[|s.callers| - 1].place == if exists k :: 0 <= k < i && steps[k].StartDrain? then Refused else Handling
  {
    assert StepAt(states, steps, i);
    DrainingIff(states, steps, i);
  }

  predicate Finishes(a: Action, t: nat, clean: bool) {
    if clean then a == GraceIdle(t) || a == JoinIdle(t) else a == JoinTimeout(t)
  }

  predicate IsFinished(s: State, t: nat, clean: bool) {
    t < |s.shutdowns| && s.shutdowns[t] == Finished(clean)
  }

  lemma StepFinishes(s: State, a: Action, t: nat, clean: bool)
    requires Enabled(s, a)
    ensures IsFinished(Next(s, a), t, clean) <==> IsFinished(s, t, clean) || Finishes(a, t, clean)
  {
  }

  /** A call of shutdown has returned nil if and only if it saw its idle channel
      closed, and its error if and only if it ran out of time to join. */
  lemma {:induction false} FinishedIff(states: seq<State>, steps: seq<Action>, i: nat, t: nat, clean: bool)
    requires IsRun(states, steps) && i < |states|
    ensures IsFinished(states[i], t, clean) <==> exists k :: 0 <= k < i && Finishes(steps[k], t, clean)
    decreases i
  {
    if i > 0 {
      assert StepAt(states, steps, i - 1);
      FinishedIff(states, steps, i - 1, t, clean);
      StepFinishes(states[i - 1], steps[i - 1], t, clean);
    }
  }
}
