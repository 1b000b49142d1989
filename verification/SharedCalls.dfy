/** The protocol and the keys together: who shares a result asked for it. */
module SharedCalls {
  import opened Sequences
  import opened Keys
  import opened Coalescing
  import opened CoalescingRuns

  /** A call as CallTool makes it: the key is built from the arguments that the
      shared function closes over. */
  ghost predicate Honest(call: Call) {
    && call.request.Accepted()
    && call.key == KeyOf(call.request)
    && call.limited == call.request.Limited()
  }

  ghost predicate HonestRun(states: seq<State>, steps: seq<Action>) {
    && IsRun(states, steps)
    && forall i :: 0 <= i < |steps| && steps[i].Join? ==> Honest(steps[i].call)
  }

  /** The caller takes part in generation `g`, from joining on. */
  predicate TakesPart(p: Place, g: nat) {
    (p.Waiting? || p.Leaving? || p.Served?) && p.gen == g
  }

  ghost predicate AllHonest(s: State) {
    && (forall g :: 0 <= g < |s.gens| ==> Honest(s.gens[g].call))
    && (forall c :: 0 <= c < |s.callers| ==>
          var p := s.callers[c].place; p.Waiting? || p.Leaving? || p.Served? ==> Honest(p.call))
  }

  lemma StepStaysHonest(s: State, a: Action)
    requires Enabled(s, a) && AllHonest(s)
    requires a.Join? ==> Honest(a.call)
    ensures AllHonest(Next(s, a))
  {
    if IsExecution(a) {
      assert Honest(s.gens[a.g].call);
    }
  }

  lemma {:induction false} RunStaysHonest(states: seq<State>, steps: seq<Action>, i: nat)
    requires HonestRun(states, steps) && i < |states|
    ensures AllHonest(states[i])
  {
    if i > 0 {
      RunStaysHonest(states, steps, i - 1);
      assert StepAt(states, steps, i - 1);
      StepStaysHonest(states[i - 1], steps[i - 1]);
    }
  }

  /** The execution that answers a caller was started for the caller's own
      arguments, up to the cut of the control IDs at commas; with comma-free
      control IDs, for exactly those arguments. */
  lemma AnswersMatchQuestions(states: seq<State>, steps: seq<Action>, i: nat, c: nat, g: nat)
    requires HonestRun(states, steps) && i < |states|
    requires c < |states[i].callers| && TakesPart(states[i].callers[c].place, g)
    ensures g < |states[i].gens|
    ensures var asked, ran := states[i].callers[c].place.call.request, states[i].gens[g].call.request;
            && Canonical(asked) == Canonical(ran)
            && (asked.CommaFree() && ran.CommaFree() ==> asked == ran)
  {
    ReachableInv(states, steps, i);
    RunStaysHonest(states, steps, i);
    assert CallerOk(states[i], c);
    var asked, ran := states[i].callers[c].place.call.request, states[i].gens[g].call.request;
    KeysAreExact(asked, ran);
    if asked.CommaFree() && ran.CommaFree() {
      SameKeySameRequest(asked, ran);
    }
  }

  /** A scan, that is any shared call but an analysis, inside its function or
      returning from it. */
  function ScanUnderWay(g: Gen): nat {
    if !g.call.request.Analysis? && (g.phase.Running? || g.phase.Returned?) then 1 else 0
  }

  /** Shared calls other than analyses are limited, and analyses are not. */
  predicate LimitsAreScans(gens: seq<Gen>) {
    forall g :: 0 <= g < |gens| ==> (gens[g].call.limited <==> !gens[g].call.request.Analysis?)
  }

  lemma HonestLimits(states: seq<State>, steps: seq<Action>, i: nat)
    requires HonestRun(states, steps) && i < |states|
    ensures LimitsAreScans(states[i].gens)
  {
    RunStaysHonest(states, steps, i);
    forall g | 0 <= g < |states[i].gens|
      ensures states[i].gens[g].call.limited <==> !states[i].gens[g].call.request.Analysis?
    {
      assert Honest(states[i].gens[g].call);
    }
  }

  lemma {:induction false} HoldersAreScans(gens: seq<Gen>)
    requires LimitsAreScans(gens)
    ensures Sum(Holding, gens) == Sum(ScanUnderWay, gens)
  {
    if gens != [] {
      assert LimitsAreScans(gens[1..]);
      HoldersAreScans(gens[1..]);
    }
  }

  lemma AnalysisCanStart(s: State, g: nat)
    requires LimitsAreScans(s.gens) && g < |s.gens| && s.gens[g].call.request.Analysis? && s.gens[g].phase.Queued?
    ensures Enabled(s, Start(g))
  {
  }

  /** The permits taken are the scans under way, one each, so at most two scans are
      ever under way. */
  lemma ScansHoldThePermits(states: seq<State>, steps: seq<Action>, i: nat)
    requires HonestRun(states, steps) && i < |states|
    ensures states[i].permits == Sum(ScanUnderWay, states[i].gens) <= 2
  {
    PermitsAreBounded(states, steps, i);
    HonestLimits(states, steps, i);
    HoldersAreScans(states[i].gens);
  }

  /** Analyses never queue behind scans: whatever permits are taken, an analysis not
      yet started can start. */
  lemma AnalysesNeverQueue(states: seq<State>, steps: seq<Action>, i: nat, g: nat)
    requires HonestRun(states, steps) && i < |states|
    requires g < |states[i].gens| && states[i].gens[g].call.request.Analysis? && states[i].gens[g].phase.Queued?
    ensures Enabled(states[i], Start(g)) && Holding(states[i].gens[g]) == 0
  {
    HonestLimits(states, steps, i);
    AnalysisCanStart(states[i], g);
  }
}
