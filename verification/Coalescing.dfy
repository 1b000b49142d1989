/** The coalescing protocol of the MCP server as a transition system. Each
    critical section of doSharedChan, runShared and workLifecycle is one atomic
    step; every order of steps is a run. Callers, generations and shutdown
    calls are numbered in the order they appear, and there is no bound on any
    of them. */
module Coalescing {
  import opened Sequences
  import opened Keys
  import L = Lifecycle

  const PERMITS: nat := 2

  /** One call of doSharedChan: its key, the arguments its function closes over,
      and whether it takes a scan slot. */
  datatype Call = Call(key: Text, request: Request, limited: bool)

  /** state.val and state.err; Unset until the execution assigns them. */
  datatype Outcome = Unset | Value(value: int) | Error(error: int)

  /** How far the goroutine of runShared has come. */
  datatype Phase =
    | Queued     // started, not yet inside the shared function
    | Running    // inside the shared function, with a permit when limited
    | Returned   // val and err assigned, permit still held
    | Released   // no permit held (any more)
    | Retired    // no longer in scanCtxs
    | Cancelled  // own context cancelled
    | Published  // done closed
    | Ended      // work.end called

  /** A generation: scanCtxState together with its one execution. */
  datatype Gen = Gen(call: Call, count: int, ctxCancelled: bool, result: Outcome, done: bool,
                     phase: Phase, runs: nat)
  {
    predicate InFlight() {
      phase.Queued? || phase.Running? || phase.Returned? || phase.Released?
    }

    /** What the phase says about the rest of the generation. */
    predicate PhaseOk() {
      && (result == Unset <==> phase.Queued? || phase.Running?)
      && (done <==> phase.Published? || phase.Ended?)
      && (phase.Cancelled? || phase.Published? || phase.Ended? ==> ctxCancelled)
      && (phase.Queued? ==> runs == 0)
      && (phase.Running? || phase.Returned? ==> runs == 1)
      && runs <= 1
      && (result.Value? ==> runs == 1)
      && (phase.Returned? ==> call.limited)
    }
  }

  /** What a caller takes out of the select: its own context's error, or the
      shared result. */
  datatype Reply = Interrupted | Shared(result: Outcome)

  datatype Place =
    | Refused                                      // begin said no
    | Handling                                     // registered, before the shared call
    | Waiting(gen: nat, call: Call)                // counted, at the select
    | Leaving(gen: nat, call: Call, reply: Reply)  // past the select, still counted
    | Served(gen: nat, call: Call, reply: Reply)   // back in the handler
    | Gone                                         // end called

  datatype Caller = Caller(place: Place, ctxDone: bool)

  /** One call of shutdown. */
  datatype Shutdown =
    | Draining               // draining set, idle not yet called
    | Grace(channel: nat)    // first select
    | Joining(channel: nat)  // cancelled, second select
    | Finished(clean: bool)  // returned; clean is a nil error

  datatype State = State(gens: seq<Gen>, scanCtxs: map<Text, nat>, permits: int, life: L.Life,
                         callers: seq<Caller>, shutdowns: seq<Shutdown>)

  const INIT := State([], map[], 0, L.FRESH, [], [])

  datatype Action =
    // handlers
    | BeginCall
    | ContextEnds(c: nat)
    | Join(c: nat, call: Call)
    | SeeContext(c: nat)
    | SeeDone(c: nat)
    | Leave(c: nat)
    | EndCall(c: nat)
    // executions
    | Acquire(g: nat)
    | AcquireFails(g: nat, error: int)
    | Start(g: nat)
    | Return(g: nat, result: Outcome)
    | Release(g: nat)
    | Retire(g: nat)
    | CancelOwn(g: nat)
    | Publish(g: nat)
    | EndExecution(g: nat)
    // shutdown
    | StartDrain
    | Watch(t: nat)
    | GraceIdle(t: nat)
    | GraceOver(t: nat)
    | JoinIdle(t: nat)
    | JoinTimeout(t: nat)

  /** A handler's context, made by bind: it ends with the request's own and when
      shutdown gives up on draining. */
  predicate ContextOver(s: State, c: nat)
    requires c < |s.callers|
  {
    s.callers[c].ctxDone || s.life.cancelled
  }

  predicate Enabled(s: State, a: Action) {
    match a
    case BeginCall => true
    case ContextEnds(c) => c < |s.callers|
    case Join(c, call) =>
      && c < |s.callers| && s.callers[c].place.Handling?
      && (call.key in s.scanCtxs ==> s.scanCtxs[call.key] < |s.gens|)  // an entry points at a generation
    case SeeContext(c) => c < |s.callers| && s.callers[c].place.Waiting? && ContextOver(s, c)
    case SeeDone(c) =>
      && c < |s.callers| && s.callers[c].place.Waiting?
      && s.callers[c].place.gen < |s.gens| && s.gens[s.callers[c].place.gen].done
    case Leave(c) => c < |s.callers| && s.callers[c].place.Leaving? && s.callers[c].place.gen < |s.gens|
    case EndCall(c) => c < |s.callers| && (s.callers[c].place.Handling? || s.callers[c].place.Served?)
    case Acquire(g) => g < |s.gens| && s.gens[g].phase.Queued? && s.gens[g].call.limited && s.permits < PERMITS
    case AcquireFails(g, _) =>
      g < |s.gens| && s.gens[g].phase.Queued? && s.gens[g].call.limited && s.gens[g].ctxCancelled
    case Start(g) => g < |s.gens| && s.gens[g].phase.Queued? && !s.gens[g].call.limited
    case Return(g, result) => g < |s.gens| && s.gens[g].phase.Running? && result != Unset
    case Release(g) => g < |s.gens| && s.gens[g].phase.Returned?
    case Retire(g) => g < |s.gens| && s.gens[g].phase.Released?
    case CancelOwn(g) => g < |s.gens| && s.gens[g].phase.Retired?
    case Publish(g) => g < |s.gens| && s.gens[g].phase.Cancelled?
    case EndExecution(g) => g < |s.gens| && s.gens[g].phase.Published?
    case StartDrain => true
    case Watch(t) => t < |s.shutdowns| && s.shutdowns[t].Draining?
    case GraceIdle(t) => t < |s.shutdowns| && s.shutdowns[t].Grace? && Closed(s.life, s.shutdowns[t].channel)
    case GraceOver(t) => t < |s.shutdowns| && s.shutdowns[t].Grace?
    case JoinIdle(t) => t < |s.shutdowns| && s.shutdowns[t].Joining? && Closed(s.life, s.shutdowns[t].channel)
    case JoinTimeout(t) => t < |s.shutdowns| && s.shutdowns[t].Joining? && !Closed(s.life, s.shutdowns[t].channel)
  }

  predicate Closed(l: L.Life, ch: nat) {
    ch < |l.closes| && l.closes[ch] > 0
  }

  function At(s: State, c: nat, place: Place): State
    requires c < |s.callers|
  {
    s.(callers := s.callers[c := s.callers[c].(place := place)])
  }

  function Exec(s: State, g: nat, gen: Gen): State
    requires g < |s.gens|
  {
    s.(gens := s.gens[g := gen])
  }

  // ------------------------------------------- the shared data, section by section

  function NewGen(call: Call): Gen {
    Gen(call, 1, false, Unset, false, Queued, 0)
  }

  /** The registering section of doSharedChan: the generation joined, and the
      table and generations after it. */
  function JoinTable(gens: seq<Gen>, table: map<Text, nat>, call: Call): (seq<Gen>, map<Text, nat>, nat)
    requires call.key in table ==> table[call.key] < |gens|
  {
    var key := call.key;
    if key in table
    then (gens[table[key] := gens[table[key]].(count := gens[table[key]].count + 1)], table, table[key])
    else (gens + [NewGen(call)], table[key := |gens|], |gens|)
  }

  /** delete(scanCtxs, key), but only while the entry is generation `g`. */
  function Drop(table: map<Text, nat>, key: Text, g: nat): map<Text, nat> {
    if key in table && table[key] == g then table - {key} else table
  }

  /** The deferred section of doSharedChan. */
  function LeaveTable(gens: seq<Gen>, table: map<Text, nat>, g: nat): (seq<Gen>, map<Text, nat>)
    requires g < |gens|
  {
    var gen := gens[g].(count := gens[g].count - 1);
    if gen.count <= 0
    then (gens[g := gen.(ctxCancelled := true)], Drop(table, gen.call.key, g))
    else (gens[g := gen], table)
  }

  function Next(s: State, a: Action): State
    requires Enabled(s, a)
  {
    match a
    case BeginCall =>
      s.(life := L.Begin(s.life), callers := s.callers + [Caller(if s.life.draining then Refused else Handling, false)])
    case ContextEnds(c) => s.(callers := s.callers[c := s.callers[c].(ctxDone := true)])
    case Join(c, call) =>
      var (gens, table, g) := JoinTable(s.gens, s.scanCtxs, call);
      At(s, c, Waiting(g, call)).(gens := gens, scanCtxs := table,
        life := if call.key in s.scanCtxs then s.life else L.BeginShared(s.life))
    case SeeContext(c) => var w := s.callers[c].place; At(s, c, Leaving(w.gen, w.call, Interrupted))
    case SeeDone(c) => var w := s.callers[c].place; At(s, c, Leaving(w.gen, w.call, Shared(s.gens[w.gen].result)))
    case Leave(c) =>
      var w := s.callers[c].place;
      var (gens, table) := LeaveTable(s.gens, s.scanCtxs, w.gen);
      At(s, c, Served(w.gen, w.call, w.reply)).(gens := gens, scanCtxs := table)
    case EndCall(c) => At(s, c, Gone).(life := L.End(s.life))
    case Acquire(g) =>
      Exec(s, g, s.gens[g].(phase := Running, runs := s.gens[g].runs + 1)).(permits := s.permits + 1)
    case AcquireFails(g, e) => Exec(s, g, s.gens[g].(phase := Released, result := Error(e)))
    case Start(g) => Exec(s, g, s.gens[g].(phase := Running, runs := s.gens[g].runs + 1))
    case Return(g, result) =>
      Exec(s, g, s.gens[g].(phase := if s.gens[g].call.limited then Returned else Released, result := result))
    case Release(g) => Exec(s, g, s.gens[g].(phase := Released)).(permits := s.permits - 1)
    case Retire(g) => Exec(s, g, s.gens[g].(phase := Retired)).(scanCtxs := Drop(s.scanCtxs, s.gens[g].call.key, g))
    case CancelOwn(g) => Exec(s, g, s.gens[g].(phase := Cancelled, ctxCancelled := true))
    case Publish(g) => Exec(s, g, s.gens[g].(phase := Published, done := true))
    case EndExecution(g) => Exec(s, g, s.gens[g].(phase := Ended)).(life := L.End(s.life))
    case StartDrain => s.(life := L.Drain(s.life), shutdowns := s.shutdowns + [Draining])
    case Watch(t) => s.(life := L.Idle(s.life), shutdowns := s.shutdowns[t := Grace(|s.life.closes|)])
    case GraceIdle(t) => s.(shutdowns := s.shutdowns[t := Finished(true)])
    case GraceOver(t) => s.(life := L.Cancel(s.life), shutdowns := s.shutdowns[t := Joining(s.shutdowns[t].channel)])
    case JoinIdle(t) => s.(shutdowns := s.shutdowns[t := Finished(true)])
    case JoinTimeout(t) => s.(shutdowns := s.shutdowns[t := Finished(false)])
  }

  // ---------------------------------------------------------------- the invariant

  /** Indicators for the tallies. */
  function Present(g: nat): Caller -> nat {
    (c: Caller) => if (c.place.Waiting? || c.place.Leaving?) && c.place.gen == g then 1 else 0
  }

  function Registered(c: Caller): nat {
    if c.place.Refused? || c.place.Gone? then 0 else 1
  }

  function Unended(g: Gen): nat {
    if g.phase.Ended? then 0 else 1
  }

  function Holding(g: Gen): nat {
    if g.call.limited && (g.phase.Running? || g.phase.Returned?) then 1 else 0
  }

  /** An entry names a generation that is in flight and not cancelled. */
  ghost predicate TableOk(s: State) {
    forall key :: key in s.scanCtxs ==>
      var g := s.scanCtxs[key];
      g < |s.gens| && s.gens[g].call.key == key && s.gens[g].InFlight() && !s.gens[g].ctxCancelled
  }

  ghost predicate GenOk(s: State, i: nat)
    requires i < |s.gens|
  {
    var g := s.gens[i];
    && g.PhaseOk()
    && g.count == Sum(Present(i), s.callers)
    && (g.count == 0 ==> g.ctxCancelled)
    && (g.InFlight() && g.ctxCancelled ==> g.count == 0)
    && (g.InFlight() && !g.ctxCancelled ==> g.call.key in s.scanCtxs && s.scanCtxs[g.call.key] == i)
  }

  ghost predicate CallerOk(s: State, c: nat)
    requires c < |s.callers|
  {
    var p := s.callers[c].place;
    p.Waiting? || p.Leaving? || p.Served? ==>
      && p.gen < |s.gens|
      && p.call.key == s.gens[p.gen].call.key
      && ((p.Leaving? || p.Served?) && p.reply.Shared? ==> s.gens[p.gen].done && p.reply.result == s.gens[p.gen].result)
  }

  ghost predicate CountsOk(s: State) {
    && s.permits == Sum(Holding, s.gens) <= PERMITS
    && s.life.active == Sum(Registered, s.callers) + Sum(Unended, s.gens)
  }

  ghost predicate ShutdownOk(s: State) {
    && s.life.ChannelsOk()
    && (s.shutdowns != [] || s.life.closes != [] ==> s.life.draining)
    && (forall ch :: 0 <= ch < |s.life.closes| && s.life.closes[ch] > 0 ==> s.life.active == 0)
    && (forall t :: 0 <= t < |s.shutdowns| ==>
          && (s.shutdowns[t].Grace? || s.shutdowns[t].Joining? ==> s.shutdowns[t].channel < |s.life.closes|)
          && (s.shutdowns[t].Joining? || s.shutdowns[t] == Finished(false) ==> s.life.cancelled)
          && (s.shutdowns[t] == Finished(true) ==> s.life.active == 0))
    && (s.life.cancelled ==> s.life.draining)
  }

  ghost predicate Inv(s: State) {
    && TableOk(s)
    && (forall i :: 0 <= i < |s.gens| ==> GenOk(s, i))
    && (forall c :: 0 <= c < |s.callers| ==> CallerOk(s, c))
    && CountsOk(s)
    && ShutdownOk(s)
  }

  lemma InitKeepsInv()
    ensures Inv(INIT)
  {
  }

  // ----------------------------------------------------- every step keeps it

  /** Moving one caller moves the tallies by that caller alone. */
  lemma MoveCaller(callers: seq<Caller>, c: nat, x: Caller)
    requires c < |callers|
    ensures forall g: nat ::
      Sum(Present(g), callers[c := x]) + Present(g)(callers[c]) == Sum(Present(g), callers) + Present(g)(x)
    ensures Sum(Registered, callers[c := x]) + Registered(callers[c]) == Sum(Registered, callers) + Registered(x)
  {
    forall g: nat
      ensures Sum(Present(g), callers[c := x]) + Present(g)(callers[c]) == Sum(Present(g), callers) + Present(g)(x)
    {
      SumUpdate(Present(g), callers, c, x);
    }
    SumUpdate(Registered, callers, c, x);
  }

  lemma MoveGen(gens: seq<Gen>, g: nat, x: Gen)
    requires g < |gens|
    ensures Sum(Unended, gens[g := x]) + Unended(gens[g]) == Sum(Unended, gens) + Unended(x)
    ensures Sum(Holding, gens[g := x]) + Holding(gens[g]) == Sum(Holding, gens) + Holding(x)
  {
    SumUpdate(Unended, gens, g, x);
    SumUpdate(Holding, gens, g, x);
  }

  lemma BeginKeepsInv(s: State)
    requires Inv(s)
    ensures Inv(Next(s, BeginCall))
  {
    var x := Caller(if s.life.draining then Refused else Handling, false);
    forall g: nat ensures Sum(Present(g), s.callers + [x]) == Sum(Present(g), s.callers) {
      SumAppend(Present(g), s.callers, x);
    }
    SumAppend(Registered, s.callers, x);
    var s' := Next(s, BeginCall);
    forall c | 0 <= c < |s'.callers| ensures CallerOk(s', c) {
      if c < |s.callers| { assert CallerOk(s, c); }
    }
    forall i | 0 <= i < |s'.gens| ensures GenOk(s', i) {
      assert GenOk(s, i);
    }
  }

  lemma ContextEndsKeepsInv(s: State, c: nat)
    requires Inv(s) && Enabled(s, ContextEnds(c))
    ensures Inv(Next(s, ContextEnds(c)))
  {
    var s' := Next(s, ContextEnds(c));
    MoveCaller(s.callers, c, s'.callers[c]);
    forall i | 0 <= i < |s'.gens| ensures GenOk(s', i) { assert GenOk(s, i); }
    forall k | 0 <= k < |s'.callers| ensures CallerOk(s', k) { assert CallerOk(s, k); }
  }

  lemma SelectKeepsInv(s: State, a: Action)
    requires Inv(s) && (a.SeeContext? || a.SeeDone?) && Enabled(s, a)
    ensures Inv(Next(s, a))
  {
    var s' := Next(s, a);
    MoveCaller(s.callers, a.c, s'.callers[a.c]);
    forall i | 0 <= i < |s'.gens| ensures GenOk(s', i) { assert GenOk(s, i); }
    forall k | 0 <= k < |s'.callers| ensures CallerOk(s', k) { assert CallerOk(s, k); }
  }

  lemma JoinKeepsTable(s: State, c: nat, call: Call)
    requires Inv(s) && Enabled(s, Join(c, call))
    ensures TableOk(Next(s, Join(c, call)))
    ensures forall k :: 0 <= k < |s.callers| ==> CallerOk(Next(s, Join(c, call)), k)
  {
    forall k | 0 <= k < |s.callers| ensures CallerOk(Next(s, Join(c, call)), k) { assert CallerOk(s, k); }
  }

  lemma JoinKeepsGens(s: State, c: nat, call: Call)
    requires Inv(s) && Enabled(s, Join(c, call))
    ensures var s' := Next(s, Join(c, call)); forall i :: 0 <= i < |s'.gens| ==> GenOk(s', i)
  {
    var s' := Next(s, Join(c, call));
    var g := s'.callers[c].place.gen;
    MoveCaller(s.callers, c, s'.callers[c]);
    NobodyAt(s, |s.gens|);
    forall i | 0 <= i < |s'.gens| ensures GenOk(s', i) {
      assert Sum(Present(i), s'.callers) == Sum(Present(i), s.callers) + if i == g then 1 else 0;
      if i < |s.gens| { assert GenOk(s, i); }
    }
  }

  lemma JoinKeepsCounts(s: State, c: nat, call: Call)
    requires Inv(s) && Enabled(s, Join(c, call))
    ensures CountsOk(Next(s, Join(c, call))) && ShutdownOk(Next(s, Join(c, call)))
  {
    var s' := Next(s, Join(c, call));
    MoveCaller(s.callers, c, s'.callers[c]);
    SumAtLeast(Registered, s.callers, c);
    if call.key in s.scanCtxs {
      var g := s.scanCtxs[call.key];
      MoveGen(s.gens, g, s'.gens[g]);
    } else {
      SumAppend(Unended, s.gens, NewGen(call));
      SumAppend(Holding, s.gens, NewGen(call));
    }
  }

  lemma JoinKeepsInv(s: State, c: nat, call: Call)
    requires Inv(s) && Enabled(s, Join(c, call))
    ensures Inv(Next(s, Join(c, call)))
  {
    JoinKeepsTable(s, c, call);
    JoinKeepsGens(s, c, call);
    JoinKeepsCounts(s, c, call);
  }

  /** A generation that does not exist yet has no callers. */
  lemma NobodyAt(s: State, g: nat)
    requires forall c :: 0 <= c < |s.callers| ==> CallerOk(s, c)
    requires g >= |s.gens|
    ensures Sum(Present(g), s.callers) == 0
  {
    forall x | x in s.callers ensures Present(g)(x) == 0 {
      var c :| 0 <= c < |s.callers| && s.callers[c] == x;
      assert CallerOk(s, c);
    }
    SumZero(Present(g), s.callers);
  }

  lemma LeaveKeepsTable(s: State, c: nat)
    requires Inv(s) && Enabled(s, Leave(c))
    ensures TableOk(Next(s, Leave(c)))
  {
    assert GenOk(s, s.callers[c].place.gen);
  }

  lemma LeaveKeepsCallers(s: State, c: nat)
    requires Inv(s) && Enabled(s, Leave(c))
    ensures forall k :: 0 <= k < |s.callers| ==> CallerOk(Next(s, Leave(c)), k)
  {
    forall k | 0 <= k < |s.callers| ensures CallerOk(Next(s, Leave(c)), k) { assert CallerOk(s, k); }
  }

  lemma LeaveKeepsGens(s: State, c: nat)
    requires Inv(s) && Enabled(s, Leave(c))
    ensures var s' := Next(s, Leave(c)); forall i :: 0 <= i < |s'.gens| ==> GenOk(s', i)
  {
    var s' := Next(s, Leave(c));
    var g := s.callers[c].place.gen;
    MoveCaller(s.callers, c, s'.callers[c]);
    forall i | 0 <= i < |s'.gens| ensures GenOk(s', i) {
      assert Sum(Present(i), s'.callers) + (if i == g then 1 else 0) == Sum(Present(i), s.callers);
      assert GenOk(s, i);
    }
  }

  lemma LeaveKeepsCounts(s: State, c: nat)
    requires Inv(s) && Enabled(s, Leave(c))
    ensures CountsOk(Next(s, Leave(c))) && ShutdownOk(Next(s, Leave(c)))
  {
    var s' := Next(s, Leave(c));
    var g := s.callers[c].place.gen;
    MoveCaller(s.callers, c, s'.callers[c]);
    MoveGen(s.gens, g, s'.gens[g]);
  }

  lemma LeaveKeepsInv(s: State, c: nat)
    requires Inv(s) && Enabled(s, Leave(c))
    ensures Inv(Next(s, Leave(c)))
  {
    LeaveKeepsTable(s, c);
    LeaveKeepsCallers(s, c);
    LeaveKeepsGens(s, c);
    LeaveKeepsCounts(s, c);
  }

  lemma EndCallKeepsGens(s: State, c: nat)
    requires Inv(s) && Enabled(s, EndCall(c))
    ensures var s' := Next(s, EndCall(c));
            && TableOk(s')
            && (forall i :: 0 <= i < |s'.gens| ==> GenOk(s', i))
            && (forall k :: 0 <= k < |s'.callers| ==> CallerOk(s', k))
  {
    var s' := Next(s, EndCall(c));
    MoveCaller(s.callers, c, s'.callers[c]);
    forall i | 0 <= i < |s'.gens| ensures GenOk(s', i) { assert GenOk(s, i); }
    forall k | 0 <= k < |s'.callers| ensures CallerOk(s', k) { assert CallerOk(s, k); }
  }

  lemma EndCallKeepsInv(s: State, c: nat)
    requires Inv(s) && Enabled(s, EndCall(c))
    ensures Inv(Next(s, EndCall(c)))
  {
    EndCallKeepsGens(s, c);
    MoveCaller(s.callers, c, Next(s, EndCall(c)).callers[c]);
    SumAtLeast(Registered, s.callers, c);
    L.EndKeepsChannels(s.life);
  }

  predicate IsExecution(a: Action) {
    || a.Acquire? || a.AcquireFails? || a.Start? || a.Return? || a.Release?
    || a.Retire? || a.CancelOwn? || a.Publish? || a.EndExecution?
  }

  lemma ExecutionKeepsTable(s: State, a: Action)
    requires Inv(s) && IsExecution(a) && Enabled(s, a)
    ensures TableOk(Next(s, a))
  {
    if a.Retire? { RetireKeepsTable(s, a.g); } else { KeepsTable(s, a); }
  }

  /** The retiring generation was the only one its entry could name. */
  lemma RetireKeepsTable(s: State, g: nat)
    requires Inv(s) && Enabled(s, Retire(g))
    ensures TableOk(Next(s, Retire(g)))
  {
    assert GenOk(s, g);
  }

  /** The other actions leave the table, and a live generation that is listed
      live. */
  lemma KeepsTable(s: State, a: Action)
    requires Inv(s) && IsExecution(a) && !a.Retire? && Enabled(s, a)
    ensures TableOk(Next(s, a))
  {
    var s' := Next(s, a);
    assert GenOk(s, a.g);
    assert s'.gens == s.gens[a.g := s'.gens[a.g]] && s'.gens[a.g].call == s.gens[a.g].call;
    assert s.gens[a.g].InFlight() ==> s'.gens[a.g].InFlight() && s'.gens[a.g].ctxCancelled == s.gens[a.g].ctxCancelled;
  }

  lemma ExecutionKeepsCallers(s: State, a: Action)
    requires Inv(s) && IsExecution(a) && Enabled(s, a)
    ensures var s' := Next(s, a); forall k :: 0 <= k < |s'.callers| ==> CallerOk(s', k)
  {
    var s' := Next(s, a);
    assert GenOk(s, a.g);
    forall k | 0 <= k < |s'.callers| ensures CallerOk(s', k) { assert CallerOk(s, k); }
  }

  lemma ExecutionKeepsOthers(s: State, a: Action, i: nat)
    requires Inv(s) && IsExecution(a) && Enabled(s, a) && i < |s.gens| && i != a.g
    ensures GenOk(Next(s, a), i)
  {
    var s' := Next(s, a);
    assert GenOk(s, i);
    assert s'.gens[i] == s.gens[i] && s'.callers == s.callers;
  }

  lemma ExecutionKeepsOwn(s: State, a: Action)
    requires Inv(s) && IsExecution(a) && Enabled(s, a)
    ensures GenOk(Next(s, a), a.g)
  {
    assert GenOk(s, a.g);
  }

  lemma ExecutionKeepsGens(s: State, a: Action)
    requires Inv(s) && IsExecution(a) && Enabled(s, a)
    ensures var s' := Next(s, a); forall i :: 0 <= i < |s'.gens| ==> GenOk(s', i)
  {
    forall i | 0 <= i < |s.gens| ensures GenOk(Next(s, a), i) {
      if i == a.g { ExecutionKeepsOwn(s, a); } else { ExecutionKeepsOthers(s, a, i); }
    }
  }

  lemma ExecutionKeepsCounts(s: State, a: Action)
    requires Inv(s) && IsExecution(a) && !a.EndExecution? && Enabled(s, a)
    ensures CountsOk(Next(s, a))
  {
    var s' := Next(s, a);
    assert GenOk(s, a.g);
    assert s'.gens == s.gens[a.g := s'.gens[a.g]] && s'.callers == s.callers;
    MoveGen(s.gens, a.g, s'.gens[a.g]);
  }

  lemma EndExecutionKeepsCounts(s: State, a: Action)
    requires Inv(s) && a.EndExecution? && Enabled(s, a)
    ensures CountsOk(Next(s, a))
  {
    var s' := Next(s, a);
    assert GenOk(s, a.g);
    MoveGen(s.gens, a.g, s'.gens[a.g]);
    SumAtLeast(Unended, s.gens, a.g);
    L.EndKeepsChannels(s.life);
  }

  lemma ExecutionKeepsShutdown(s: State, a: Action)
    requires Inv(s) && IsExecution(a) && Enabled(s, a)
    ensures ShutdownOk(Next(s, a))
  {
    assert GenOk(s, a.g);
    SumAtLeast(Unended, s.gens, a.g);
    if a.EndExecution? {
      L.EndKeepsChannels(s.life);
    }
  }

  lemma ExecutionKeepsInv(s: State, a: Action)
    requires Inv(s) && IsExecution(a) && Enabled(s, a)
    ensures Inv(Next(s, a))
    ensures a.Return? ==> Next(s, a).gens[a.g].result == a.result
  {
    ExecutionKeepsTable(s, a);
    ExecutionKeepsCallers(s, a);
    ExecutionKeepsGens(s, a);
    if a.EndExecution? { EndExecutionKeepsCounts(s, a); } else { ExecutionKeepsCounts(s, a); }
    ExecutionKeepsShutdown(s, a);
  }

  predicate IsShutdown(a: Action) {
    a.StartDrain? || a.Watch? || a.GraceIdle? || a.GraceOver? || a.JoinIdle? || a.JoinTimeout?
  }

  lemma ShutdownKeepsGens(s: State, a: Action)
    requires Inv(s) && IsShutdown(a) && Enabled(s, a)
    ensures var s' := Next(s, a);
            && TableOk(s') && CountsOk(s')
            && (forall i :: 0 <= i < |s'.gens| ==> GenOk(s', i))
            && (forall k :: 0 <= k < |s'.callers| ==> CallerOk(s', k))
  {
    var s' := Next(s, a);
    forall i | 0 <= i < |s'.gens| ensures GenOk(s', i) { assert GenOk(s, i); }
    forall k | 0 <= k < |s'.callers| ensures CallerOk(s', k) { assert CallerOk(s, k); }
  }

  lemma WatchKeepsShutdown(s: State, t: nat)
    requires Inv(s) && Enabled(s, Watch(t))
    ensures ShutdownOk(Next(s, Watch(t)))
  {
    L.IdleKeepsChannels(s.life);
  }

  lemma DrainKeepsShutdown(s: State)
    requires Inv(s)
    ensures ShutdownOk(Next(s, StartDrain))
  {
  }

  lemma SelectsKeepShutdown(s: State, a: Action)
    requires Inv(s) && IsShutdown(a) && !a.Watch? && !a.StartDrain? && Enabled(s, a)
    ensures ShutdownOk(Next(s, a))
  {
    var s' := Next(s, a);
    assert s'.shutdowns == s.shutdowns[a.t := s'.shutdowns[a.t]];
  }

  lemma ShutdownKeepsInv(s: State, a: Action)
    requires Inv(s) && IsShutdown(a) && Enabled(s, a)
    ensures Inv(Next(s, a))
  {
    ShutdownKeepsGens(s, a);
    if a.Watch? { WatchKeepsShutdown(s, a.t); }
    else if a.StartDrain? { DrainKeepsShutdown(s); }
    else { SelectsKeepShutdown(s, a); }
  }

  /** Every step of every participant keeps the invariant. */
  lemma StepKeepsInv(s: State, a: Action)
    requires Inv(s) && Enabled(s, a)
    ensures Inv(Next(s, a))
  {
    if a.BeginCall? { BeginKeepsInv(s); }
    else if a.ContextEnds? { ContextEndsKeepsInv(s, a.c); }
    else if a.Join? { JoinKeepsInv(s, a.c, a.call); }
    else if a.SeeContext? || a.SeeDone? { SelectKeepsInv(s, a); }
    else if a.Leave? { LeaveKeepsInv(s, a.c); }
    else if a.EndCall? { EndCallKeepsInv(s, a.c); }
    else if IsExecution(a) { ExecutionKeepsInv(s, a); }
    else { ShutdownKeepsInv(s, a); }
  }
}
