/** The objects behind the protocol: workLifecycle and the server's scan table,
    updated in place. Each method is one critical section, and is proved to do
    to the object's view what the transition system says the step does. */
module McpServer {
  import opened Keys
  import L = Lifecycle
  import P = Coalescing

  /** A chan struct{} that is only ever closed. Closing it twice panics in Go,
      so a second close is refused by the precondition. */
  class Channel {
    ghost const id: nat
    var closes: nat

    constructor (ghost id: nat)
      ensures this.id == id && closes == 0
    {
      this.id := id;
      closes := 0;
    }

    method Close()
      requires closes == 0
      modifies this
      ensures closes == 1
    {
      closes := closes + 1;
    }
  }

  ghost function Ids(chs: seq<Channel>): (r: seq<nat>)
    ensures |r| == |chs| && forall i :: 0 <= i < |chs| ==> r[i] == chs[i].id
  {
    seq(|chs|, i requires 0 <= i < |chs| => chs[i].id)
  }

  ghost function Counts(chs: seq<Channel>): (r: seq<nat>)
    reads chs
    ensures |r| == |chs| && forall i :: 0 <= i < |chs| ==> r[i] == chs[i].closes
  {
    seq(|chs|, i requires 0 <= i < |chs| reads chs => chs[i].closes)
  }

  lemma IdsGrow(chs: seq<Channel>, ch: Channel)
    ensures Ids(chs + [ch]) == Ids(chs) + [ch.id]
  {
  }

  /** Closing every waiting channel once is what CloseAll says. */
  lemma ClosedOnce(before: L.Life, channels: seq<Channel>, waiters: seq<Channel>, now: seq<nat>)
    requires before.ChannelsOk() && before.waiters == Ids(waiters)
    requires |before.closes| == |channels| == |now|
    requires forall i :: 0 <= i < |channels| ==> channels[i].id == i
    requires forall i :: 0 <= i < |waiters| ==> waiters[i].id < |channels| && channels[waiters[i].id] == waiters[i]
    requires forall ch :: 0 <= ch < |channels| ==> now[ch] == if channels[ch] in waiters then 1 else before.closes[ch]
    ensures now == L.CloseAll(before.closes, before.waiters)
  {
    forall ch | 0 <= ch < |now| ensures now[ch] == L.CloseAll(before.closes, before.waiters)[ch] {
      L.OnceEach(before.waiters, ch);
      if channels[ch] in waiters {
        var i :| 0 <= i < |waiters| && waiters[i] == channels[ch];
        assert before.waiters[i] == ch;
      }
    }
  }

  /** Waiting channels are different channels, and open. */
  lemma WaitersAreOpen(life: L.Life, channels: seq<Channel>, waiters: seq<Channel>)
    requires life.ChannelsOk() && life.waiters == Ids(waiters) && life.closes == Counts(channels)
    requires forall i :: 0 <= i < |waiters| ==> waiters[i].id < |channels| && channels[waiters[i].id] == waiters[i]
    ensures forall i, j :: 0 <= i < j < |waiters| ==> waiters[i] != waiters[j]
    ensures forall i :: 0 <= i < |waiters| ==> waiters[i].closes == 0
  {
    forall i, j | 0 <= i < j < |waiters| ensures waiters[i] != waiters[j] {
      assert life.waiters[i] != life.waiters[j];
    }
    forall i | 0 <= i < |waiters| ensures waiters[i].closes == 0 {
      assert life.waiters[i] == waiters[i].id;
    }
  }

  /** The closing loop of end: every channel is open when its turn comes, so no
      close panics. */
  method CloseEach(chs: seq<Channel>)
    requires forall i, j :: 0 <= i < j < |chs| ==> chs[i] != chs[j]
    requires forall i :: 0 <= i < |chs| ==> chs[i].closes == 0
    modifies chs
    ensures forall i :: 0 <= i < |chs| ==> chs[i].closes == 1
  {
    for k := 0 to |chs|
      invariant forall i :: 0 <= i < |chs| ==> chs[i].closes == if i < k then 1 else 0
    {
      chs[k].Close();
    }
  }

  /** The same, seen from the list of all channels. */
  method CloseAll(ghost before: L.Life, ghost channels: seq<Channel>, waiters: seq<Channel>)
    requires before.ChannelsOk() && before.waiters == Ids(waiters) && before.closes == Counts(channels)
    requires forall i :: 0 <= i < |channels| ==> channels[i].id == i
    requires forall i :: 0 <= i < |waiters| ==> waiters[i].id < |channels| && channels[waiters[i].id] == waiters[i]
    modifies waiters
    ensures Counts(channels) == L.CloseAll(before.closes, before.waiters)
  {
    WaitersAreOpen(before, channels, waiters);
    CloseEach(waiters);
    ghost var now := Counts(channels);
    forall c | 0 <= c < |channels| ensures now[c] == if channels[c] in waiters then 1 else before.closes[c] {
      if channels[c] !in waiters {
        assert channels[c].closes == old(channels[c].closes);
      }
    }
    ClosedOnce(before, channels, waiters, now);
  }

  class WorkLifecycle {
    var draining: bool
    var cancelled: bool
    var active: int
    var waiters: seq<Channel>
    ghost var channels: seq<Channel>  // every channel idle has handed out

    ghost predicate Valid()
      reads this, channels, waiters
    {
      Linked() && View().ChannelsOk() && active >= 0
    }

    /** Channels are numbered in the order handed out; waiters are among them. */
    ghost predicate Linked()
      reads this
    {
      && (forall i :: 0 <= i < |channels| ==> channels[i].id == i)
      && (forall i :: 0 <= i < |waiters| ==> waiters[i].id < |channels| && channels[waiters[i].id] == waiters[i])
    }

    ghost function View(): L.Life
      reads this, channels, waiters
    {
      L.Life(draining, cancelled, active, Ids(waiters), Counts(channels))
    }

    constructor ()
      ensures Valid() && View() == L.FRESH && channels == []
    {
      draining, cancelled, active, waiters, channels := false, false, 0, [], [];
    }

    method Begin() returns (admitted: bool)
      requires Valid()
      modifies this
      ensures Valid() && channels == old(channels)
      ensures View() == L.Begin(old(View()))
      ensures admitted == !old(draining)
    {
      if draining {
        return false;
      }
      active := active + 1;
      return true;
    }

    method BeginShared()
      requires Valid()
      modifies this
      ensures Valid() && channels == old(channels)
      ensures View() == L.BeginShared(old(View()))
    {
      active := active + 1;
    }

    /** The closing of the waiting channels, for a lifecycle that stood at
        `before` when its last piece of work ended. */
    method CloseWaiters(ghost before: L.Life)
      requires Linked() && before.ChannelsOk() && View() == before.(active := 0)
      modifies `waiters, waiters
      ensures Linked()
      ensures View() == before.(active := 0, closes := L.CloseAll(before.closes, before.waiters), waiters := [])
    {
      CloseAll(before, channels, waiters);
      waiters := [];
      assert Ids(waiters) == [];
    }

    /** end: the last piece of work closes every waiting channel. */
    method End()
      requires Valid() && active > 0
      modifies this, waiters
      ensures Valid() && channels == old(channels)
      ensures View() == L.End(old(View()))
    {
      ghost var before := View();
      active := active - 1;
      if active == 0 {
        CloseWaiters(before);
      }
      L.EndKeepsChannels(before);
    }

    /** make(chan struct{}), kept in the list of all channels. */
    method MakeChannel() returns (ch: Channel)
      modifies `channels
      ensures fresh(ch) && ch.id == |old(channels)| && ch.closes == 0
      ensures channels == old(channels) + [ch] && Counts(channels) == old(Counts(channels)) + [0]
    {
      ch := new Channel(|channels|);
      channels := channels + [ch];
    }

    method Idle() returns (ch: Channel)
      requires Valid()
      modifies this
      ensures Valid() && fresh(ch) && channels == old(channels) + [ch]
      ensures View() == L.Idle(old(View()))
      ensures ch.id == |old(channels)|
    {
      ghost var before := View();
      L.IdleKeepsChannels(before);
      ch := MakeChannel();
      if active == 0 {
        ch.Close();
        assert Counts(channels) == before.closes + [1];
      } else {
        IdsGrow(waiters, ch);
        waiters := waiters + [ch];
      }
      assert View() == L.Idle(before);
    }

    method StartDrain()
      requires Valid()
      modifies this
      ensures Valid() && channels == old(channels)
      ensures View() == L.Drain(old(View()))
    {
      draining := true;
    }

    method CancelContext()
      requires Valid()
      modifies this
      ensures Valid() && channels == old(channels)
      ensures View() == L.Cancel(old(View()))
    {
      cancelled := true;
    }
  }

  /** scanCtxState. The phase and the run count belong to the goroutine that
      owns the execution and are ghost here. */
  class ScanCtxState {
    ghost const id: nat
    const call: P.Call
    var count: int
    var cancelled: bool
    var result: P.Outcome
    var done: bool
    ghost var phase: P.Phase
    ghost var runs: nat

    constructor (ghost id: nat, call: P.Call)
      ensures this.id == id && View() == P.NewGen(call).(count := 0)
    {
      this.id, this.call := id, call;
      count, cancelled, result, done, phase, runs := 0, false, P.Unset, false, P.Queued, 0;
    }

    ghost function View(): P.Gen
      reads this
    {
      P.Gen(call, count, cancelled, result, done, phase, runs)
    }
  }

  ghost function Views(states: seq<ScanCtxState>): (r: seq<P.Gen>)
    reads states
    ensures |r| == |states| && forall i :: 0 <= i < |states| ==> r[i] == states[i].View()
  {
    seq(|states|, i requires 0 <= i < |states| reads states => states[i].View())
  }

  /** Changing one generation changes one view. */
  lemma OneChanged(states: seq<ScanCtxState>, g: nat, before: seq<P.Gen>)
    requires g < |states| == |before|
    requires forall i :: 0 <= i < |states| && i != g ==> states[i].View() == before[i]
    ensures Views(states) == before[g := states[g].View()]
  {
  }

  lemma ViewsGrow(states: seq<ScanCtxState>, state: ScanCtxState)
    ensures Views(states + [state]) == Views(states) + [state.View()]
  {
  }

  ghost function TableIds(table: map<Text, ScanCtxState>): map<Text, nat> {
    map key | key in table :: table[key].id
  }

  lemma OneEntryAdded(table: map<Text, ScanCtxState>, key: Text, state: ScanCtxState)
    ensures TableIds(table[key := state]) == TableIds(table)[key := state.id]
  {
  }

  class KubescapeMcpserver {
    var scanCtxs: map<Text, ScanCtxState>
    const work: WorkLifecycle
    ghost var gens: seq<ScanCtxState>  // every generation ever created

    ghost predicate Valid()
      reads this, gens, work, work.channels, work.waiters
    {
      && work.Valid()
      && (forall i :: 0 <= i < |gens| ==> gens[i].id == i)
      && (forall key :: key in scanCtxs ==> Owns(scanCtxs[key]))
    }

    ghost predicate Owns(state: ScanCtxState)
      reads this
    {
      state.id < |gens| && gens[state.id] == state
    }

    constructor ()
      ensures Valid() && Views(gens) == P.INIT.gens && TableIds(scanCtxs) == P.INIT.scanCtxs
      ensures fresh(work) && work.View() == P.INIT.life
    {
      scanCtxs, gens := map[], [];
      work := new WorkLifecycle();
    }

    /** The registering section of doSharedChan: join the generation under the
        key, or create one and register its execution. */
    method Join(call: P.Call) returns (state: ScanCtxState)
      requires Valid()
      modifies this, gens, work
      ensures Valid() && work.channels == old(work.channels) && Owns(state)
      ensures Views(gens) == P.JoinTable(old(Views(gens)), old(TableIds(scanCtxs)), call).0
      ensures TableIds(scanCtxs) == P.JoinTable(old(Views(gens)), old(TableIds(scanCtxs)), call).1
      ensures state.id == P.JoinTable(old(Views(gens)), old(TableIds(scanCtxs)), call).2
      ensures work.View() == if call.key in old(scanCtxs) then old(work.View()) else L.BeginShared(old(work.View()))
    {
      ghost var views, ids := Views(gens), TableIds(scanCtxs);
      if call.key in scanCtxs {
        state := scanCtxs[call.key];
        state.count := state.count + 1;
        OneChanged(gens, state.id, views);
      } else {
        work.BeginShared();
        state := Create(call);
      }
    }

    /** The entry made while scanCtxMu is held, its creator already counted. */
    method Create(call: P.Call) returns (state: ScanCtxState)
      requires Valid() && call.key !in scanCtxs
      modifies this
      ensures Valid() && Owns(state) && state.id == |old(gens)|
      ensures Views(gens) == old(Views(gens)) + [P.NewGen(call)]
      ensures TableIds(scanCtxs) == old(TableIds(scanCtxs))[call.key := state.id]
    {
      ghost var views, table := Views(gens), scanCtxs;
      state := new ScanCtxState(|gens|, call);
      gens := gens + [state];
      scanCtxs := scanCtxs[call.key := state];
      state.count := state.count + 1;
      OneEntryAdded(table, call.key, state);
      ViewsGrow(old(gens), state);
      assert Views(old(gens)) == views;
    }

    /** The deferred section of doSharedChan: the last caller cancels the context
        and drops the entry if it is still this generation's. */
    method Leave(state: ScanCtxState)
      requires Valid() && Owns(state)
      modifies this`scanCtxs, state
      ensures Valid()
      ensures Views(gens) == P.LeaveTable(old(Views(gens)), old(TableIds(scanCtxs)), state.id).0
      ensures TableIds(scanCtxs) == P.LeaveTable(old(Views(gens)), old(TableIds(scanCtxs)), state.id).1
    {
      ghost var views := Views(gens);
      state.count := state.count - 1;
      if state.count <= 0 {
        state.cancelled := true;
        DropEntry(state);
      }
      OneChanged(gens, state.id, views);
    }

    /** Deleting the entry under the generation's key only while it is this
        generation: a successor keeps its own. */
    method DropEntry(state: ScanCtxState)
      requires Valid() && Owns(state)
      modifies this`scanCtxs
      ensures Valid()
      ensures TableIds(scanCtxs) == P.Drop(old(TableIds(scanCtxs)), state.call.key, state.id)
    {
      if state.call.key in scanCtxs && scanCtxs[state.call.key] == state {
        scanCtxs := scanCtxs - {state.call.key};
      }
    }

    /** The retiring section of runShared. */
    method Retire(state: ScanCtxState)
      requires Valid() && Owns(state) && state.phase == P.Released
      modifies this`scanCtxs, state`phase
      ensures Valid()
      ensures Views(gens) == old(Views(gens))[state.id := old(state.View()).(phase := P.Retired)]
      ensures TableIds(scanCtxs) == P.Drop(old(TableIds(scanCtxs)), state.call.key, state.id)
    {
      ghost var views := Views(gens);
      DropEntry(state);
      state.phase := P.Retired;
      OneChanged(gens, state.id, views);
    }

    /** close(state.done), after the context's own cancel: the channel is still
        open, so the close does not panic. */
    method Publish(state: ScanCtxState)
      requires Valid() && Owns(state) && state.phase == P.Retired && state.View().PhaseOk()
      modifies state
      ensures Valid() && !old(state.done)
      ensures state.View() == old(state.View()).(phase := P.Published, ctxCancelled := true, done := true)
    {
      state.cancelled := true;
      state.done := true;
      state.phase := P.Published;
    }
  }
}
