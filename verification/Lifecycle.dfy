/** The work lifecycle as a value: what each of its critical sections does to
    the flags, the count of registered work and the idle channels. */
module Lifecycle {
  import opened Sequences

  /** `closes[ch]` counts how often idle channel `ch` has been closed; Go panics
      on a second close. `waiters` are the channels still to be closed. */
  datatype Life = Life(draining: bool, cancelled: bool, active: int, waiters: seq<nat>, closes: seq<nat>)
  {
    /** Channels on the waiting list are open and listed once, and every other
        channel has been closed exactly once. A channel waits only for work. */
    ghost predicate ChannelsOk() {
      && (forall i :: 0 <= i < |waiters| ==> waiters[i] < |closes| && closes[waiters[i]] == 0)
      && (forall i, j :: 0 <= i < j < |waiters| ==> waiters[i] != waiters[j])
      && (forall ch :: 0 <= ch < |closes| && ch !in waiters ==> closes[ch] == 1)
      && (waiters != [] ==> active > 0)
    }
  }

  const FRESH := Life(false, false, 0, [], [])

  function Begin(l: Life): Life {
    if l.draining then l else l.(active := l.active + 1)
  }

  function BeginShared(l: Life): Life {
    l.(active := l.active + 1)
  }

  /** Every channel of `ws` closed once more. */
  function CloseAll(closes: seq<nat>, ws: seq<nat>): seq<nat> {
    seq(|closes|, ch requires 0 <= ch < |closes| => closes[ch] + Count<nat>(ws, ch))
  }

  function End(l: Life): Life {
    if l.active - 1 == 0
    then l.(active := 0, closes := CloseAll(l.closes, l.waiters), waiters := [])
    else l.(active := l.active - 1)
  }

  /** idle: the new channel is the last one; it is closed at once without work. */
  function Idle(l: Life): Life {
    if l.active == 0
    then l.(closes := l.closes + [1])
    else l.(closes := l.closes + [0], waiters := l.waiters + [|l.closes|])
  }

  function Drain(l: Life): Life {
    l.(draining := true)
  }

  function Cancel(l: Life): Life {
    l.(cancelled := true)
  }

  lemma {:induction false} OnceEach(ws: seq<nat>, ch: nat)
    requires forall i, j :: 0 <= i < j < |ws| ==> ws[i] != ws[j]
    ensures Count<nat>(ws, ch) == if ch in ws then 1 else 0
  {
    if ws != [] {
      OnceEach(ws[1..], ch);
      assert ws == [ws[0]] + ws[1..];
    }
  }

  /** Ending work keeps the channels in order, and ending the last piece closes
      every waiting channel for the first and only time. */
  lemma EndKeepsChannels(l: Life)
    requires l.ChannelsOk() && l.active > 0
    ensures End(l).ChannelsOk() && End(l).active == l.active - 1
    ensures |End(l).closes| == |l.closes|
    ensures End(l).active == 0 ==> forall ch :: 0 <= ch < |l.closes| ==> End(l).closes[ch] == 1
    ensures End(l).active > 0 ==> End(l).closes == l.closes
  {
    forall ch | 0 <= ch < |l.closes| ensures l.closes[ch] + Count<nat>(l.waiters, ch) == 1 {
      OnceEach(l.waiters, ch);
    }
  }

  lemma IdleKeepsChannels(l: Life)
    requires l.ChannelsOk() && l.active >= 0
    ensures Idle(l).ChannelsOk()
  {
    var l' := Idle(l);
    assert l.active != 0 ==> |l.closes| in l'.waiters;
    forall ch | 0 <= ch < |l'.closes| && ch !in l'.waiters ensures l'.closes[ch] == 1 {
      assert ch !in l.waiters;
    }
  }
}
