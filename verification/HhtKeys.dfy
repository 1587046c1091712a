/** The key transmitter of the handheld terminal: short presses are repeated, long ones held until released. */
module HhtKeys {
  import opened Bytes

  const NONE: byte := 0
  const SHORT_SENDS := 4

  datatype Mode = Idle | Burst(key: byte, left: nat) | Held(key: byte)

  /** releaseDue: a release was asked for, or is owed after a burst. */
  datatype State = State(mode: Mode, releaseDue: bool) {
    predicate Valid() {
      && (mode.Burst? ==> 1 <= mode.left <= SHORT_SENDS && mode.key != NONE)
      && (mode.Held? ==> mode.key != NONE)
    }
  }

  /** A press of no key is the app's release. */
  datatype Event = Press(key: byte) | LongPress(key: byte) | Cancel | Poll

  datatype Result = Result(state: State, sent: seq<byte>)

  function Step(s: State, e: Event): (r: Result)
    requires s.Valid()
    ensures r.state.Valid()
  {
    match e
    case Press(key) =>
      if key == NONE then Result(s.(releaseDue := true), [])
      else Result(State(Burst(key, SHORT_SENDS), false), [])
    case LongPress(key) =>
      if key == NONE then Result(s, []) else Result(State(Held(key), false), [])
    case Cancel =>
      if s.mode.Burst? then Result(State(Idle, false), [NONE]) else Result(s, [])
    case Poll =>
      match s.mode
      case Burst(key, left) =>
        Result(if left == 1 then State(Idle, true) else s.(mode := Burst(key, left - 1)), [key])
      case Held(key) => if s.releaseDue then Result(State(Idle, false), [NONE]) else Result(s, [key])
      case Idle => Result(State(Idle, false), [NONE])
  }

  function Run(s: State, es: seq<Event>): (r: Result)
    requires s.Valid()
    ensures r.state.Valid()
    decreases |es|
  {
    if es == [] then Result(s, []) else
      var first := Step(s, es[0]);
      var rest := Run(first.state, es[1..]);
      Result(rest.state, first.sent + rest.sent)
  }

  lemma {:induction false} RunAppend(s: State, a: seq<Event>, b: seq<Event>)
    requires s.Valid()
    ensures Run(s, a + b) ==
            var x := Run(s, a);
            var y := Run(x.state, b);
            Result(y.state, x.sent + y.sent)
    decreases |a|
  {
    if a == [] {
      assert a + b == b;
    } else {
      assert (a + b)[1..] == a[1..] + b;
      RunAppend(Step(s, a[0]).state, a[1..], b);
    }
  }

  class Keys {
    var holdTicks: int
    var holdKey: byte
    var holdActive: bool
    var holdLong: bool
    var releasePending: bool
    var sent: seq<byte>  // keys handed to the UART, in order

    ghost predicate Valid()
      reads this
    {
      && (holdActive && !holdLong ==> 1 <= holdTicks <= SHORT_SENDS)
      && (holdActive ==> holdKey != NONE)
      && (!holdActive ==> holdKey == NONE && holdTicks == 0 && !holdLong)
    }

    ghost function View(): (s: State)
      requires Valid()
      reads this
      ensures s.Valid()
    {
      State(if !holdActive then Idle else if holdLong then Held(holdKey) else Burst(holdKey, holdTicks), releasePending)
    }

    constructor ()
      ensures Valid() && View() == State(Idle, false) && sent == []
    {
      holdTicks, holdKey, holdActive, holdLong, releasePending := 0, NONE, false, false, false;
      sent := [];
    }

    method SendInternal(key: byte)
      modifies this`sent
      ensures sent == old(sent) + [key]
    {
      sent := sent + [key];
    }

    /** Cancel the rest of a short press when the display changes. */
    method CancelShort()
      requires Valid()
      modifies this
      ensures Valid() && Result(View(), sent) == var r := Step(old(View()), Cancel); r.(sent := old(sent) + r.sent)
    {
      if !holdActive || holdLong { return; }
      holdActive := false;
      holdLong := false;
      holdTicks := 0;
      holdKey := NONE;
      releasePending := false;
      SendInternal(NONE);
    }

    method PollOnce()
      requires Valid()
      modifies this
      ensures Valid() && Result(View(), sent) == var r := Step(old(View()), Poll); r.(sent := old(sent) + r.sent)
    {
      if releasePending {
        if holdActive && !holdLong && holdTicks > 0 {
          // the release waits for the end of the burst
        } else {
          releasePending := false;
          holdActive := false;
          holdLong := false;
          holdTicks := 0;
          holdKey := NONE;
          SendInternal(NONE);
          return;
        }
      }
      if !holdActive {
        SendInternal(NONE);
        return;
      }
      SendInternal(holdKey);
      if !holdLong {
        holdTicks := holdTicks - 1;
        if holdTicks <= 0 {
          holdActive := false;
          holdKey := NONE;
          releasePending := true;
        }
      }
    }

    method Send(key: byte)
      requires Valid()
      modifies this
      ensures Valid() && Result(View(), sent) == var r := Step(old(View()), Press(key)); r.(sent := old(sent) + r.sent)
    {
      if key == NONE {
        releasePending := true;
        return;
      }
      releasePending := false;
      holdKey := key;
      holdTicks := SHORT_SENDS;
      holdActive := true;
      holdLong := false;
    }

    method SendLong(key: byte)
      requires Valid()
      modifies this
      ensures Valid() && Result(View(), sent)
              == var r := Step(old(View()), LongPress(key)); r.(sent := old(sent) + r.sent)
    {
      if key == NONE { return; }
      holdKey := key;
      holdTicks := 0;
      holdActive := true;
      holdLong := true;
      releasePending := false;
    }
  }

  // What every run transmits.

  function Polls(es: seq<Event>): nat {
    if es == [] then 0 else (if es[0].Poll? then 1 else 0) + Polls(es[1..])
  }

  /** Polls and releases, and long presses of no key, which do nothing. */
  predicate OnlyReleases(es: seq<Event>) {
    forall i :: 0 <= i < |es| ==> es[i].Poll? || es[i] == Press(NONE) || es[i] == LongPress(NONE)
  }

  /** Polls and display changes. */
  predicate OnlyCancels(es: seq<Event>) {
    forall i :: 0 <= i < |es| ==> es[i].Poll? || es[i].Cancel? || es[i] == LongPress(NONE)
  }

  /** Nothing but new presses is excluded. */
  predicate NoPress(es: seq<Event>) {
    forall i :: 0 <= i < |es| ==> es[i].Poll? || es[i].Cancel? || es[i] == Press(NONE) || es[i] == LongPress(NONE)
  }

  /** n sends of a short press with some repeats left: the key, then releases. */
  function ShortSends(key: byte, left: nat, n: nat): (r: seq<byte>)
    ensures |r| == n
  {
    seq<byte>(n, i requires 0 <= i < n => if i < left then key else 0)
  }

  /** A burst with some repeats left, or none. */
  function Bursting(key: byte, left: nat, due: bool): State {
    State(if left == 0 then Idle else Burst(key, left), due)
  }

  function AfterOne(left: nat, e: Event): nat { if e.Poll? && left > 0 then left - 1 else left }

  lemma BurstStep(key: byte, left: nat, due: bool, e: Event)
    requires key != NONE && left <= SHORT_SENDS && (e.Poll? || e == Press(NONE) || e == LongPress(NONE))
    ensures Bursting(key, left, due).Valid()
    ensures var r := Step(Bursting(key, left, due), e);
            && r.state == Bursting(key, AfterOne(left, e), r.state.releaseDue)
            && r.sent == if e.Poll? then [if left > 0 then key else NONE] else []
  {
  }

  lemma {:induction false} BurstRun(key: byte, left: nat, due: bool, es: seq<Event>)
    requires key != NONE && left <= SHORT_SENDS && OnlyReleases(es)
    ensures Run(Bursting(key, left, due), es).sent == ShortSends(key, left, Polls(es))
    ensures Run(Bursting(key, left, due), es).state.mode
            == if Polls(es) < left then Burst(key, left - Polls(es)) else Idle
    decreases |es|
  {
    if es != [] {
      hide Step;
      BurstStep(key, left, due, es[0]);
      BurstRun(key, AfterOne(left, es[0]), Step(Bursting(key, left, due), es[0]).state.releaseDue, es[1..]);
    }
  }

  /**
   * A short press, in whatever state it comes and whenever the app releases: its key on exactly the next
   * four polls, a release on the fifth, and releases from then on.
   */
  lemma ShortPressSends(s: State, key: byte, es: seq<Event>)
    requires s.Valid() && key != NONE && OnlyReleases(es)
    ensures Run(s, [Press(key)] + es).sent == ShortSends(key, 4, Polls(es))
    ensures Run(s, [Press(key)] + es).state.mode
            == if Polls(es) < 4 then Burst(key, 4 - Polls(es)) else Idle
  {
    hide ShortSends;
    var all := [Press(key)] + es;
    assert all[1..] == es;
    BurstRun(key, SHORT_SENDS, false, es);
  }

  /** With no key down every poll sends a release. */
  lemma {:induction false} IdleRun(s: State, es: seq<Event>)
    requires s.Valid() && s.mode == Idle && NoPress(es)
    ensures Run(s, es).sent == Fill(Polls(es), NONE)
    decreases |es|
  {
    if es != [] {
      IdleRun(Step(s, es[0]).state, es[1..]);
    }
  }

  /** A display change outside a long press: a running burst ends with a release, else nothing is sent. */
  lemma CancelThenIdle(s: State, later: seq<Event>)
    requires s.Valid() && !s.mode.Held? && NoPress(later)
    ensures Run(s, [Cancel] + later).sent == (if s.mode.Burst? then [NONE] else []) + Fill(Polls(later), NONE)
  {
    assert ([Cancel] + later)[1..] == later;
    IdleRun(Step(s, Cancel).state, later);
  }

  /** A short press cancelled by a display change: at most four keys, and the release at once. */
  lemma CancelledPressSends(s: State, key: byte, es: seq<Event>, later: seq<Event>)
    requires s.Valid() && key != NONE && OnlyReleases(es) && NoPress(later)
    ensures Run(s, [Press(key)] + es + [Cancel] + later).sent ==
            ShortSends(key, 4, Polls(es)) + (if Polls(es) < 4 then [0] else []) + Fill(Polls(later), 0)
  {
    hide Run, Step, ShortSends;
    ShortPressSends(s, key, es);
    CancelThenIdle(Run(s, [Press(key)] + es).state, later);
    assert [Press(key)] + es + [Cancel] + later == ([Press(key)] + es) + ([Cancel] + later);
    RunAppend(s, [Press(key)] + es, [Cancel] + later);
  }

  lemma {:induction false} HeldRun(key: byte, es: seq<Event>)
    requires key != NONE && OnlyCancels(es)
    ensures Run(State(Held(key), false), es) == Result(State(Held(key), false), Fill(Polls(es), key))
    decreases |es|
  {
    if es != [] {
      HeldRun(key, es[1..]);
    }
  }

  /** A released long press: releases only, whether or not a display change intervenes. */
  lemma {:induction false} ReleasedRun(key: byte, es: seq<Event>)
    requires key != NONE && NoPress(es)
    ensures Run(State(Held(key), true), es).sent == Fill(Polls(es), NONE)
    decreases |es|
  {
    if es != [] {
      if es[0].Poll? {
        IdleRun(State(Idle, false), es[1..]);
      } else {
        ReleasedRun(key, es[1..]);
      }
    }
  }

  /** A long press sends its key on every poll until the app releases it, and releases from then on. */
  lemma LongPressSends(s: State, key: byte, held: seq<Event>, later: seq<Event>)
    requires s.Valid() && key != NONE && OnlyCancels(held) && NoPress(later)
    ensures Run(s, [LongPress(key)] + held + [Press(NONE)] + later).sent ==
            Fill(Polls(held), key) + Fill(Polls(later), 0)
  {
    assert ([LongPress(key)] + held)[1..] == held;
    HeldRun(key, held);
    assert ([Press(NONE)] + later)[1..] == later;
    ReleasedRun(key, later);
    assert [LongPress(key)] + held + [Press(NONE)] + later == ([LongPress(key)] + held) + ([Press(NONE)] + later);
    RunAppend(s, [LongPress(key)] + held, [Press(NONE)] + later);
  }

  // Bounds over arbitrary runs.

  function KeysSent(sent: seq<byte>): nat {
    if sent == [] then 0 else (if sent[0] != NONE then 1 else 0) + KeysSent(sent[1..])
  }

  lemma {:induction false} KeysSentAppend(a: seq<byte>, b: seq<byte>)
    ensures KeysSent(a + b) == KeysSent(a) + KeysSent(b)
  {
    if a == [] {
      assert a + b == b;
    } else {
      assert (a + b)[1..] == a[1..] + b;
      KeysSentAppend(a[1..], b);
    }
  }

  function ShortPresses(es: seq<Event>): nat {
    if es == [] then 0 else (if es[0].Press? && es[0].key != NONE then 1 else 0) + ShortPresses(es[1..])
  }

  /** Sends a burst still owes. */
  function Owed(s: State): nat { if s.mode.Burst? then s.mode.left else 0 }

  /** Without long presses no run sends more than four keys for each short press, superseded or not. */
  lemma {:induction false} AtMostFourEach(s: State, es: seq<Event>)
    requires s.Valid() && !s.mode.Held?
    requires forall i :: 0 <= i < |es| ==> !es[i].LongPress?
    ensures KeysSent(Run(s, es).sent) + Owed(Run(s, es).state) <= Owed(s) + 4 * ShortPresses(es)
    decreases |es|
  {
    if es != [] {
      var first := Step(s, es[0]);
      AtMostFourEach(first.state, es[1..]);
      KeysSentAppend(first.sent, Run(first.state, es[1..]).sent);
    }
  }
}
