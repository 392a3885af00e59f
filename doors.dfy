/**
 * The cooldown state machine behind `/open/innerdoor` and `/open/outerdoor`.
 *
 * Each door remembers when it was last opened. A trigger that comes less
 * than `Cooldown` after that is answered with 425 Too Early and changes
 * nothing; any other trigger records its own time, drives the door's GPIO
 * pin high, holds it for `Hold` and drives it low again.
 *
 * Time is an integer count of nanoseconds (the unit of Go's
 * `time.Duration`), passed in as a parameter instead of read from a clock.
 */
module Doors {

  const Second: int := 1_000_000_000
  /** Minimum time between the starts of two openings of one door. */
  const Cooldown: int := 10 * Second
  /** How long the pin stays high during one opening. */
  const Hold: int := 5 * Second

  /** The answer of a door handler. */
  datatype Outcome = Opened | TooEarly

  /** The HTTP status a handler writes for an outcome. */
  function Status(o: Outcome): (code: int)
    ensures code == 200 <==> o == Opened
    ensures code == 425 <==> o == TooEarly
  {
    match o
    case Opened => 200
    case TooEarly => 425
  }

  /** One write to the pin: its level from time `at` on. */
  datatype PinWrite = PinWrite(at: int, high: bool)

  /** The abstract state of one door, with the history of its pin writes. */
  datatype DoorState = DoorState(lastOpened: int, pinHigh: bool, writes: seq<PinWrite>)

  /** Go's `t.After(u)`: strictly later. */
  predicate After(t: int, u: int) {
    t > u
  }

  /** The guard of the handler: `lastOpened.Add(10 * time.Second).After(now)`. */
  predicate InCooldown(lastOpened: int, now: int) {
    After(lastOpened + Cooldown, now)
  }

  // The steps of an accepted trigger, one function each.

  function RecordOpened(s: DoorState, now: int): (r: DoorState) {
    s.(lastOpened := now)
  }

  /** The state after `Pin.High()` (`high`) or `Pin.Low()` at time `at`. */
  function WithPin(s: DoorState, high: bool, at: int): (r: DoorState) {
    s.(pinHigh := high, writes := s.writes + [PinWrite(at, high)])
  }

  /**
   * One trigger at time `now`: rejected inside the cooldown window,
   * otherwise record `now`, pin high at `now`, pin low after the hold.
   */
  function Step(s: DoorState, now: int): (r: (DoorState, Outcome))
    ensures r.1 == TooEarly <==> now < s.lastOpened + Cooldown
    ensures r.1 == TooEarly ==> r.0 == s
    ensures r.1 == Opened ==>
              && r.0.lastOpened == now
              && r.0.lastOpened >= s.lastOpened + Cooldown
              && !r.0.pinHigh
              && r.0.writes == s.writes + [PinWrite(now, true), PinWrite(now + Hold, false)]
  {
    if InCooldown(s.lastOpened, now) then (s, TooEarly)
    else
      var recorded := RecordOpened(s, now);
      var raised := WithPin(recorded, true, now);
      var lowered := WithPin(raised, false, now + Hold);
      (lowered, Opened)
  }

  /** The state set up at start-up: opened "10 seconds ago", pin low. */
  function Initial(start: int): (s: DoorState)
    ensures Reachable(s)
    ensures Step(s, start).1 == Opened
    ensures forall t :: Step(s, t).1 == Opened <==> t >= start
  {
    DoorState(start - Cooldown, false, [])
  }

  // The pin history.

  /** The writes come in high/low pairs, each low write `Hold` after its high write. */
  predicate Pulses(w: seq<PinWrite>)
    decreases |w|
  {
    if w == [] then true
    else |w| >= 2 && Pulses(w[..|w| - 2])
         && w[|w| - 2].high
         && w[|w| - 1] == PinWrite(w[|w| - 2].at + Hold, false)
  }

  /** The times at which the pin went high, oldest first. */
  function Starts(w: seq<PinWrite>): (starts: seq<int>)
    requires Pulses(w)
    decreases |w|
  {
    if w == [] then [] else Starts(w[..|w| - 2]) + [w[|w| - 2].at]
  }

  /** Any two starts are at least one cooldown apart. */
  predicate Spaced(starts: seq<int>) {
    forall i, j :: 0 <= i < j < |starts| ==> starts[i] + Cooldown <= starts[j]
  }

  /** The pin level at time `t`: the level of the latest write at or before `t`; low before any write. */
  function LevelAt(w: seq<PinWrite>, t: int): (high: bool)
    decreases |w|
  {
    if w == [] then false
    else if w[|w| - 1].at <= t then w[|w| - 1].high
    else LevelAt(w[..|w| - 1], t)
  }

  /** Some pulse of `starts` covers time `t`. */
  predicate InWindow(starts: seq<int>, t: int) {
    exists k :: 0 <= k < |starts| && starts[k] <= t < starts[k] + Hold
  }

  /**
   * The invariant every door state reached from `Initial` keeps: the pin is
   * low between requests, the history is a sequence of pulses spaced a
   * cooldown apart, and none of them starts after `lastOpened`.
   */
  predicate Reachable(s: DoorState) {
    && !s.pinHigh
    && Pulses(s.writes)
    && Spaced(Starts(s.writes))
    && (forall k :: 0 <= k < |Starts(s.writes)| ==> Starts(s.writes)[k] <= s.lastOpened)
  }

  lemma PulsesAppend(w: seq<PinWrite>, t: int)
    requires Pulses(w)
    ensures Pulses(w + [PinWrite(t, true), PinWrite(t + Hold, false)])
    ensures Starts(w + [PinWrite(t, true), PinWrite(t + Hold, false)]) == Starts(w) + [t]
  {
    var w' := w + [PinWrite(t, true), PinWrite(t + Hold, false)];
    assert w'[..|w'| - 2] == w;
  }

  /** A step keeps the invariant; an accepted step adds exactly one pulse, starting at `now`. */
  lemma StepReachable(s: DoorState, now: int)
    requires Reachable(s)
    ensures Reachable(Step(s, now).0)
    ensures Starts(Step(s, now).0.writes)
            == Starts(s.writes) + (if Step(s, now).1 == Opened then [now] else [])
  {
    if Step(s, now).1 == Opened {
      PulsesAppend(s.writes, now);
      var st := Starts(s.writes);
      var st' := st + [now];
      forall i, j | 0 <= i < j < |st'| ensures st'[i] + Cooldown <= st'[j] {
        if j == |st| {
          assert st[i] <= s.lastOpened;
        }
      }
    }
  }

  lemma SpacedSnoc(sp: seq<int>, s: int)
    requires Spaced(sp + [s])
    ensures Spaced(sp)
    ensures forall k :: 0 <= k < |sp| ==> sp[k] + Cooldown <= s
  {
    var st := sp + [s];
    forall i, j | 0 <= i < j < |sp| ensures sp[i] + Cooldown <= sp[j] {
      assert sp[i] == st[i] && sp[j] == st[j];
    }
    forall k | 0 <= k < |sp| ensures sp[k] + Cooldown <= s {
      assert sp[k] == st[k] && s == st[|sp|];
    }
  }

  lemma InWindowSnoc(sp: seq<int>, s: int, t: int)
    ensures InWindow(sp + [s], t) <==> InWindow(sp, t) || s <= t < s + Hold
  {
    var st := sp + [s];
    if InWindow(sp, t) {
      var k :| 0 <= k < |sp| && sp[k] <= t < sp[k] + Hold;
      assert st[k] == sp[k];
    }
    if s <= t < s + Hold {
      assert st[|sp|] == s;
    }
    if InWindow(st, t) {
      var k :| 0 <= k < |st| && st[k] <= t < st[k] + Hold;
      if k < |sp| {
        assert sp[k] == st[k];
      }
    }
  }

  lemma LevelAtPulse(p: seq<PinWrite>, s: int, t: int)
    ensures LevelAt(p + [PinWrite(s, true), PinWrite(s + Hold, false)], t)
            == if s + Hold <= t then false else if s <= t then true else LevelAt(p, t)
  {
    var w := p + [PinWrite(s, true), PinWrite(s + Hold, false)];
    assert w[..|w| - 1] == p + [PinWrite(s, true)];
    assert (p + [PinWrite(s, true)])[..|p|] == p;
  }

  /**
   * The pin as observed over time: it is high exactly inside the `Hold`
   * window of some pulse.
   */
  lemma {:induction false} LevelAtWindows(w: seq<PinWrite>, t: int)
    requires Pulses(w) && Spaced(Starts(w))
    ensures LevelAt(w, t) <==> InWindow(Starts(w), t)
    decreases |w|
  {
    if w != [] {
      var p := w[..|w| - 2];
      var s := w[|w| - 2].at;
      var sp := Starts(p);
      assert w == p + [PinWrite(s, true), PinWrite(s + Hold, false)];
      assert Starts(w) == sp + [s];
      SpacedSnoc(sp, s);
      LevelAtPulse(p, s, t);
      InWindowSnoc(sp, s, t);
      if t < s {
        LevelAtWindows(p, t);
        if InWindow(sp, t) {
          var k :| 0 <= k < |sp| && sp[k] <= t < sp[k] + Hold;
        }
      }
    }
  }

  /** Hold windows of spaced pulses never overlap: each ends before the next begins. */
  lemma WindowsDisjoint(starts: seq<int>, t: int, i: int, j: int)
    requires Spaced(starts)
    requires 0 <= i < |starts| && 0 <= j < |starts|
    requires starts[i] <= t < starts[i] + Hold && starts[j] <= t < starts[j] + Hold
    ensures i == j
  {
  }

  /**
   * After an accepted trigger at `now` the pin is high on [now, now + Hold)
   * and low from then on, until the next accepted trigger.
   */
  lemma PulseAfterOpened(s: DoorState, now: int, t: int)
    requires Reachable(s) && Step(s, now).1 == Opened && now <= t
    ensures LevelAt(Step(s, now).0.writes, t) <==> t < now + Hold
  {
    var s' := Step(s, now).0;
    StepReachable(s, now);
    LevelAtWindows(s'.writes, t);
    var st := Starts(s'.writes);
    assert st[|st| - 1] == now;
  }

  // Sequences of triggers on one door.

  /** The door after triggers at `times`, in order, and the outcome of each. */
  function Run(s: DoorState, times: seq<int>): (r: (DoorState, seq<Outcome>))
    ensures |r.1| == |times|
    decreases |times|
  {
    if times == [] then (s, [])
    else
      var prev := Run(s, times[..|times| - 1]);
      var next := Step(prev.0, times[|times| - 1]);
      (next.0, prev.1 + [next.1])
  }

  /** The times of the accepted triggers, in order. */
  function Accepted(times: seq<int>, outcomes: seq<Outcome>): (accepted: seq<int>)
    requires |times| == |outcomes|
    decreases |times|
  {
    if times == [] then []
    else Accepted(times[..|times| - 1], outcomes[..|outcomes| - 1])
         + (if outcomes[|outcomes| - 1] == Opened then [times[|times| - 1]] else [])
  }

  /**
   * Over any run: the invariant holds, the pulses added are exactly the
   * accepted triggers, and `lastOpened` never decreases.
   */
  lemma {:induction false} RunReachable(s: DoorState, times: seq<int>)
    requires Reachable(s)
    ensures Reachable(Run(s, times).0)
    ensures Starts(Run(s, times).0.writes) == Starts(s.writes) + Accepted(times, Run(s, times).1)
    ensures Run(s, times).0.lastOpened >= s.lastOpened
    decreases |times|
  {
    if times != [] {
      var init := times[..|times| - 1];
      var prev := Run(s, init);
      RunReachable(s, init);
      StepReachable(prev.0, times[|times| - 1]);
      assert Run(s, times).1[..|times| - 1] == prev.1;
    }
  }

  /**
   * Any two accepted triggers of a run start at least one cooldown apart,
   * and each accepted trigger is at or before the final `lastOpened`.
   */
  lemma {:induction false} RunSpaced(s: DoorState, times: seq<int>)
    ensures forall i, j :: 0 <= i < j < |times| && Run(s, times).1[i] == Opened && Run(s, times).1[j] == Opened
              ==> times[i] + Cooldown <= times[j]
    ensures forall i :: 0 <= i < |times| && Run(s, times).1[i] == Opened ==> times[i] <= Run(s, times).0.lastOpened
    ensures Run(s, times).0.lastOpened >= s.lastOpened
    decreases |times|
  {
    if times != [] {
      var n := |times| - 1;
      var init := times[..n];
      var prev := Run(s, init);
      var outs := Run(s, times).1;
      RunSpaced(s, init);
      assert outs[..n] == prev.1;
      forall i | 0 <= i < n ensures outs[i] == prev.1[i] && times[i] == init[i] {
        assert outs[i] == outs[..n][i];
      }
    }
  }

  /** A run extended by one more trigger. */
  lemma RunSnoc(s: DoorState, times: seq<int>, t: int)
    ensures Run(s, times + [t]).0 == Step(Run(s, times).0, t).0
    ensures Run(s, times + [t]).1 == Run(s, times).1 + [Step(Run(s, times).0, t).1]
  {
    assert (times + [t])[..|times|] == times;
  }

  /**
   * The worked example: cooldown 10 s, hold 5 s; a trigger at 0 opens,
   * one at 3 s is too early, one at exactly 10 s opens again (the guard is
   * strict), one at 11 s is too early once more.
   */
  lemma Scenario()
    ensures Run(Initial(0), [0, 3 * Second, 10 * Second, 11 * Second]).1
            == [Opened, TooEarly, Opened, TooEarly]
  {
    var s0 := Initial(0);
    var s1 := Step(s0, 0).0;
    var s3 := Step(s1, 10 * Second).0;
    assert s1.lastOpened == 0 && s3.lastOpened == 10 * Second;
    RunSnoc(s0, [], 0);
    assert [] + [0] == [0];
    assert Run(s0, [0]).0 == s1 && Run(s0, [0]).1 == [Opened];
    RunSnoc(s0, [0], 3 * Second);
    assert [0] + [3 * Second] == [0, 3 * Second];
    assert Run(s0, [0, 3 * Second]).0 == s1;
    RunSnoc(s0, [0, 3 * Second], 10 * Second);
    assert [0, 3 * Second] + [10 * Second] == [0, 3 * Second, 10 * Second];
    assert Run(s0, [0, 3 * Second, 10 * Second]).0 == s3;
    RunSnoc(s0, [0, 3 * Second, 10 * Second], 11 * Second);
    assert [0, 3 * Second, 10 * Second] + [11 * Second] == [0, 3 * Second, 10 * Second, 11 * Second];
  }

  /**
   * The reference scenario: a trigger at 0 opens, one at 3 s is too early,
   * one at 11 s opens again.
   */
  lemma ReferenceScenario()
    ensures Run(Initial(0), [0, 3 * Second, 11 * Second]).1 == [Opened, TooEarly, Opened]
  {
    var s0 := Initial(0);
    var s1 := Step(s0, 0).0;
    assert s1.lastOpened == 0;
    RunSnoc(s0, [], 0);
    assert [] + [0] == [0];
    assert Run(s0, [0]).0 == s1 && Run(s0, [0]).1 == [Opened];
    RunSnoc(s0, [0], 3 * Second);
    assert [0] + [3 * Second] == [0, 3 * Second];
    assert Run(s0, [0, 3 * Second]).0 == s1;
    RunSnoc(s0, [0, 3 * Second], 11 * Second);
    assert [0, 3 * Second] + [11 * Second] == [0, 3 * Second, 11 * Second];
  }

  /**
   * One door: its last-opened time, its pin, and (ghost) every write made
   * to the pin. The handler closures of the server hold one of these each.
   */
  class Door {
    var lastOpened: int
    var pinHigh: bool
    ghost var writes: seq<PinWrite>

    ghost function State(): DoorState
      reads this
    {
      DoorState(lastOpened, pinHigh, writes)
    }

    ghost predicate Valid()
      reads this
    {
      Reachable(State())
    }

    /** Start-up: `lastOpened` is ten seconds before `start`, the pin low. */
    constructor (start: int)
      ensures State() == Initial(start)
      ensures Valid()
    {
      lastOpened := start - Cooldown;
      pinHigh := false;
      writes := [];
    }

    /** Drive the pin to `high` at time `at`. */
    method WritePin(high: bool, at: int)
      modifies this
      ensures State() == WithPin(old(State()), high, at)
    {
      pinHigh := high;
      writes := writes + [PinWrite(at, high)];
    }

    /** The body of the door handler, for a request arriving at `now`. */
    method Trigger(now: int) returns (o: Outcome)
      requires Valid()
      modifies this
      ensures Valid()
      ensures (State(), o) == Step(old(State()), now)
      ensures o == TooEarly <==> now < old(lastOpened) + Cooldown
      ensures o == TooEarly ==> unchanged(this)
      ensures o == Opened ==> lastOpened == now && !pinHigh
    {
      if InCooldown(lastOpened, now) {
        return TooEarly;
      }
      ghost var before := State();
      lastOpened := now;
      WritePin(true, now);
      assert pinHigh;
      // time.Sleep(5 * time.Second): the clock advances by the hold
      WritePin(false, now + Hold);
      o := Opened;
      StepReachable(before, now);
    }
  }
}
