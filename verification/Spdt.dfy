/** The latching-relay controller of app/spdt.c on top of the supply: pin sequences, polarity,
    and what the relays make of them. Calls do not overlap; the code takes no lock. */
module Spdt {
  import opened Bits
  import opened Wrappers
  import opened HvSupply

  datatype Pin = S1U | S1D | S2U | S2D | SWEnable | D4 | D5 | D6

  datatype Pins = Pins(s1u: bool, s1d: bool, s2u: bool, s2d: bool, swEnable: bool, d4: bool, d5: bool, d6: bool)

  function With(p: Pins, pin: Pin, level: bool): Pins
  {
    match pin
    case S1U => p.(s1u := level)
    case S1D => p.(s1d := level)
    case S2U => p.(s2u := level)
    case S2D => p.(s2d := level)
    case SWEnable => p.(swEnable := level)
    case D4 => p.(d4 := level)
    case D5 => p.(d5 := level)
    case D6 => p.(d6 := level)
  }

  datatype Position = J1 | J2
  datatype Switch = SW1 | SW2

  /** A stretch of time over which the lines stand still. */
  datatype Moment = Moment(from: nat, to: nat, pins: Pins, high1: bool, high2: bool)

  /** A coil line at the level its switch's polarity makes active. */
  predicate Active(line: bool, high: bool) { line == high }

  /** While the enable is high, at most one coil line of one switch is active. */
  predicate SafePins(p: Pins, high1: bool, high2: bool)
  {
    var (u1, d1) := (Active(p.s1u, high1), Active(p.s1d, high1));
    var (u2, d2) := (Active(p.s2u, high2), Active(p.s2d, high2));
    p.swEnable ==> !(u1 && d1) && !(u2 && d2) && !((u1 || d1) && (u2 || d2))
  }

  predicate Safe(m: Moment) { SafePins(m.pins, m.high1, m.high2) }

  /** The moments follow one another without gaps. */
  ghost predicate Covers(t: seq<Moment>, from: nat, to: nat)
  {
    if t == [] then from == to
    else var m := t[|t| - 1]; m.from <= m.to == to && Covers(t[..|t| - 1], from, m.from)
  }

  lemma {:induction false} CoversRest(t: seq<Moment>, n: nat, from: nat, mid: nat, to: nat)
    requires n <= |t| && Covers(t[..n], from, mid) && Covers(t, from, to)
    ensures Covers(t[n..], mid, to)
  {
    if n == |t| {
      assert t[..n] == t;
      CoversOnce(t, from, mid, to);
    } else {
      var last := |t| - 1;
      assert t[..last][..n] == t[..n] && t[n..][..last - n] == t[..last][n..];
      CoversRest(t[..last], n, from, mid, t[last].from);
    }
  }

  lemma CoversOnce(t: seq<Moment>, from: nat, mid: nat, to: nat)
    requires Covers(t, from, mid) && Covers(t, from, to)
    ensures mid == to
  {
  }

  /** A record of the time from power-up to `now`, safe at every moment. */
  ghost predicate Recorded(t: seq<Moment>, now: nat)
  {
    Covers(t, 0, now) && forall k :: 0 <= k < |t| ==> Safe(t[k])
  }

  lemma RecordMore(t: seq<Moment>, m: Moment)
    requires Recorded(t, m.from) && m.from <= m.to && Safe(m)
    ensures Recorded(t + [m], m.to)
  {
    assert (t + [m])[..|t|] == t;
  }

  lemma RecordRest(before: seq<Moment>, from: nat, t: seq<Moment>, now: nat)
    requires Recorded(before, from) && Recorded(t, now) && before <= t
    ensures Covers(t[|before|..], from, now)
  {
    assert t[..|before|] == before;
    CoversRest(t, |before|, 0, from, now);
  }

  /** A pulse: for 80 ms or more the enable is high and exactly the chosen relay's coil line, U for
      J1 and D for J2, is away from its idle level. */
  predicate Pulses(m: Moment, idle: Pins, swtch: Switch, sel: Position)
  {
    && m.to >= m.from + 80 && m.pins.swEnable
    && (m.pins.s1u != idle.s1u <==> swtch == SW1 && sel == J1)
    && (m.pins.s1d != idle.s1d <==> swtch == SW1 && sel == J2)
    && (m.pins.s2u != idle.s2u <==> swtch == SW2 && sel == J1)
    && (m.pins.s2d != idle.s2d <==> swtch == SW2 && sel == J2)
  }

  /** A pulse is on record after the first n moments. */
  ghost predicate HasPulse(t: seq<Moment>, n: nat, idle: Pins, swtch: Switch, sel: Position)
  {
    exists k :: n <= k < |t| && Pulses(t[k], idle, swtch, sel)
  }

  /** Idle lines but for one, with the enable high. */
  function Driven(idle: Pins, swtch: Switch, sel: Position): Pins
  {
    match (swtch, sel)
    case (SW1, J1) => idle.(swEnable := true, s1u := !idle.s1u)
    case (SW1, J2) => idle.(swEnable := true, s1d := !idle.s1d)
    case (SW2, J1) => idle.(swEnable := true, s2u := !idle.s2u)
    case (SW2, J2) => idle.(swEnable := true, s2d := !idle.s2d)
  }

  lemma PulseNow(t: seq<Moment>, n: nat, idle: Pins, swtch: Switch, sel: Position)
    requires n < |t| && t[|t| - 1].pins == Driven(idle, swtch, sel) && t[|t| - 1].to >= t[|t| - 1].from + 80
    ensures HasPulse(t, n, idle, swtch, sel)
  {
    assert Pulses(t[|t| - 1], idle, swtch, sel);
  }

  lemma PulseKept(t: seq<Moment>, n: nat, now: seq<Moment>, m: nat, idle: Pins, was: Pins, swtch: Switch, sel: Position)
    requires HasPulse(t, n, idle, swtch, sel) && t <= now && m <= n
    requires idle.s1u == was.s1u && idle.s1d == was.s1d && idle.s2u == was.s2u && idle.s2d == was.s2d
    ensures HasPulse(now, m, was, swtch, sel)
  {
    var k :| n <= k < |t| && Pulses(t[k], idle, swtch, sel);
    assert Pulses(now[k], was, swtch, sel);
  }

  /** A latching relay after its lines stood still with power for a full pulse. */
  function Latched(old_: Option<Position>, u: bool, d: bool, high: bool): Option<Position>
  {
    if Active(u, high) && !Active(d, high) then Some(J1)
    else if Active(d, high) && !Active(u, high) then Some(J2)
    else if Active(u, high) then None
    else old_
  }

  /** A coil line and the other one of its relay. */
  predicate LinesOf(swtch: Switch, sel: Position, line: Pin, other: Pin)
  {
    match (swtch, sel)
    case (SW1, J1) => line == S1U && other == S1D
    case (SW1, J2) => line == S1D && other == S1U
    case (SW2, J1) => line == S2U && other == S2D
    case (SW2, J2) => line == S2D && other == S2U
  }

  predicate AtRest(p: Pins, high1: bool, high2: bool)
  {
    p.s1u == p.s1d == !high1 && p.s2u == p.s2d == !high2
  }

  /** From rest, writing the two lines of a relay changes one of them. */
  lemma StrokePins(p: Pins, high1: bool, high2: bool, swtch: Switch, sel: Position, line: Pin, other: Pin, level: bool)
    requires AtRest(p, high1, high2) && LinesOf(swtch, sel, line, other)
    requires level == if swtch == SW1 then high1 else high2
    ensures With(p, other, !level) == p
    ensures With(p, line, level) == Driven(p, swtch, sel).(swEnable := p.swEnable)
  {
  }

  lemma StrokeSafe(p: Pins, high1: bool, high2: bool, swtch: Switch, sel: Position, enable: bool)
    requires AtRest(p, high1, high2)
    ensures SafePins(p.(swEnable := enable), high1, high2)
    ensures SafePins(Driven(p, swtch, sel).(swEnable := enable), high1, high2)
  {
  }

  lemma StrokeLatches(p: Pins, high1: bool, high2: bool, swtch: Switch, sel: Position, was: Option<Position>)
    requires AtRest(p, high1, high2)
    ensures var d := Driven(p, swtch, sel);
      && Latched(was, d.s1u, d.s1d, high1) == (if swtch == SW1 then Some(sel) else was)
      && Latched(was, d.s2u, d.s2d, high2) == (if swtch == SW2 then Some(sel) else was)
  {
  }

  // ---- a command as its caller sees it ----

  /** Supply, polarities and relay positions; None is a position nobody has set yet. */
  datatype Rig = Rig(hv: Hv, high1: bool, high2: bool, latch1: Option<Position>, latch2: Option<Position>)

  datatype Command =
    | Select(swtch: Switch, sel: Position)
    | SetPolarity(swtch: Switch, setting: int)
    | Supply(on: bool)
    | Pause(ms: nat)

  /** uint8_t pulseHigh = setting */
  function Polarity(setting: int): bool { setting % 256 != 0 }

  function Commanded(r: Rig, c: Command): Rig
  {
    match c
    case Select(s, p) =>
      var powered := PulsePowered(r.hv);
      r.(hv := Pulse(r.hv),
         latch1 := if s == SW1 && powered then Some(p) else r.latch1,
         latch2 := if s == SW2 && powered then Some(p) else r.latch2)
    case SetPolarity(SW1, setting) => r.(high1 := Polarity(setting))
    case SetPolarity(SW2, setting) => r.(high2 := Polarity(setting))
    case Supply(on) => r.(hv := if on then TurnOn(r.hv) else TurnOff(r.hv))
    case Pause(ms) => r.(hv := Wait(r.hv, ms))
  }

  function RunAll(r: Rig, cs: seq<Command>): Rig
    decreases |cs|
  {
    if cs == [] then r else RunAll(Commanded(r, cs[0]), cs[1..])
  }

  /** The last position asked of a switch. */
  function LastRequest(s: Switch, cs: seq<Command>, before: Option<Position>): Option<Position>
    decreases |cs|
  {
    if cs == [] then before
    else LastRequest(s, cs[1..], if cs[0].Select? && cs[0].swtch == s then Some(cs[0].sel) else before)
  }

  /** Each relay is where it was last told to be, whatever happened to the other one and to the
      polarities, as long as only the timer turns the supply off. */
  lemma {:induction false} RelaysFollowRequests(r: Rig, cs: seq<Command>)
    requires Supervised(r.hv) && Supply(false) !in cs
    ensures var f := RunAll(r, cs);
      && f.latch1 == LastRequest(SW1, cs, r.latch1)
      && f.latch2 == LastRequest(SW2, cs, r.latch2)
      && Supervised(f.hv)
    decreases |cs|
  {
    if cs != [] {
      RunSupervised(r.hv, []);
      RelaysFollowRequests(Commanded(r, cs[0]), cs[1..]);
    }
  }

  // ---- the pin sequences ----

  class Board {
    var pins: Pins
    var s1PulseHigh: bool
    var s2PulseHigh: bool
    var hv: Hv
    var latch1: Option<Position>
    var latch2: Option<Position>
    /** Every stretch of time so far. */
    ghost var trace: seq<Moment>

    ghost function AsRig(): Rig
      reads this
    {
      Rig(hv, s1PulseHigh, s2PulseHigh, latch1, latch2)
    }

    /** Every line is at its polarity's inactive level. */
    ghost predicate Resting()
      reads this
    {
      AtRest(pins, s1PulseHigh, s2PulseHigh)
    }

    /** Between calls the enable is low too. */
    ghost predicate Idle()
      reads this
    {
      !pins.swEnable && Resting()
    }

    /** The trace covers the time since power-up, safe at every moment. */
    ghost predicate AlwaysSafe()
      reads this
    {
      Recorded(trace, hv.now)
    }

    /** Since a trace and a time in the past, the time until now has been added to it. */
    ghost predicate Since(before: seq<Moment>, from: nat)
      reads this
    {
      before <= trace && Covers(trace[|before|..], from, hv.now)
    }

    ghost predicate Valid()
      reads this
    {
      Idle() && AlwaysSafe()
    }

    constructor ()
      ensures Valid() && AsRig() == Rig(POWERED_UP, true, true, None, None) && trace == []
    {
      pins := Pins(false, false, false, false, false, false, false, false);
      s1PulseHigh, s2PulseHigh := true, true;
      hv, latch1, latch2 := POWERED_UP, None, None;
      trace := [];
    }

    /** gpio_set and gpio_clear */
    method Gpio(pin: Pin, level: bool)
      requires AlwaysSafe()
      requires Safe(Moment(hv.now, hv.now, With(pins, pin, level), s1PulseHigh, s2PulseHigh))
      modifies this`pins, this`trace
      ensures AlwaysSafe() && pins == With(old(pins), pin, level)
      ensures trace == old(trace) + [Moment(hv.now, hv.now, pins, s1PulseHigh, s2PulseHigh)]
    {
      pins := With(pins, pin, level);
      hide Recorded;
      RecordMore(trace, Moment(hv.now, hv.now, pins, s1PulseHigh, s2PulseHigh));
      trace := trace + [Moment(hv.now, hv.now, pins, s1PulseHigh, s2PulseHigh)];
    }

    /** delayms: the lines stand still, the timer may expire, and a powered pulse of SW_DELAY
        moves the relay whose coil is on. */
    method Delay(ms: nat)
      requires AlwaysSafe() && Safe(Moment(hv.now, hv.now + ms, pins, s1PulseHigh, s2PulseHigh))
      modifies this`hv, this`trace, this`latch1, this`latch2
      ensures AlwaysSafe() && hv == Wait(old(hv), ms)
      ensures trace == old(trace) + [Moment(old(hv.now), old(hv.now) + ms, pins, s1PulseHigh, s2PulseHigh)]
      ensures var pulse := ms >= SW_DELAY && old(hv.pin) && !DueWithin(old(hv), ms) && pins.swEnable;
        && latch1 == (if pulse then Latched(old(latch1), pins.s1u, pins.s1d, s1PulseHigh) else old(latch1))
        && latch2 == (if pulse then Latched(old(latch2), pins.s2u, pins.s2d, s2PulseHigh) else old(latch2))
    {
      hide Recorded, Latched, Safe;
      if ms >= SW_DELAY && hv.pin && !DueWithin(hv, ms) && pins.swEnable {
        latch1 := Latched(latch1, pins.s1u, pins.s1d, s1PulseHigh);
        latch2 := Latched(latch2, pins.s2u, pins.s2d, s2PulseHigh);
      }
      RecordMore(trace, Moment(hv.now, hv.now + ms, pins, s1PulseHigh, s2PulseHigh));
      trace := trace + [Moment(hv.now, hv.now + ms, pins, s1PulseHigh, s2PulseHigh)];
      if DueWithin(hv, ms) { VhvTimerExpired(); }
      hv := hv.(now := hv.now + ms);
    }

    /** The timer callback: stop, then hvOn(0). */
    method VhvTimerExpired()
      modifies this`hv
      ensures hv == TurnOff(old(hv)).(deadline := None)
    {
      hv := hv.(deadline := None);
      hv := hv.(pin := false, state := false);
    }

    method HvOn(on: bool)
      requires Valid()
      modifies this`hv, this`trace, this`latch1, this`latch2
      ensures Valid() && hv == if on then TurnOn(old(hv)) else TurnOff(old(hv))
      ensures latch1 == old(latch1) && latch2 == old(latch2)
      ensures Since(old(trace), old(hv.now))
    {
      ghost var before, from := trace, hv.now;
      if on {
        if !hv.state {
          hv := hv.(pin := true);
          Delay(POWER_UP);
          hv := hv.(state := true);
        }
        hv := hv.(deadline := Some(hv.now + HV_TIMEOUT), lastOn := Some(hv.now));
      } else {
        hv := hv.(pin := false, state := false);
      }
      RecordRest(before, from, trace, hv.now);
    }

    /** Both lines of a relay, with the enable low. */
    method SetIdle(d: Pin, u: Pin, level: bool)
      requires AlwaysSafe() && !pins.swEnable && d != SWEnable && u != SWEnable
      modifies this`pins, this`trace
      ensures AlwaysSafe() && old(trace) <= trace && pins == With(With(old(pins), d, level), u, level)
    {
      hide Recorded;
      Gpio(d, level);
      Gpio(u, level);
    }

    method S1SetPulseHigh(setting: int)
      requires Valid()
      modifies this
      ensures Valid() && AsRig() == Commanded(old(AsRig()), SetPolarity(SW1, setting))
      ensures pins == old(pins).(s1u := setting % 256 == 0, s1d := setting % 256 == 0)
      ensures Since(old(trace), old(hv.now))
    {
      hide Recorded, Covers;
      ghost var before, from := trace, hv.now;
      Gpio(SWEnable, false);
      s1PulseHigh := setting % 256 != 0;
      if s1PulseHigh {
        SetIdle(S1D, S1U, false);
      } else {
        SetIdle(S1D, S1U, true);
      }
      RecordRest(before, from, trace, hv.now);
    }

    method S2SetPulseHigh(setting: int)
      requires Valid()
      modifies this
      ensures Valid() && AsRig() == Commanded(old(AsRig()), SetPolarity(SW2, setting))
      ensures pins == old(pins).(s2u := setting % 256 == 0, s2d := setting % 256 == 0)
      ensures Since(old(trace), old(hv.now))
    {
      hide Recorded, Covers;
      ghost var before, from := trace, hv.now;
      Gpio(SWEnable, false);
      s2PulseHigh := setting % 256 != 0;
      if s2PulseHigh {
        SetIdle(S2D, S2U, false);
      } else {
        SetIdle(S2D, S2U, true);
      }
      RecordRest(before, from, trace, hv.now);
    }

    // Every branch of s1_j1sel and s2_j1sel begins by setting the two lines of its relay, the other
    // one idle and the chosen one active, and then holds them for the length of a pulse.

    method Aim(other: Pin, line: Pin, level: bool, ghost swtch: Switch, ghost sel: Position)
      requires AlwaysSafe() && Resting() && LinesOf(swtch, sel, line, other)
      requires level == if swtch == SW1 then s1PulseHigh else s2PulseHigh
      modifies this`pins, this`trace
      ensures AlwaysSafe() && old(trace) <= trace
      ensures pins == Driven(old(pins), swtch, sel).(swEnable := old(pins.swEnable))
    {
      hide Recorded, With, SafePins, Driven, AtRest, LinesOf;
      StrokePins(pins, s1PulseHigh, s2PulseHigh, swtch, sel, line, other, level);
      StrokeSafe(pins, s1PulseHigh, s2PulseHigh, swtch, sel, pins.swEnable);
      Gpio(other, !level);
      Gpio(line, level);
    }

    method Hold(ghost idle: Pins, ghost swtch: Switch, ghost sel: Position)
      requires AlwaysSafe() && AtRest(idle, s1PulseHigh, s2PulseHigh) && pins == Driven(idle, swtch, sel)
      modifies this`hv, this`trace, this`latch1, this`latch2
      ensures AlwaysSafe() && hv == Wait(old(hv), SW_DELAY)
      ensures old(trace) <= trace && HasPulse(trace, |old(trace)|, idle, swtch, sel)
      ensures var powered := old(hv.pin) && !DueWithin(old(hv), SW_DELAY);
        && latch1 == (if powered && swtch == SW1 then Some(sel) else old(latch1))
        && latch2 == (if powered && swtch == SW2 then Some(sel) else old(latch2))
    {
      hide Recorded, Wait, DueWithin, HasPulse, With, SafePins, Latched;
      ghost var before := trace;
      StrokeSafe(idle, s1PulseHigh, s2PulseHigh, swtch, sel, true);
      StrokeLatches(idle, s1PulseHigh, s2PulseHigh, swtch, sel, latch1);
      StrokeLatches(idle, s1PulseHigh, s2PulseHigh, swtch, sel, latch2);
      Delay(SW_DELAY);
      PulseNow(trace, |before|, idle, swtch, sel);
    }

    // The pulse branches of s1_j1sel, where the enable is already high, and of s2_j1sel, which
    // raises it only once the coil line is set.

    method PulseS1High(on: bool)
      requires AlwaysSafe() && pins.swEnable && Resting() && s1PulseHigh
      modifies this`pins, this`hv, this`trace, this`latch1, this`latch2
      ensures AlwaysSafe() && hv == Wait(old(hv), SW_DELAY)
      ensures pins == old(pins)
      ensures old(trace) <= trace && HasPulse(trace, |old(trace)|, old(pins), SW1, if on then J1 else J2)
      ensures latch2 == old(latch2)
      ensures latch1 == if old(hv.pin) && !DueWithin(old(hv), SW_DELAY) then Some(if on then J1 else J2) else old(latch1)
    {
      hide Recorded, Wait, DueWithin, HasPulse, SafePins;
      ghost var before, idle := trace, pins;
      StrokeSafe(idle, s1PulseHigh, s2PulseHigh, SW1, if on then J1 else J2, true);
      if on {
        Aim(S1D, S1U, true, SW1, J1);
        ghost var t := trace;
        Hold(idle, SW1, J1);
        ghost var pulsed := trace;
        Gpio(S1U, false);
        PulseKept(pulsed, |t|, trace, |before|, idle, idle, SW1, J1);
      } else {
        Aim(S1U, S1D, true, SW1, J2);
        ghost var t := trace;
        Hold(idle, SW1, J2);
        ghost var pulsed := trace;
        Gpio(S1D, false);
        PulseKept(pulsed, |t|, trace, |before|, idle, idle, SW1, J2);
      }
    }

    method PulseS1Low(on: bool)
      requires AlwaysSafe() && pins.swEnable && Resting() && !s1PulseHigh
      modifies this`pins, this`hv, this`trace, this`latch1, this`latch2
      ensures AlwaysSafe() && hv == Wait(old(hv), SW_DELAY)
      ensures pins == old(pins)
      ensures old(trace) <= trace && HasPulse(trace, |old(trace)|, old(pins), SW1, if on then J1 else J2)
      ensures latch2 == old(latch2)
      ensures latch1 == if old(hv.pin) && !DueWithin(old(hv), SW_DELAY) then Some(if on then J1 else J2) else old(latch1)
    {
      hide Recorded, Wait, DueWithin, HasPulse, SafePins;
      ghost var before, idle := trace, pins;
      StrokeSafe(idle, s1PulseHigh, s2PulseHigh, SW1, if on then J1 else J2, true);
      if on {
        Aim(S1D, S1U, false, SW1, J1);
        ghost var t := trace;
        Hold(idle, SW1, J1);
        ghost var pulsed := trace;
        Gpio(S1U, true);
        PulseKept(pulsed, |t|, trace, |before|, idle, idle, SW1, J1);
      } else {
        Aim(S1U, S1D, false, SW1, J2);
        ghost var t := trace;
        Hold(idle, SW1, J2);
        ghost var pulsed := trace;
        Gpio(S1D, true);
        PulseKept(pulsed, |t|, trace, |before|, idle, idle, SW1, J2);
      }
    }

    /** Enables first, then pulses one coil of switch 1. */
    method S1J1Sel(on: bool)
      requires Valid()
      modifies this
      ensures Valid() && AsRig() == Commanded(old(AsRig()), Select(SW1, if on then J1 else J2))
      ensures pins == old(pins) && Since(old(trace), old(hv.now))
      ensures HasPulse(trace, |old(trace)|, old(pins), SW1, if on then J1 else J2)
    {
      ghost var before, from := trace, hv.now;
      hide Recorded, Wait, TurnOn, DueWithin, HasPulse;
      HvOn(true);
      Gpio(SWEnable, true);
      ghost var t, idle := trace, pins;
      if s1PulseHigh { PulseS1High(on); } else { PulseS1Low(on); }
      ghost var pulsed := trace;
      Gpio(SWEnable, false);
      PulseKept(pulsed, |t|, trace, |before|, idle, old(pins), SW1, if on then J1 else J2);
      RecordRest(before, from, trace, hv.now);
    }

    method PulseS2High(on: bool)
      requires AlwaysSafe() && !pins.swEnable && Resting() && s2PulseHigh
      modifies this`pins, this`hv, this`trace, this`latch1, this`latch2
      ensures AlwaysSafe() && hv == Wait(old(hv), SW_DELAY)
      ensures pins == old(pins).(swEnable := true)
      ensures old(trace) <= trace && HasPulse(trace, |old(trace)|, old(pins), SW2, if on then J1 else J2)
      ensures latch1 == old(latch1)
      ensures latch2 == if old(hv.pin) && !DueWithin(old(hv), SW_DELAY) then Some(if on then J1 else J2) else old(latch2)
    {
      hide Recorded, Wait, DueWithin, HasPulse, SafePins;
      ghost var before, idle := trace, pins;
      StrokeSafe(idle, s1PulseHigh, s2PulseHigh, SW2, if on then J1 else J2, true);
      if on {
        Aim(S2D, S2U, true, SW2, J1);
        Gpio(SWEnable, true);
        ghost var t := trace;
        Hold(idle, SW2, J1);
        ghost var pulsed := trace;
        Gpio(S2U, false);
        PulseKept(pulsed, |t|, trace, |before|, idle, idle, SW2, J1);
      } else {
        Aim(S2U, S2D, true, SW2, J2);
        Gpio(SWEnable, true);
        ghost var t := trace;
        Hold(idle, SW2, J2);
        ghost var pulsed := trace;
        Gpio(S2D, false);
        PulseKept(pulsed, |t|, trace, |before|, idle, idle, SW2, J2);
      }
    }

    method PulseS2Low(on: bool)
      requires AlwaysSafe() && !pins.swEnable && Resting() && !s2PulseHigh
      modifies this`pins, this`hv, this`trace, this`latch1, this`latch2
      ensures AlwaysSafe() && hv == Wait(old(hv), SW_DELAY)
      ensures pins == old(pins).(swEnable := true)
      ensures old(trace) <= trace && HasPulse(trace, |old(trace)|, old(pins), SW2, if on then J1 else J2)
      ensures latch1 == old(latch1)
      ensures latch2 == if old(hv.pin) && !DueWithin(old(hv), SW_DELAY) then Some(if on then J1 else J2) else old(latch2)
    {
      hide Recorded, Wait, DueWithin, HasPulse, SafePins;
      ghost var before, idle := trace, pins;
      StrokeSafe(idle, s1PulseHigh, s2PulseHigh, SW2, if on then J1 else J2, true);
      if on {
        Aim(S2D, S2U, false, SW2, J1);
        Gpio(SWEnable, true);
        ghost var t := trace;
        Hold(idle, SW2, J1);
        ghost var pulsed := trace;
        Gpio(S2U, true);
        PulseKept(pulsed, |t|, trace, |before|, idle, idle, SW2, J1);
      } else {
        Aim(S2U, S2D, false, SW2, J2);
        Gpio(SWEnable, true);
        ghost var t := trace;
        Hold(idle, SW2, J2);
        ghost var pulsed := trace;
        Gpio(S2D, true);
        PulseKept(pulsed, |t|, trace, |before|, idle, idle, SW2, J2);
      }
    }

    /** Sets the coil line first, then enables. */
    method S2J1Sel(on: bool)
      requires Valid()
      modifies this
      ensures Valid() && AsRig() == Commanded(old(AsRig()), Select(SW2, if on then J1 else J2))
      ensures pins == old(pins) && Since(old(trace), old(hv.now))
      ensures HasPulse(trace, |old(trace)|, old(pins), SW2, if on then J1 else J2)
    {
      ghost var before, from := trace, hv.now;
      hide Recorded, Wait, TurnOn, DueWithin, HasPulse;
      HvOn(true);
      ghost var t, idle := trace, pins;
      if s2PulseHigh { PulseS2High(on); } else { PulseS2Low(on); }
      ghost var pulsed := trace;
      Gpio(SWEnable, false);
      PulseKept(pulsed, |t|, trace, |before|, idle, old(pins), SW2, if on then J1 else J2);
      RecordRest(before, from, trace, hv.now);
    }

    /** The command's two bytes, of which only zero is special; the position LEDs follow switch 1. */
    method SpdtSet(swtch: Byte, sel: Byte)
      requires Valid()
      modifies this
      ensures Valid()
      ensures AsRig() == Commanded(old(AsRig()), Select(if swtch == 0 then SW1 else SW2, if sel == 0 then J1 else J2))
      ensures pins == if swtch == 0 then old(pins).(d4 := sel == 0, d5 := false, d6 := sel != 0) else old(pins)
      ensures HasPulse(trace, |old(trace)|, old(pins), if swtch == 0 then SW1 else SW2, if sel == 0 then J1 else J2)
      ensures Since(old(trace), old(hv.now))
    {
      hide HasPulse, Recorded, Covers;
      ghost var before, from := trace, hv.now;
      ghost var where := if sel == 0 then J1 else J2;
      if swtch == 0 {
        Gpio(D4, sel == 0);
        Gpio(D5, false);
        Gpio(D6, sel != 0);
        ghost var t, idle := trace, pins;
        S1J1Sel(sel == 0);
        PulseKept(trace, |t|, trace, |before|, idle, old(pins), SW1, where);
      } else {
        S2J1Sel(sel == 0);
      }
      RecordRest(before, from, trace, hv.now);
    }

    /** One command from whoever calls: the packet dispatcher, the shell, or nobody for a while. */
    method Execute(c: Command)
      requires Valid()
      modifies this
      ensures Valid() && AsRig() == Commanded(old(AsRig()), c) && Since(old(trace), old(hv.now))
      ensures c.Select? ==> HasPulse(trace, |old(trace)|, old(pins), c.swtch, c.sel)
      ensures c.SetPolarity? && c.swtch == SW1 ==> pins.s1u == pins.s1d == (c.setting % 256 == 0)
      ensures c.SetPolarity? && c.swtch == SW2 ==> pins.s2u == pins.s2d == (c.setting % 256 == 0)
    {
      match c {
        case Select(swtch, sel) => SpdtSet(if swtch == SW1 then 0 else 1, if sel == J1 then 0 else 1);
        case SetPolarity(SW1, setting) => S1SetPulseHigh(setting);
        case SetPolarity(SW2, setting) => S2SetPulseHigh(setting);
        case Supply(on) => HvOn(on);
        case Pause(ms) =>
          ghost var before, from := trace, hv.now;
          Delay(ms);
          RecordRest(before, from, trace, hv.now);
      }
    }

    /** Any run of commands: the rig ends up as told, and every moment of the time it took is on
        record and safe. */
    method ExecuteAll(cs: seq<Command>)
      requires Valid()
      modifies this
      ensures Valid() && AsRig() == RunAll(old(AsRig()), cs) && Since(old(trace), old(hv.now))
    {
      ghost var before, from := trace, hv.now;
      hide Commanded, Recorded;
      RecordRest(before, from, trace, hv.now);
      for k := 0 to |cs|
        invariant Valid() && before <= trace
        invariant RunAll(AsRig(), cs[k..]) == RunAll(old(AsRig()), cs)
      {
        assert cs[k..][0] == cs[k] && cs[k..][1..] == cs[k + 1..];
        Execute(cs[k]);
      }
      RecordRest(before, from, trace, hv.now);
    }
  }
}
