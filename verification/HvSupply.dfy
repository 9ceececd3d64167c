/** The high-voltage supply of app/bsp.c over time: hvOn, the 10-second timer and its callback.
    Time is in milliseconds; the callback runs when the timer is due, and only while the caller
    waits, so the test of hvState and the reset that follows it are not interrupted. */
module HvSupply {
  import opened Wrappers

  const HV_TIMEOUT := 10000
  const POWER_UP := 60
  const SW_DELAY := 80

  /** `state` is hvState, `pin` the HVEnable level; `lastOn` records the last completed hvOn(1). */
  datatype Hv = Hv(now: nat, state: bool, pin: bool, deadline: Option<nat>, lastOn: Option<nat>)

  const POWERED_UP := Hv(0, false, false, None, None)

  predicate DueWithin(h: Hv, ms: nat) { h.deadline.Some? && h.deadline.value <= h.now + ms }

  /** A wait, during which the timer may expire: it stops and hvOn(0) is called. */
  function Wait(h: Hv, ms: nat): Hv
  {
    if DueWithin(h, ms) then Hv(h.now + ms, false, false, None, h.lastOn) else h.(now := h.now + ms)
  }

  /** hvOn(1) */
  function TurnOn(h: Hv): Hv
  {
    var r := if h.state then h else Wait(h.(pin := true), POWER_UP).(state := true);
    r.(deadline := Some(r.now + HV_TIMEOUT), lastOn := Some(r.now))
  }

  /** hvOn(0) */
  function TurnOff(h: Hv): Hv { h.(state := false, pin := false) }

  /** A relay command: hvOn(1), then a pulse. */
  function Pulse(h: Hv): Hv { Wait(TurnOn(h), SW_DELAY) }

  datatype Call = Switch | On | Off | Idle(ms: nat)

  function After(h: Hv, c: Call): Hv
  {
    match c
    case Switch => Pulse(h)
    case On => TurnOn(h)
    case Off => TurnOff(h)
    case Idle(ms) => Wait(h, ms)
  }

  function Run(h: Hv, calls: seq<Call>): Hv
    decreases |calls|
  {
    if calls == [] then h else Run(After(h, calls[0]), calls[1..])
  }

  /** An armed timer is in the future and within its period; a high pin has one. */
  predicate Armed(h: Hv)
  {
    && (h.deadline.Some? ==> h.now < h.deadline.value && h.lastOn.Some? && h.deadline.value == h.lastOn.value + HV_TIMEOUT)
    && (h.pin ==> h.deadline.Some?)
  }

  /** The flag, the pin and the timer agree. */
  predicate Supervised(h: Hv)
  {
    Armed(h) && h.state == h.pin && (h.deadline.Some? ==> h.pin)
  }

  /** Every call keeps the timer armed while the supply is up, hvOn(0) from the shell included. */
  lemma {:induction false} RunArmed(h: Hv, calls: seq<Call>)
    requires Armed(h)
    ensures Armed(Run(h, calls))
    decreases |calls|
  {
    if calls != [] { RunArmed(After(h, calls[0]), calls[1..]); }
  }

  /** So the supply is down no later than 10 s after the last completed hvOn(1), in every run. */
  lemma DropsInTime(calls: seq<Call>)
    ensures var h := Run(POWERED_UP, calls);
      h.pin ==> h.lastOn.Some? && h.now < h.lastOn.value + 10000
  {
    RunArmed(POWERED_UP, calls);
  }

  lemma {:induction false} RunInTwo(h: Hv, a: seq<Call>, b: seq<Call>)
    ensures Run(h, a + b) == Run(Run(h, a), b)
    decreases |a|
  {
    if a == [] {
      assert a + b == b;
    } else {
      assert (a + b)[1..] == a[1..] + b;
      RunInTwo(After(h, a[0]), a[1..], b);
    }
  }

  /** A completed hvOn(0) leaves the pin and the flag low, in every run and until somebody asks for
      the supply again. */
  lemma OffStaysOff(before: seq<Call>, after: seq<Call>)
    requires On !in after && Switch !in after
    ensures var h := Run(POWERED_UP, before + [Off] + after); !h.pin && !h.state
  {
    RunInTwo(POWERED_UP, before, [Off]);
    RunInTwo(POWERED_UP, before + [Off], after);
    var h := Run(POWERED_UP, before);
    assert [Off][1..] == [];
    LowStaysLow(TurnOff(h), after);
  }

  lemma {:induction false} LowStaysLow(h: Hv, calls: seq<Call>)
    requires !h.pin && !h.state && On !in calls && Switch !in calls
    ensures !Run(h, calls).pin && !Run(h, calls).state
    decreases |calls|
  {
    if calls != [] { LowStaysLow(After(h, calls[0]), calls[1..]); }
  }

  /** A completed hvOn(1), in every run: the flag is up and the timer due 10 s later; the pin is
      high unless hvOn(0) had left a timer behind that expired during power-up, or had dropped it. */
  lemma OnArms(before: seq<Call>)
    ensures var (h, r) := (Run(POWERED_UP, before), Run(POWERED_UP, before + [On]));
      && r.state && r.deadline == Some(r.now + 10000)
      && r.now == h.now + (if h.state then 0 else 60)
      && (r.pin <==> if h.state then h.pin else h.deadline.None? || h.deadline.value > h.now + 60)
  {
    RunInTwo(POWERED_UP, before, [On]);
    assert [On][1..] == [];
  }

  /** Whether the supply is up throughout the pulse of a relay command issued now. */
  predicate PulsePowered(h: Hv) { TurnOn(h).pin && !DueWithin(TurnOn(h), SW_DELAY) }

  /** Exactly when the pulse is powered: with the flag set, when the pin really is high; with the
      flag clear, when no timer left running by an earlier hvOn(0) is due during power-up. */
  lemma PulsePoweredIff(h: Hv)
    ensures PulsePowered(h) <==> if h.state then h.pin else !DueWithin(h, POWER_UP)
  {
  }

  /** As long as only the timer turns the supply off, every pulse of every run is powered. */
  lemma {:induction false} RunSupervised(h: Hv, calls: seq<Call>)
    requires Supervised(h) && Off !in calls
    ensures Supervised(Run(h, calls)) && PulsePowered(Run(h, calls))
    decreases |calls|
  {
    if calls == [] {
      PulsePoweredIff(h);
    } else {
      assert Supervised(After(h, calls[0]));
      RunSupervised(After(h, calls[0]), calls[1..]);
    }
  }

  /** Turning the supply off by hand leaves the timer running: switched on again within its last
      60 ms, the supply drops during power-up while the flag says it is up, and the relay
      commands of the following ten seconds pulse without power. */
  lemma OffLeavesTimerRunning()
    ensures var h := Run(POWERED_UP, [On, Off, Idle(9950), On]);
      h.state && !h.pin && !PulsePowered(h) && !PulsePowered(Run(h, [Switch, Idle(9000)]))
  {
  }
}
