/** The alarm handler of the signal test, its counters over any number of alarms, and the
check that reads them.
*/
module Alarm {
  import opened Words

  const INTERRUPTED_RAW: nat := 0x200
  const KEY_EXPLICIT: u64 := 1

  /** Which hidden register an alarm is expected to find. */
  datatype Expectation = Nothing | Aarch64X20 | RiscvX20 | Aarch64D20 | RiscvF20 | Unknown

  datatype Snapshot = Snapshot(
    keyFlags: u64, key: u64, keySupported: u64, transitionFlags: u16, targetMode: u32,
    aarch64X20: u64, riscvX20: u64, aarch64D20: u64, riscvF20: u64)

  /** One delivery: where the handler's stack is and what the CPU exports. */
  datatype Delivery = Delivery(sp: u64, snapshot: Snapshot)

  datatype Settings = Settings(
    stackBase: u64, stackEnd: u64, keyFlags: u64, key: u64, mode: u32, expectation: Expectation, value: u64)

  datatype Counters = Counters(
    signals: nat, transitions: nat, transitionsBad: nat, snapshotsBad: nat, keysBad: nat, stacksBad: nat)

  predicate SnapshotMatches(x: Settings, s: Snapshot) {
    match x.expectation
    case Nothing => true
    case Aarch64X20 => s.aarch64X20 == x.value
    case RiscvX20 => s.riscvX20 == x.value
    case Aarch64D20 => s.aarch64D20 == x.value
    case RiscvF20 => s.riscvF20 == x.value
    case Unknown => false
  }

  /** The alarm interrupted raw code in the expected frontend. */
  predicate InExpectedMode(x: Settings, d: Delivery) {
    d.snapshot.transitionFlags / INTERRUPTED_RAW % 2 == 1 && d.snapshot.targetMode == x.mode
  }

  /** ... and found the hidden register as expected. */
  predicate Good(x: Settings, d: Delivery) {
    InExpectedMode(x, d) && SnapshotMatches(x, d.snapshot)
  }

  /** A good alarm is one that has the expected value in the register that is looked at; what
      the other three hold does not matter. */
  lemma OneRegisterCounts(x: Settings, d: Delivery, v: u64, w: u64)
    requires InExpectedMode(x, d)
    ensures var s := d.snapshot;
      && (x.expectation == Aarch64X20 ==>
          (v == x.value <==>
           Good(x, d.(snapshot := s.(aarch64X20 := v, riscvX20 := w, aarch64D20 := w, riscvF20 := w)))))
      && (x.expectation == RiscvX20 ==>
          (v == x.value <==>
           Good(x, d.(snapshot := s.(riscvX20 := v, aarch64X20 := w, aarch64D20 := w, riscvF20 := w)))))
      && (x.expectation == Aarch64D20 ==>
          (v == x.value <==>
           Good(x, d.(snapshot := s.(aarch64D20 := v, aarch64X20 := w, riscvX20 := w, riscvF20 := w)))))
      && (x.expectation == RiscvF20 ==>
          (v == x.value <==>
           Good(x, d.(snapshot := s.(riscvF20 := v, aarch64X20 := w, riscvX20 := w, aarch64D20 := w)))))
      && (x.expectation == Nothing ==> Good(x, d)) && (x.expectation == Unknown ==> !Good(x, d))
  {
  }

  /** The exported state carries the expected state key. */
  predicate HasKey(x: Settings, d: Delivery) {
    d.snapshot.keyFlags == x.keyFlags && d.snapshot.key == x.key && d.snapshot.keySupported == KEY_EXPLICIT
  }

  /** The handler runs on the alternate stack. */
  predicate OnAltStack(x: Settings, d: Delivery) {
    x.stackBase <= d.sp < x.stackEnd
  }

  /** How many deliveries satisfy a test. */
  function Count(ds: seq<Delivery>, test: Delivery -> bool): nat {
    if ds == [] then 0 else Count(ds[1..], test) + (if test(ds[0]) then 1 else 0)
  }

  function Handled(n: Counters, x: Settings, d: Delivery): Counters {
    var good := Good(x, d);
    Counters(
      n.signals + 1,
      n.transitions + (if good then 1 else 0),
      n.transitionsBad + (if good then 0 else 1),
      n.snapshotsBad + (if InExpectedMode(x, d) && !good then 1 else 0),
      n.keysBad + (if d.snapshot.keyFlags != x.keyFlags || d.snapshot.key != x.key
                      || d.snapshot.keySupported != KEY_EXPLICIT then 1 else 0),
      n.stacksBad + (if d.sp < x.stackBase || d.sp >= x.stackEnd then 1 else 0))
  }

  function HandledAll(n: Counters, x: Settings, ds: seq<Delivery>): Counters
    decreases ds
  {
    if ds == [] then n else HandledAll(Handled(n, x, ds[0]), x, ds[1..])
  }

  /** Over any deliveries the counters count what their names say, every delivery is either
      good or bad, and a wrong register is one kind of bad. */
  lemma {:induction false} CountersAdd(n: Counters, x: Settings, ds: seq<Delivery>)
    ensures var m := HandledAll(n, x, ds);
      && m.signals == n.signals + |ds|
      && m.transitions == n.transitions + Count(ds, d => Good(x, d))
      && m.transitionsBad == n.transitionsBad + |ds| - Count(ds, d => Good(x, d))
      && m.snapshotsBad == n.snapshotsBad + Count(ds, d => InExpectedMode(x, d)) - Count(ds, d => Good(x, d))
      && m.keysBad == n.keysBad + |ds| - Count(ds, d => HasKey(x, d))
      && m.stacksBad == n.stacksBad + |ds| - Count(ds, d => OnAltStack(x, d))
    decreases ds
  {
    hide Good, InExpectedMode, HasKey, OnAltStack, Handled;
    if ds != [] {
      CountersAdd(Handled(n, x, ds[0]), x, ds[1..]);
      HandledOne(n, x, ds[0]);
    }
  }

  lemma HandledOne(n: Counters, x: Settings, d: Delivery)
    ensures var m := Handled(n, x, d);
      && m.signals == n.signals + 1
      && m.transitions - n.transitions == (if Good(x, d) then 1 else 0)
      && m.transitionsBad - n.transitionsBad == (if Good(x, d) then 0 else 1)
      && m.snapshotsBad - n.snapshotsBad == (if InExpectedMode(x, d) then 1 else 0) - (if Good(x, d) then 1 else 0)
      && m.keysBad - n.keysBad == (if HasKey(x, d) then 0 else 1)
      && m.stacksBad - n.stacksBad == (if OnAltStack(x, d) then 0 else 1)
  {
    hide SnapshotMatches;
  }

  lemma {:induction false} CountAll(ds: seq<Delivery>, test: Delivery -> bool)
    ensures Count(ds, test) <= |ds|
    ensures Count(ds, test) == |ds| <==> forall k :: 0 <= k < |ds| ==> test(ds[k])
  {
    if ds != [] {
      CountAll(ds[1..], test);
      assert ds == [ds[0]] + ds[1..];
    }
  }

  /** Conservation: from counters that balance, every run leaves counters that balance. */
  lemma Conserved(n: Counters, x: Settings, ds: seq<Delivery>)
    requires n.signals == n.transitions + n.transitionsBad && n.snapshotsBad <= n.transitionsBad
    ensures var m := HandledAll(n, x, ds);
      m.signals == m.transitions + m.transitionsBad && m.snapshotsBad <= m.transitionsBad
  {
    hide Good, InExpectedMode;
    CountersAdd(n, x, ds);
    CountAll(ds, d => InExpectedMode(x, d));
  }

  /** One test of the program: what its alarms should find, and its alarms. */
  datatype Phase = Phase(settings: Settings, alarms: seq<Delivery>)

  function HandledPhases(n: Counters, phases: seq<Phase>): Counters
    decreases phases
  {
    if phases == [] then n
    else HandledPhases(HandledAll(n, phases[0].settings, phases[0].alarms), phases[1..])
  }

  predicate InOrder(p: Phase) {
    forall k :: 0 <= k < |p.alarms| ==> OnAltStack(p.settings, p.alarms[k]) && HasKey(p.settings, p.alarms[k])
  }

  lemma PhaseInOrder(n: Counters, p: Phase)
    ensures var m := HandledAll(n, p.settings, p.alarms);
      m.stacksBad == 0 && m.keysBad == 0 <==> n.stacksBad == 0 && n.keysBad == 0 && InOrder(p)
  {
    hide Good, InExpectedMode, HasKey, OnAltStack, HandledAll, Count;
    CountersAdd(n, p.settings, p.alarms);
    CountAll(p.alarms, d => HasKey(p.settings, d));
    CountAll(p.alarms, d => OnAltStack(p.settings, d));
  }

  /** The two checks at the end of the program: over all its tests, whatever each of them
      expects, both counters are still zero if and only if every alarm ran on the alternate
      stack and found the state key of its time. */
  lemma {:induction false} FinalChecks(n: Counters, phases: seq<Phase>)
    ensures var m := HandledPhases(n, phases);
      m.stacksBad == 0 && m.keysBad == 0 <==>
      n.stacksBad == 0 && n.keysBad == 0 && forall i :: 0 <= i < |phases| ==> InOrder(phases[i])
    decreases phases
  {
    hide InOrder, HandledAll;
    if phases != [] {
      PhaseInOrder(n, phases[0]);
      FinalChecks(HandledAll(n, phases[0].settings, phases[0].alarms), phases[1..]);
      assert phases == [phases[0]] + phases[1..];
    }
  }

  /** The result is right, at least one alarm landed, and every alarm found what it should. */
  predicate Passes(x: Settings, seed: u64, delta: u64, result: u64, alarms: seq<Delivery>) {
    result == Add64(seed, delta) && |alarms| > 0 && forall k :: 0 <= k < |alarms| ==> Good(x, alarms[k])
  }

  class AlarmState {
    var counters: Counters
    const settings: Settings

    constructor (settings: Settings)
      ensures this.settings == settings && counters == Counters(0, 0, 0, 0, 0, 0)
    {
      this.settings := settings;
      counters := Counters(0, 0, 0, 0, 0, 0);
    }

    method HandleAlarm(d: Delivery)
      modifies this`counters
      ensures counters == Handled(old(counters), settings, d)
    {
      if d.sp < settings.stackBase || d.sp >= settings.stackEnd {
        counters := counters.(stacksBad := counters.stacksBad + 1);
      }
      counters := counters.(signals := counters.signals + 1);
      if d.snapshot.keyFlags != settings.keyFlags || d.snapshot.key != settings.key
         || d.snapshot.keySupported != KEY_EXPLICIT {
        counters := counters.(keysBad := counters.keysBad + 1);
      }
      if InExpectedMode(settings, d) && SnapshotMatches(settings, d.snapshot) {
        counters := counters.(transitions := counters.transitions + 1);
      } else {
        if InExpectedMode(settings, d) {
          counters := counters.(snapshotsBad := counters.snapshotsBad + 1);
        }
        counters := counters.(transitionsBad := counters.transitionsBad + 1);
      }
    }

    /** `alarms` are the deliveries between arming the timer and the last look at the
        counters; `armed` and `result` come from the system call and the program run. */
    method CheckArch(seed: u64, delta: u64, armed: bool, result: u64, alarms: seq<Delivery>) returns (ok: bool)
      modifies this`counters
      ensures ok <==> armed && Passes(settings, seed, delta, result, alarms)
    {
      hide Good, HandledAll;
      var before := counters;
      if !armed {
        return false;
      }
      HandledNone(counters, settings);
      for n := 0 to |alarms|
        invariant counters == HandledAll(before, settings, alarms[..n])
      {
        HandledMore(before, settings, alarms[..n], alarms[n]);
        assert alarms[..n + 1] == alarms[..n] + [alarms[n]];
        HandleAlarm(alarms[n]);
      }
      assert alarms[..|alarms|] == alarms;
      CountersAdd(before, settings, alarms);
      CountAll(alarms, d => Good(settings, d));
      if result != Add64(seed, delta) {
        return false;
      }
      if counters.signals == before.signals {
        return false;
      }
      if counters.transitions == before.transitions || counters.transitionsBad != before.transitionsBad {
        return false;
      }
      return true;
    }
  }

  lemma HandledNone(n: Counters, x: Settings)
    ensures HandledAll(n, x, []) == n
  {
  }

  lemma {:induction false} HandledMore(n: Counters, x: Settings, ds: seq<Delivery>, d: Delivery)
    ensures HandledAll(n, x, ds + [d]) == Handled(HandledAll(n, x, ds), x, d)
    decreases ds
  {
    hide Handled;
    if ds == [] {
      assert ([d])[1..] == [];
    } else {
      assert (ds + [d])[1..] == ds[1..] + [d];
      HandledMore(Handled(n, x, ds[0]), x, ds[1..], d);
    }
  }

  /** Whenever the transition test passes, the separate test that a signal was delivered
      passes too. */
  lemma DeliveryIsImplied(n: Counters, x: Settings, ds: seq<Delivery>)
    ensures HandledAll(n, x, ds).transitions != n.transitions ==> HandledAll(n, x, ds).signals != n.signals
  {
    hide Good, InExpectedMode, HandledAll;
    CountersAdd(n, x, ds);
    CountAll(ds, d => Good(x, d));
  }
}
