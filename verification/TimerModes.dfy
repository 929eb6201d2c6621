/** The two modes of the local APIC timer as a state machine, interrupts included. */
module TimerModes {
  import opened Architecture
  import opened TimerMath

  const PM_FREQUENCY: nat := 3_579_545

  datatype Status =
    | Ok
    | ApicOffline
    | InterruptsEnabled
    | AlreadyCalibrated
    | NotCalibrated
    | AlreadyRunning
    | NotRunning
    | ReferenceFailure
    | BadRate(error: RateError)
    | BadFrequency
    | InterruptFailure
    | ReadbackMismatch
    | AlreadyArmed
    | NotArmed
    | BadInterval

  /** What the count register was last told to do. */
  datatype Counting = Stopped | Periodic(count: nat) | OneShot(count: nat)

  /** The interrupt registry's slot for the timer vector, the timer's flags and
      counters, and the history of arms and disarms. */
  datatype Timer = Timer(
    ready: bool, enabled: bool, online: bool, registered: bool,
    calibrated: bool, rate: nat, running: bool, oneshotReady: bool, armed: bool, handler: bool,
    counting: Counting, frequency: nat, ticks: nat, expiries: nat, arms: nat, disarms: nat)

  datatype Call =
    | Calibrate(pmPresent: bool, pmOk: bool, start: nat, end: nat, pmTicks: nat)
    | Start(frequency: nat, readback: bool)
    | Stop
    | SetHandler(install: bool)
    | Arm(nanoseconds: nat, readback: bool)
    | Disarm

  predicate InRange(c: Call) {
    match c
    case Calibrate(_, _, start, end, pmTicks) => start <= MAX_COUNT && end <= MAX_COUNT && pmTicks < WORD
    case Arm(nanoseconds, _) => nanoseconds < WORD
    case _ => true
  }

  // ----- the registry -----

  function Register(t: Timer): (Timer, bool) {
    if !t.ready || t.enabled || t.registered then (t, false) else (t.(registered := true), true)
  }

  function Unregister(t: Timer): (Timer, bool) {
    if !t.ready || t.enabled || !t.registered then (t, false) else (t.(registered := false), true)
  }

  // ----- the calls -----

  function DoCalibrate(t: Timer, c: Call): (Timer, Status)
    requires c.Calibrate? && InRange(c)
  {
    if !t.online then (t, ApicOffline)
    else if t.enabled then (t, InterruptsEnabled)
    else if t.calibrated then (t, AlreadyCalibrated)
    else if !c.pmPresent then (t, ReferenceFailure)
    else
      var s := t.(counting := Stopped);
      if !c.pmOk then (s, ReferenceFailure)
      else match RateFromCountdown(c.start, c.end, PM_FREQUENCY, c.pmTicks)
        case Failed(error) => (s, BadRate(error))
        case Measured(rate) => (s.(rate := rate, calibrated := true), Ok)
  }

  function DoStart(t: Timer, frequency: nat, readback: bool): (Timer, Status) {
    if !t.online then (t, ApicOffline)
    else if t.enabled then (t, InterruptsEnabled)
    else if !t.calibrated then (t, NotCalibrated)
    else if t.running then (t, AlreadyRunning)
    else if t.armed || t.oneshotReady then (t, AlreadyArmed)
    else match CountForFrequency(t.rate, frequency)
      case None => (t, Status.BadFrequency)
      case Some(count) =>
        var (s, registered) := Register(t);
        if !registered then (s, InterruptFailure)
        else if !readback then (Unregister(s.(ticks := 0, counting := Stopped)).0, ReadbackMismatch)
        else (s.(ticks := 0, counting := Periodic(count), frequency := frequency, running := true), Ok)
  }

  function DoStop(t: Timer): (Timer, Status) {
    if !t.running then (t, NotRunning)
    else if t.enabled then (t, InterruptsEnabled)
    else
      var (s, unregistered) := Unregister(t.(counting := Stopped));
      if !unregistered then (s, InterruptFailure) else (s.(running := false, frequency := 0), Ok)
  }

  function DoSetHandler(t: Timer, install: bool): (Timer, Status) {
    if t.enabled then (t, InterruptsEnabled)
    else if t.armed then (t, AlreadyArmed)
    else if install then
      if t.oneshotReady then (t.(handler := true), Ok)
      else
        var (s, registered) := Register(t);
        if !registered then (s, InterruptFailure) else (s.(oneshotReady := true, handler := true), Ok)
    else if !t.oneshotReady then (t.(handler := false), Ok)
    else
      var (s, unregistered) := Unregister(t.(counting := Stopped));
      if !unregistered then (s, InterruptFailure) else (s.(oneshotReady := false, handler := false), Ok)
  }

  function DoArm(t: Timer, nanoseconds: nat, readback: bool): (Timer, Status)
    requires nanoseconds < WORD && t.rate < WORD
  {
    if !t.online then (t, ApicOffline)
    else if t.enabled then (t, InterruptsEnabled)
    else if !t.calibrated then (t, NotCalibrated)
    else if t.running then (t, AlreadyRunning)
    else if t.armed then (t, AlreadyArmed)
    else if !t.oneshotReady then (t, InterruptFailure)
    else match CountForNanoseconds(t.rate, nanoseconds)
      case None => (t, BadInterval)
      case Some(count) =>
        if !readback then (t.(counting := Stopped), ReadbackMismatch)
        else (t.(armed := true, counting := OneShot(count), arms := t.arms + 1), Ok)
  }

  function DoDisarm(t: Timer): (Timer, Status) {
    if t.enabled then (t, InterruptsEnabled)
    else if !t.armed then (t, NotArmed)
    else (t.(armed := false, counting := Stopped, disarms := t.disarms + 1), Ok)
  }

  function Do(t: Timer, c: Call): (r: (Timer, Status))
    requires t.rate < WORD && InRange(c)
    ensures r.0.rate < WORD
  {
    match c
    case Calibrate(_, _, start, end, pmTicks) =>
      RateIsExact(start, end, PM_FREQUENCY, pmTicks);
      DoCalibrate(t, c)
    case Start(frequency, readback) => DoStart(t, frequency, readback)
    case Stop => DoStop(t)
    case SetHandler(install) => DoSetHandler(t, install)
    case Arm(nanoseconds, readback) => DoArm(t, nanoseconds, readback)
    case Disarm => DoDisarm(t)
  }

  function DoAll(t: Timer, calls: seq<Call>): (r: Timer)
    requires t.rate < WORD && forall i :: 0 <= i < |calls| ==> InRange(calls[i])
    ensures r.rate < WORD
    decreases |calls|
  {
    if calls == [] then t else Do(DoAll(t, calls[..|calls| - 1]), calls[|calls| - 1]).0
  }

  // ----- the interrupt -----

  /** Delivered only while interrupts are enabled and the vector is registered. The
      processor masks interrupts around it; an expiry runs the installed handler last,
      and the handler may make any calls it likes, arming again included. */
  function Interrupt(t: Timer, calls: seq<Call>): Timer
    requires t.rate < WORD && forall i :: 0 <= i < |calls| ==> InRange(calls[i])
  {
    if !t.enabled || !t.registered then t
    else
      var masked := t.(enabled := false, ticks := (t.ticks + 1) % WORD);
      if !t.armed then masked.(enabled := true)
      else
        var expired := masked.(armed := false, expiries := t.expiries + 1);
        (if t.handler then DoAll(expired, calls) else expired).(enabled := true)
  }

  // ----- whole runs -----

  datatype Event =
    | Called(call: Call)
    | Fired(calls: seq<Call>)
    | Mask(enabled: bool)
    | Online(online: bool)
    | InterruptsReady

  predicate Possible(e: Event) {
    match e
    case Called(c) => InRange(c)
    case Fired(calls) => forall i :: 0 <= i < |calls| ==> InRange(calls[i])
    case _ => true
  }

  function Step(t: Timer, e: Event): (r: Timer)
    requires t.rate < WORD && Possible(e)
    ensures r.rate < WORD
  {
    match e
    case Called(c) => Do(t, c).0
    case Fired(calls) => Interrupt(t, calls)
    case Mask(enabled) => t.(enabled := enabled)
    case Online(online) => t.(online := online)
    case InterruptsReady => t.(ready := true)
  }

  function Run(t: Timer, events: seq<Event>): (r: Timer)
    requires t.rate < WORD && forall i :: 0 <= i < |events| ==> Possible(events[i])
    ensures r.rate < WORD
    decreases |events|
  {
    if events == [] then t else Step(Run(t, events[..|events| - 1]), events[|events| - 1])
  }

  // ----- the invariant -----

  ghost predicate Valid(t: Timer) {
    && t.rate < WORD
    && !(t.running && t.oneshotReady)
    && (t.registered <==> t.running || t.oneshotReady)
    && (t.registered ==> t.ready)
    && (t.armed ==> t.oneshotReady && !t.running)
    && (t.handler <==> t.oneshotReady)
    && (t.running || t.armed ==> t.calibrated && t.rate > 0)
    && (t.running ==> t.counting.Periodic? && 1 <= t.counting.count <= MAX_COUNT)
    && (t.armed ==> t.counting.OneShot? && 1 <= t.counting.count <= MAX_COUNT)
    && t.arms == t.expiries + t.disarms + (if t.armed then 1 else 0)
  }

  lemma DoKeeps(t: Timer, c: Call)
    requires Valid(t) && InRange(c)
    ensures Valid(Do(t, c).0) && Do(t, c).0.enabled == t.enabled
  {
    hide CountForNanoseconds, RateFromCountdown, CountForFrequency;
    match c
    case Calibrate(_, _, start, end, pmTicks) =>
      RateIsExact(start, end, PM_FREQUENCY, pmTicks);
    case Start(frequency, _) => PeriodicCount(t.rate, frequency);
    case Arm(nanoseconds, _) => OneShotCount(t.rate, nanoseconds);
    case _ =>
  }

  lemma PeriodicCount(rate: nat, frequency: nat)
    ensures var c := CountForFrequency(rate, frequency);
      c.Some? ==> 1 <= c.value <= MAX_COUNT && rate > 0
  {
  }

  lemma OneShotCount(rate: nat, nanoseconds: nat)
    requires rate < WORD && nanoseconds < WORD
    ensures var c := CountForNanoseconds(rate, nanoseconds);
      c.Some? ==> 1 <= c.value <= MAX_COUNT && rate > 0
  {
  }

  lemma {:induction false} DoAllKeeps(t: Timer, calls: seq<Call>)
    requires Valid(t) && forall i :: 0 <= i < |calls| ==> InRange(calls[i])
    ensures Valid(DoAll(t, calls)) && DoAll(t, calls).enabled == t.enabled
    decreases |calls|
  {
    hide Valid, Do;
    RateBelow(t);
    if calls != [] {
      DoAllKeeps(t, calls[..|calls| - 1]);
      DoKeeps(DoAll(t, calls[..|calls| - 1]), calls[|calls| - 1]);
    }
  }

  lemma RateBelow(t: Timer)
    requires Valid(t)
    ensures t.rate < WORD
  {
  }

  lemma InterruptKeeps(t: Timer, calls: seq<Call>)
    requires Valid(t) && forall i :: 0 <= i < |calls| ==> InRange(calls[i])
    ensures Valid(Interrupt(t, calls))
  {
    hide DoAll;
    if t.enabled && t.registered && t.armed {
      var expired := t.(enabled := false, ticks := (t.ticks + 1) % WORD, armed := false, expiries := t.expiries + 1);
      DoAllKeeps(expired, calls);
    }
  }

  /** In every interleaving of calls, interrupts and handlers that call back: the
      vector is registered iff exactly one mode holds it, armed means one-shot and not
      running, and successful arms are expiries plus disarms plus the one pending. */
  lemma {:induction false} RunKeeps(t: Timer, events: seq<Event>)
    requires Valid(t) && forall i :: 0 <= i < |events| ==> Possible(events[i])
    ensures Valid(Run(t, events))
    decreases |events|
  {
    hide Do, DoAll, Interrupt;
    if events != [] {
      var n := |events| - 1;
      RunKeeps(t, events[..n]);
      var before := Run(t, events[..n]);
      match events[n]
      case Called(c) => DoKeeps(before, c);
      case Fired(calls) => InterruptKeeps(before, calls);
      case _ =>
    }
  }

  // ----- the answers -----

  /** Each refusal of a periodic start, exactly. */
  lemma StartAnswers(t: Timer, hertz: nat, readback: bool)
    requires Valid(t)
    ensures var s := DoStart(t, hertz, readback).1; var open := t.online && !t.enabled;
      && (s == ApicOffline <==> !t.online) && (s == InterruptsEnabled <==> t.online && t.enabled)
      && (s == NotCalibrated <==> open && !t.calibrated)
      && (s == AlreadyRunning <==> open && t.calibrated && t.running)
      && (s == AlreadyArmed <==> open && t.calibrated && t.oneshotReady)
      && var free := open && t.calibrated && !t.running && !t.oneshotReady;
         && (s == Status.BadFrequency <==> free && CountForFrequency(t.rate, hertz).None?)
         && (s == InterruptFailure <==> free && CountForFrequency(t.rate, hertz).Some? && !t.ready)
         && (s == ReadbackMismatch <==> free && CountForFrequency(t.rate, hertz).Some? && t.ready && !readback)
  {
    hide CountForFrequency;
  }

  /** Each refusal of an arm, exactly. */
  lemma ArmAnswers(t: Timer, nanoseconds: nat, readback: bool)
    requires Valid(t) && nanoseconds < WORD
    ensures var s := DoArm(t, nanoseconds, readback).1; var open := t.online && !t.enabled;
      && (s == ApicOffline <==> !t.online) && (s == InterruptsEnabled <==> t.online && t.enabled)
      && (s == NotCalibrated <==> open && !t.calibrated)
      && (s == AlreadyRunning <==> open && t.calibrated && t.running)
      && (s == AlreadyArmed <==> open && t.calibrated && t.armed)
      && (s == InterruptFailure <==> open && t.calibrated && !t.running && !t.oneshotReady)
      && var free := open && t.calibrated && t.oneshotReady && !t.armed;
         && (s == BadInterval <==> free && CountForNanoseconds(t.rate, nanoseconds).None?)
         && (s == ReadbackMismatch <==> free && CountForNanoseconds(t.rate, nanoseconds).Some? && !readback)
  {
    hide CountForNanoseconds;
  }

  /** Each refusal of the other calls, exactly. */
  lemma OtherAnswers(t: Timer, install: bool)
    requires Valid(t)
    ensures var s := DoStop(t).1;
      (s == NotRunning <==> !t.running) && (s == InterruptsEnabled <==> t.running && t.enabled) && s != InterruptFailure
    ensures var s := DoDisarm(t).1;
      (s == InterruptsEnabled <==> t.enabled) && (s == NotArmed <==> !t.enabled && !t.armed)
    ensures var s := DoSetHandler(t, install).1;
      && (s == InterruptsEnabled <==> t.enabled) && (s == AlreadyArmed <==> !t.enabled && t.armed)
      && (s == InterruptFailure <==> !t.enabled && install && !t.oneshotReady && (t.running || !t.ready))
  {
  }

  /** Each refusal of a calibration, exactly; a bad countdown says what was wrong with it. */
  lemma CalibrateAnswers(t: Timer, c: Call)
    requires Valid(t) && c.Calibrate? && InRange(c)
    ensures var s := DoCalibrate(t, c).1; var open := t.online && !t.enabled;
      && (s == ApicOffline <==> !t.online) && (s == InterruptsEnabled <==> t.online && t.enabled)
      && (s == AlreadyCalibrated <==> open && t.calibrated)
      && (s == ReferenceFailure <==> open && !t.calibrated && !(c.pmPresent && c.pmOk))
      && (s.BadRate? <==>
            && open && !t.calibrated && c.pmPresent && c.pmOk
            && !(0 < c.end < c.start && 0 < c.pmTicks <= (c.start - c.end) * PM_FREQUENCY))
  {
    RateIsExact(c.start, c.end, PM_FREQUENCY, c.pmTicks);
    hide RateFromCountdown;
  }

  /** Nothing registered, nothing running, nothing calibrated. */
  const BOOT := Timer(
    false, false, false, false, false, 0, false, false, false, false, Stopped, 0, 0, 0, 0, 0)

  /** So it holds in every state the timer can reach from boot. */
  lemma BootKeeps(events: seq<Event>)
    requires forall i :: 0 <= i < |events| ==> Possible(events[i])
    ensures Valid(Run(BOOT, events))
  {
    RunKeeps(BOOT, events);
  }

  /** A handler that arms the next deadline from inside the interrupt is served: the
      vector is still registered and the expired arm has already been cleared. */
  lemma RearmInsideHandler(t: Timer, nanoseconds: nat)
    requires Valid(t) && t.enabled && t.online && t.armed && nanoseconds < WORD
    requires CountForNanoseconds(t.rate, nanoseconds).Some?
    ensures var r := Interrupt(t, [Arm(nanoseconds, true)]);
      && r.armed && r.registered && r.oneshotReady
      && r.counting == OneShot(CountForNanoseconds(t.rate, nanoseconds).value)
      && r.expiries == t.expiries + 1 && r.arms == t.arms + 1
  {
    hide CountForNanoseconds;
    var calls := [Arm(nanoseconds, true)];
    var expired := t.(enabled := false, ticks := (t.ticks + 1) % WORD, armed := false, expiries := t.expiries + 1);
    assert calls[..0] == [];
    assert DoAll(expired, calls) == Do(expired, calls[0]).0;
  }

  // ----- both modes are reachable -----

  lemma RunNext(t: Timer, events: seq<Event>, e: Event)
    requires t.rate < WORD && (forall i :: 0 <= i < |events| ==> Possible(events[i])) && Possible(e)
    ensures Run(t, events + [e]) == Step(Run(t, events), e)
  {
    assert (events + [e])[..|events|] == events;
  }

  const SETUP: seq<Event> := [InterruptsReady] + [Online(true)] + [Called(Calibrate(true, true, 2, 1, 1))]

  lemma SetUp()
    ensures forall i :: 0 <= i < |SETUP| ==> Possible(SETUP[i])
    ensures Run(BOOT, SETUP) == BOOT.(ready := true, online := true, calibrated := true, rate := PM_FREQUENCY)
  {
    RunNext(BOOT, [], InterruptsReady);
    RunNext(BOOT, [InterruptsReady], Online(true));
    RunNext(BOOT, [InterruptsReady] + [Online(true)], Called(Calibrate(true, true, 2, 1, 1)));
  }

  /** From boot the periodic mode can be entered. */
  lemma PeriodicReachable() returns (events: seq<Event>)
    ensures forall i :: 0 <= i < |events| ==> Possible(events[i])
    ensures Run(BOOT, events).running
  {
    SetUp();
    events := SETUP + [Called(Start(100, true))];
    RunNext(BOOT, SETUP, Called(Start(100, true)));
  }

  lemma ArmedReachable() returns (events: seq<Event>)
    ensures forall i :: 0 <= i < |events| ==> Possible(events[i])
    ensures var r := Run(BOOT, events);
      r.armed && r.registered && r.online && r.rate == PM_FREQUENCY && r.expiries == 0 && r.arms == 1
  {
    SetUp();
    var installed := SETUP + [Called(SetHandler(true))];
    RunNext(BOOT, SETUP, Called(SetHandler(true)));
    events := installed + [Called(Arm(1_000_000, true))];
    RunNext(BOOT, installed, Called(Arm(1_000_000, true)));
  }

  /** So can the one-shot mode, and an expiry inside an interrupt then arms the next deadline. */
  lemma OneShotReachable() returns (events: seq<Event>)
    ensures forall i :: 0 <= i < |events| ==> Possible(events[i])
    ensures var r := Run(BOOT, events); r.armed && r.expiries == 1 && r.arms == 2
  {
    hide Run, Interrupt, CountForNanoseconds;
    var pending := ArmedReachable();
    var unmasked := pending + [Mask(true)];
    RunNext(BOOT, pending, Mask(true));
    BootKeeps(unmasked);
    Millisecond();
    RearmInsideHandler(Run(BOOT, unmasked), 1_000_000);
    events := unmasked + [Fired([Arm(1_000_000, true)])];
    RunNext(BOOT, unmasked, Fired([Arm(1_000_000, true)]));
  }

  lemma Millisecond()
    ensures CountForNanoseconds(PM_FREQUENCY, 1_000_000).Some?
  {
  }

  // ----- each mode is undone by its own call -----

  /** Starting and stopping, and arming and disarming, leave no more behind than the
      tick count, the stopped counter and the history. */
  lemma ModesUndo(t: Timer, hertz: nat, nanoseconds: nat)
    requires Valid(t) && nanoseconds < WORD
    ensures DoStart(t, hertz, true).1 == Ok ==>
      DoStop(DoStart(t, hertz, true).0) == (t.(ticks := 0, counting := Stopped, frequency := 0), Ok)
    ensures DoArm(t, nanoseconds, true).1 == Ok ==>
      DoDisarm(DoArm(t, nanoseconds, true).0) ==
        (t.(counting := Stopped, arms := t.arms + 1, disarms := t.disarms + 1), Ok)
    ensures DoSetHandler(t, true).1 == Ok && !t.oneshotReady ==>
      DoSetHandler(DoSetHandler(t, true).0, false) == (t.(counting := Stopped), Ok)
  {
    hide CountForNanoseconds, CountForFrequency;
  }

  // ----- the timer itself -----

  /** The driver's static state. Each method says when it succeeds, what it then changes,
      and what a refusal leaves alone; every one of them is the step the run theorems
      speak of. */
  class Driver {
    var ready: bool
    var enabled: bool
    var online: bool
    var registered: bool
    var calibrated: bool
    var rate: nat
    var running: bool
    var oneshotReady: bool
    var armed: bool
    var handler: bool
    var counting: Counting
    var frequency: nat
    var ticks: nat
    var expiries: nat
    ghost var arms: nat
    ghost var disarms: nat

    ghost function View(): Timer
      reads this
    {
      Timer(ready, enabled, online, registered, calibrated, rate, running, oneshotReady, armed, handler,
            counting, frequency, ticks, expiries, arms, disarms)
    }

    constructor ()
      ensures View() == BOOT && Valid(View())
    {
      ready, enabled, online, registered := false, false, false, false;
      calibrated, rate, running, oneshotReady, armed, handler := false, 0, false, false, false, false;
      counting, frequency, ticks, expiries, arms, disarms := Stopped, 0, 0, 0, 0, 0;
    }

    method RegisterVector() returns (ok: bool)
      modifies this`registered
      ensures ok <==> old(ready && !enabled && !registered)
      ensures registered == (ok || old(registered))
    {
      ok := ready && !enabled && !registered;
      if ok {
        registered := true;
      }
    }

    method UnregisterVector() returns (ok: bool)
      modifies this`registered
      ensures ok <==> old(ready && !enabled && registered)
      ensures registered == (!ok && old(registered))
    {
      ok := ready && !enabled && registered;
      if ok {
        registered := false;
      }
    }

    /** A rate is measured once, from a countdown that moved and did not run out. */
    method RunCalibration(pmPresent: bool, pmOk: bool, start: nat, end: nat, pmTicks: nat) returns (status: Status)
      requires Valid(View()) && InRange(Calibrate(pmPresent, pmOk, start, end, pmTicks))
      modifies this
      ensures Valid(View())
      ensures status == Ok <==>
        && old(online && !enabled && !calibrated) && pmPresent && pmOk
        && 0 < end < start && 0 < pmTicks <= (start - end) * PM_FREQUENCY
      ensures status == Ok ==>
        View() == old(View()).(calibrated := true, rate := (start - end) * PM_FREQUENCY / pmTicks, counting := Stopped)
      ensures status != Ok ==> View() == old(View()).(counting := counting)
      ensures (View(), status) == DoCalibrate(old(View()), Calibrate(pmPresent, pmOk, start, end, pmTicks))
    {
      RateIsExact(start, end, PM_FREQUENCY, pmTicks);
      hide RateFromCountdown;
      if !online { return ApicOffline; }
      if enabled { return Status.InterruptsEnabled; }
      if calibrated { return AlreadyCalibrated; }
      if !pmPresent { return ReferenceFailure; }
      counting := Stopped;
      if !pmOk { return ReferenceFailure; }
      var measured := RateFromCountdown(start, end, PM_FREQUENCY, pmTicks);
      if measured.Failed? { return BadRate(measured.error); }
      rate := measured.rate;
      calibrated := true;
      return Ok;
    }

    /** Periodic mode takes the vector, and only while nobody holds it. */
    method StartPeriodic(hertz: nat, readback: bool) returns (status: Status)
      requires Valid(View())
      modifies this
      ensures Valid(View())
      ensures status == Ok <==>
        && old(online && !enabled && calibrated && ready && !registered) && readback
        && CountForFrequency(rate, hertz).Some?
      ensures status == Ok ==>
        && counting.Periodic? && IsPeriod(rate, hertz, counting.count)
        && View() == old(View()).(
             registered := true, running := true, ticks := 0, frequency := hertz, counting := counting)
      ensures status == ReadbackMismatch ==> View() == old(View()).(ticks := 0, counting := Stopped)
      ensures status !in {Ok, ReadbackMismatch} ==> View() == old(View())
      ensures (View(), status) == DoStart(old(View()), hertz, readback)
    {
      if CountForFrequency(rate, hertz).Some? {
        PeriodicIsExact(rate, hertz, CountForFrequency(rate, hertz).value);
      }
      hide CountForFrequency;
      if !online { return ApicOffline; }
      if enabled { return Status.InterruptsEnabled; }
      if !calibrated { return NotCalibrated; }
      if running { return AlreadyRunning; }
      if armed || oneshotReady { return AlreadyArmed; }
      var count := CountForFrequency(rate, hertz);
      if count.None? { return Status.BadFrequency; }
      var ok := RegisterVector();
      if !ok { return InterruptFailure; }
      ticks := 0;
      if !readback {
        counting := Stopped;
        var _ := UnregisterVector();
        return ReadbackMismatch;
      }
      counting := Periodic(count.value);
      frequency := hertz;
      running := true;
      return Ok;
    }

    /** Stopping a running timer cannot fail once interrupts are masked. */
    method StopPeriodic() returns (status: Status)
      requires Valid(View())
      modifies this
      ensures Valid(View())
      ensures status == Ok <==> old(running && !enabled)
      ensures status == Ok ==>
        View() == old(View()).(registered := false, running := false, frequency := 0, counting := Stopped)
      ensures status != Ok ==> View() == old(View())
      ensures (View(), status) == DoStop(old(View()))
    {
      if !running { return NotRunning; }
      if enabled { return Status.InterruptsEnabled; }
      counting := Stopped;
      var ok := UnregisterVector();
      if !ok { return InterruptFailure; }
      running := false;
      frequency := 0;
      return Ok;
    }

    /** Installing a handler takes the vector for one-shot use; removing it gives it back. */
    method SetExpiryHandler(install: bool) returns (status: Status)
      requires Valid(View())
      modifies this
      ensures Valid(View())
      ensures status == Ok <==>
        old(!enabled && !armed) && (install ==> old(oneshotReady || (ready && !running)))
      ensures status == Ok ==> View() == old(View()).(
        oneshotReady := install, handler := install, registered := install || running, counting := counting)
      ensures status == Ok ==> counting == if old(oneshotReady) && !install then Stopped else old(counting)
      ensures status != Ok ==> View() == old(View())
      ensures (View(), status) == DoSetHandler(old(View()), install)
    {
      if enabled { return Status.InterruptsEnabled; }
      if armed { return AlreadyArmed; }
      if install {
        if !oneshotReady {
          var ok := RegisterVector();
          if !ok { return InterruptFailure; }
          oneshotReady := true;
        }
        handler := true;
        return Ok;
      }
      if oneshotReady {
        counting := Stopped;
        var ok := UnregisterVector();
        if !ok { return InterruptFailure; }
        oneshotReady := false;
      }
      handler := false;
      return Ok;
    }

    /** A deadline is armed with the exact count of its interval, unless the conversion wrapped. */
    method ArmOneShot(nanoseconds: nat, readback: bool) returns (status: Status)
      requires Valid(View()) && nanoseconds < WORD
      modifies this
      ensures Valid(View())
      ensures status == Ok <==>
        && old(online && !enabled && calibrated && oneshotReady && !armed) && readback
        && CountForNanoseconds(rate, nanoseconds).Some?
      ensures status == Ok ==>
        && counting.OneShot? && (Fits(rate, nanoseconds) ==> counting.count == nanoseconds * rate / SECOND)
        && View() == old(View()).(armed := true, arms := old(arms) + 1, counting := counting)
      ensures status == ReadbackMismatch ==> View() == old(View()).(counting := Stopped)
      ensures status !in {Ok, ReadbackMismatch} ==> View() == old(View())
      ensures (View(), status) == DoArm(old(View()), nanoseconds, readback)
    {
      if Fits(rate, nanoseconds) { ExactWhenFits(rate, nanoseconds); }
      hide CountForNanoseconds, Fits;
      if !online { return ApicOffline; }
      if enabled { return Status.InterruptsEnabled; }
      if !calibrated { return NotCalibrated; }
      if running { return AlreadyRunning; }
      if armed { return AlreadyArmed; }
      if !oneshotReady { return InterruptFailure; }
      var count := CountForNanoseconds(rate, nanoseconds);
      if count.None? { return BadInterval; }
      OneShotCount(rate, nanoseconds);
      if !readback {
        counting := Stopped;
        return ReadbackMismatch;
      }
      armed := true;
      arms := arms + 1;
      counting := OneShot(count.value);
      return Ok;
    }

    method DisarmOneShot() returns (status: Status)
      requires Valid(View())
      modifies this
      ensures Valid(View())
      ensures status == Ok <==> old(armed && !enabled)
      ensures status == Ok ==> View() == old(View()).(armed := false, disarms := old(disarms) + 1, counting := Stopped)
      ensures status != Ok ==> View() == old(View())
      ensures (View(), status) == DoDisarm(old(View()))
    {
      if enabled { return Status.InterruptsEnabled; }
      if !armed { return NotArmed; }
      armed := false;
      disarms := disarms + 1;
      counting := Stopped;
      return Ok;
    }

    method Dispatch(c: Call) returns (status: Status)
      requires Valid(View()) && InRange(c)
      modifies this
      ensures (View(), status) == Do(old(View()), c)
      ensures Valid(View())
    {
      hide DoCalibrate, DoStart, DoStop, DoSetHandler, DoArm, DoDisarm, Valid, CountForFrequency, CountForNanoseconds;
      match c
      case Calibrate(pmPresent, pmOk, start, end, pmTicks) =>
        status := RunCalibration(pmPresent, pmOk, start, end, pmTicks);
      case Start(hertz, readback) => status := StartPeriodic(hertz, readback);
      case Stop => status := StopPeriodic();
      case SetHandler(install) => status := SetExpiryHandler(install);
      case Arm(nanoseconds, readback) => status := ArmOneShot(nanoseconds, readback);
      case Disarm => status := DisarmOneShot();
    }

    /** What the expiry handler does: any calls, one after the other. */
    method RunHandler(calls: seq<Call>)
      requires Valid(View()) && forall i :: 0 <= i < |calls| ==> InRange(calls[i])
      modifies this
      ensures Valid(View()) && View() == DoAll(old(View()), calls)
    {
      hide Do, Valid;
      RateBelow(View());
      ghost var before := View();
      var k := 0;
      while k < |calls|
        invariant k <= |calls|
        invariant Valid(View())
        invariant View() == DoAll(before, calls[..k])
      {
        assert calls[..k + 1][..k] == calls[..k];
        var _ := Dispatch(calls[k]);
        k := k + 1;
      }
      assert calls[..k] == calls;
    }

    /** The interrupt: disarm, count, and only then run the handler. */
    method HandleInterrupt(calls: seq<Call>)
      requires Valid(View()) && enabled && registered
      requires forall i :: 0 <= i < |calls| ==> InRange(calls[i])
      modifies this
      ensures Valid(View()) && enabled
      ensures old(armed) ==> expiries == old(expiries) + 1
      ensures !old(armed) ==> View() == old(View()).(ticks := (old(ticks) + 1) % WORD)
      ensures View() == Interrupt(old(View()), calls)
    {
      hide DoAll;
      InterruptKeeps(View(), calls);
      enabled := false;
      ticks := (ticks + 1) % WORD;
      if armed {
        armed := false;
        expiries := expiries + 1;
        DoAllCounts(View(), calls);
        if handler {
          RunHandler(calls);
        }
      }
      enabled := true;
    }

    /** Whatever happens to the timer, one event at a time. */
    method Handle(e: Event)
      requires Valid(View()) && Possible(e)
      modifies this
      ensures Valid(View()) && View() == Step(old(View()), e)
    {
      hide Do, Interrupt, DoAll;
      match e
      case Called(c) => var _ := Dispatch(c);
      case Fired(calls) =>
        IdleInterrupt(View(), calls);
        if enabled && registered {
          HandleInterrupt(calls);
        }
      case Mask(mask) => enabled := mask;
      case Online(available) => online := available;
      case InterruptsReady => ready := true;
    }

    /** From any valid state, boot included, the driver follows the run exactly. */
    method Live(events: seq<Event>)
      requires Valid(View()) && forall i :: 0 <= i < |events| ==> Possible(events[i])
      modifies this
      ensures Valid(View()) && View() == Run(old(View()), events)
    {
      hide Step, Valid, Possible;
      RateBelow(View());
      ghost var before := View();
      var k := 0;
      while k < |events|
        invariant k <= |events|
        invariant Valid(View())
        invariant View() == Run(before, events[..k])
      {
        assert events[..k + 1][..k] == events[..k];
        Handle(events[k]);
        k := k + 1;
      }
      assert events[..k] == events;
    }
  }

  /** Only the interrupt counts expiries. */
  lemma DoCounts(t: Timer, c: Call)
    requires t.rate < WORD && InRange(c)
    ensures Do(t, c).0.expiries == t.expiries
  {
    hide CountForNanoseconds, RateFromCountdown, CountForFrequency;
    match c
    case Calibrate(_, _, _, _, _) => assert DoCalibrate(t, c).0.expiries == t.expiries;
    case Start(hertz, readback) => assert DoStart(t, hertz, readback).0.expiries == t.expiries;
    case Stop => assert DoStop(t).0.expiries == t.expiries;
    case SetHandler(install) => assert DoSetHandler(t, install).0.expiries == t.expiries;
    case Arm(nanoseconds, readback) => assert DoArm(t, nanoseconds, readback).0.expiries == t.expiries;
    case Disarm => assert DoDisarm(t).0.expiries == t.expiries;
  }

  lemma {:induction false} DoAllCounts(t: Timer, calls: seq<Call>)
    requires t.rate < WORD && forall i :: 0 <= i < |calls| ==> InRange(calls[i])
    ensures DoAll(t, calls).expiries == t.expiries
    decreases |calls|
  {
    hide Do;
    if calls != [] {
      var n := |calls| - 1;
      DoAllCounts(t, calls[..n]);
      DoCounts(DoAll(t, calls[..n]), calls[n]);
    }
  }

  lemma IdleInterrupt(t: Timer, calls: seq<Call>)
    requires t.rate < WORD && forall i :: 0 <= i < |calls| ==> InRange(calls[i])
    ensures !(t.enabled && t.registered) ==> Interrupt(t, calls) == t
  {
  }
}
