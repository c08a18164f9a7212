/**
 Crash-loop detection and daemon lifetime of the injector
 (ZygoteAbiManager in loader/src/ptracer/zygote_abi.cpp). Time is CLOCK_MONOTONIC
 in whole seconds.
 */
module CrashLoopCounter {
  import InitMonitor

  type Preparation = InitMonitor.Preparation

  const CRASH_LOOP_RETRY_COUNT: nat := 5
  const CRASH_LOOP_WINDOW_SECONDS: nat := 30

  /** `starts` is history: the counted zygote starts since the last successful injection. */
  datatype Manager = Manager(injected: bool, daemonPid: int, daemonRunning: bool, supported: bool,
                             count: nat, lastStart: nat, starts: seq<nat>)

  datatype Event =
    | Injected
    | ZygoteStarts(now: nat, forked: int)   // check_and_prepare_injection; `forked` is what fork() returns
    | DaemonExits(pid: int)
    | DaemonCrashed                          // the daemon reports an error over the socket

  function OnInjected(m: Manager): Manager {
    m.(injected := true, count := 0, lastStart := 0, starts := [])
  }

  function Counted(m: Manager, now: nat): Manager {
    if m.injected then
      m.(count := if now - m.lastStart < CRASH_LOOP_WINDOW_SECONDS then m.count + 1 else 1,
         lastStart := now, starts := m.starts + [now])
    else m
  }

  function WithDaemon(m: Manager, forked: int): Manager {
    if m.daemonPid != -1 then m
    else if forked < 0 then m.(injected := false)
    else m.(injected := false, supported := true, daemonPid := forked, daemonRunning := true)
  }

  function OnStart(m: Manager, now: nat, forked: int): (Manager, Preparation) {
    var c := Counted(m, now);
    if c.count >= CRASH_LOOP_RETRY_COUNT then (c, InitMonitor.CrashLoop)
    else
      var d := WithDaemon(c, forked);
      (d, if d.daemonRunning && (c.daemonPid != -1 || forked >= 0) then InitMonitor.Tracer else InitMonitor.NoDaemon)
  }

  function Step(m: Manager, e: Event): Manager {
    match e
    case Injected => OnInjected(m)
    case ZygoteStarts(now, forked) => OnStart(m, now, forked).0
    case DaemonExits(pid) => if m.supported && pid == m.daemonPid then m.(daemonRunning := false, daemonPid := -1) else m
    case DaemonCrashed => m.(daemonRunning := false)
  }

  /** The length of the current run: how many last starts each follow the one before within the window. */
  function RunLength(starts: seq<nat>): nat {
    if |starts| <= 1 then |starts|
    else if starts[|starts| - 1] - starts[|starts| - 2] < CRASH_LOOP_WINDOW_SECONDS then 1 + RunLength(starts[..|starts| - 1])
    else 1
  }

  /** The counter is the run length of the recorded starts; a full counter keeps the injection flag. */
  predicate Valid(m: Manager) {
    m.count == RunLength(m.starts) &&
    (m.starts != [] ==> m.lastStart == m.starts[|m.starts| - 1]) &&
    (m.starts == [] ==> m.lastStart == 0) &&
    (m.count >= CRASH_LOOP_RETRY_COUNT ==> m.injected)
  }

  /** The clock does not run backwards. */
  predicate NotBefore(m: Manager, e: Event) {
    e.ZygoteStarts? ==> e.now >= m.lastStart
  }

  lemma RunLengthAppend(starts: seq<nat>, now: nat)
    ensures RunLength(starts + [now]) ==
            if starts != [] && now - starts[|starts| - 1] < CRASH_LOOP_WINDOW_SECONDS then 1 + RunLength(starts) else 1
  {
    assert (starts + [now])[..|starts|] == starts;
  }

  lemma ValidStep(m: Manager, e: Event)
    requires Valid(m) && NotBefore(m, e)
    ensures Valid(Step(m, e))
  {
    hide RunLength;
    NoRun();
    if e.ZygoteStarts? {
      RunLengthAppend(m.starts, e.now);
    }
  }

  lemma NoRun()
    ensures RunLength([]) == 0
  {
  }

  /** A loop is reported exactly when the current run of counted starts has reached five. */
  lemma ReportedExactlyWhen(m: Manager, now: nat, forked: int)
    requires Valid(m) && now >= m.lastStart
    ensures OnStart(m, now, forked).1.CrashLoop? <==>
            RunLength(if m.injected then m.starts + [now] else m.starts) >= CRASH_LOOP_RETRY_COUNT
    ensures OnStart(m, now, forked).1.CrashLoop? ==> m.injected
  {
    RunLengthAppend(m.starts, now);
  }

  /** The last `n` starts of a run of length at least `n` are `n - 1` short gaps apart. */
  lemma {:induction false} RunSpan(starts: seq<nat>, n: nat)
    requires 1 <= n <= RunLength(starts)
    ensures n <= |starts| && starts[|starts| - 1] - starts[|starts| - n] <= (n - 1) * (CRASH_LOOP_WINDOW_SECONDS - 1)
  {
    if n > 1 {
      RunSpan(starts[..|starts| - 1], n - 1);
    }
  }

  /** The five starts that trigger a report span at most 116 seconds. */
  lemma ReportSpan(m: Manager, now: nat, forked: int)
    requires Valid(m) && now >= m.lastStart && OnStart(m, now, forked).1.CrashLoop?
    ensures var s := OnStart(m, now, forked).0.starts; |s| >= 5 && s[|s| - 1] == now && now - s[|s| - 5] <= 116
  {
    ReportedExactlyWhen(m, now, forked);
    RunSpan(m.starts + [now], 5);
  }

  // --- Whole runs ---------------------------------------------------------------------------------

  function Run(m: Manager, events: seq<Event>): Manager
    decreases |events|
  {
    if events == [] then m else Run(Step(m, events[0]), events[1..])
  }

  predicate InOrder(m: Manager, events: seq<Event>)
    decreases |events|
  {
    events == [] || (NotBefore(m, events[0]) && InOrder(Step(m, events[0]), events[1..]))
  }

  lemma {:induction false} ValidRun(m: Manager, events: seq<Event>)
    requires Valid(m) && InOrder(m, events)
    ensures Valid(Run(m, events))
    decreases |events|
  {
    hide Valid, Step, NotBefore;
    if events != [] {
      ValidStep(m, events[0]);
      ValidRun(Step(m, events[0]), events[1..]);
    }
  }

  /** Between every two zygote starts the device reports an injection; `since` when it has since the last start. */
  predicate InjectsBetweenStarts(events: seq<Event>, since: bool)
    decreases |events|
  {
    events == [] ||
    match events[0]
    case ZygoteStarts(_, _) => since && InjectsBetweenStarts(events[1..], false)
    case Injected => InjectsBetweenStarts(events[1..], true)
    case _ => InjectsBetweenStarts(events[1..], since)
  }

  /** Such a device never reaches a count of two, however fast its zygotes follow each other. */
  lemma {:induction false} HealthyDeviceNeverCountsTwo(m: Manager, events: seq<Event>, since: bool)
    requires InjectsBetweenStarts(events, since) && m.count <= (if since then 0 else 1)
    ensures Run(m, events).count <= 1
    decreases |events|
  {
    if events != [] {
      var e := events[0];
      HealthyDeviceNeverCountsTwo(Step(m, e), events[1..], e.Injected? || (since && !e.ZygoteStarts?));
    }
  }

  predicate NoInjection(events: seq<Event>) {
    forall i :: 0 <= i < |events| ==> !events[i].Injected?
  }

  /**
   A start that finds the daemon dead is the last one counted until the next
   injection: from then on no run gets any longer.
   */
  lemma {:induction false} UncountedWithoutInjection(m: Manager, events: seq<Event>)
    requires !m.injected && NoInjection(events)
    ensures !Run(m, events).injected && Run(m, events).starts == m.starts && Run(m, events).count == m.count
    decreases |events|
  {
    if events != [] {
      UncountedWithoutInjection(Step(m, events[0]), events[1..]);
    }
  }

  lemma DeadDaemonStopsCounting(m: Manager, now: nat, forked: int, events: seq<Event>)
    requires Valid(m) && now >= m.lastStart && m.daemonPid == -1 && !OnStart(m, now, forked).1.CrashLoop? && NoInjection(events)
    ensures Run(OnStart(m, now, forked).0, events).starts == OnStart(m, now, forked).0.starts
  {
    UncountedWithoutInjection(OnStart(m, now, forked).0, events);
  }

  /** The times of the zygote starts. */
  function Starts(events: seq<Event>): seq<nat> {
    if events == [] then []
    else StartOf(events[0]) + Starts(events[1..])
  }

  function StartOf(e: Event): seq<nat> {
    if e.ZygoteStarts? then [e.now] else []
  }

  predicate EveryStartCounts(m: Manager, events: seq<Event>) {
    Run(m, events).starts == m.starts + Starts(events)
  }

  /** Every start but the last finds a daemon, or is reported as a crash loop. */
  predicate DaemonAtEarlierStarts(m: Manager, events: seq<Event>)
    decreases |events|
  {
    events == [] ||
    ((events[0].ZygoteStarts? && Starts(events[1..]) != [] ==>
        m.daemonPid != -1 || OnStart(m, events[0].now, events[0].forked).1.CrashLoop?) &&
     DaemonAtEarlierStarts(Step(m, events[0]), events[1..]))
  }

  lemma {:induction false} LastStartIsFree(m: Manager, events: seq<Event>)
    requires Starts(events) == []
    ensures DaemonAtEarlierStarts(m, events)
    decreases |events|
  {
    if events != [] {
      LastStartIsFree(Step(m, events[0]), events[1..]);
    }
  }

  /**
   While no zygote reports an injection, every start counts exactly when each one
   before the last found a daemon, dead or alive, that had not been reaped, or was
   reported itself.
   */
  lemma {:induction false} EveryStartCountsExactlyWhen(m: Manager, events: seq<Event>)
    requires m.injected && NoInjection(events)
    ensures EveryStartCounts(m, events) <==> DaemonAtEarlierStarts(m, events)
    decreases |events|
  {
    hide Step, OnStart, EveryStartCounts;
    if events == [] {
      assert EveryStartCounts(m, []) by {
        NothingStarted(m);
      }
    } else {
      var next := Step(m, events[0]);
      CountedStart(m, events[0]);
      CountsLater(m, events);
      if next.injected {
        EveryStartCountsExactlyWhen(next, events[1..]);
      } else {
        UncountedStarts(next, events[1..]);
        if Starts(events[1..]) == [] {
          LastStartIsFree(next, events[1..]);
        }
      }
    }
  }

  lemma NothingStarted(m: Manager)
    ensures EveryStartCounts(m, [])
  {
    assert m.starts + [] == m.starts;
  }

  /** What an event does to the recorded starts and to the flag while the flag is set. */
  lemma CountedStart(m: Manager, e: Event)
    requires m.injected && !e.Injected?
    ensures Step(m, e).starts == m.starts + StartOf(e)
    ensures Step(m, e).injected <==>
              (e.ZygoteStarts? ==> m.daemonPid != -1 || OnStart(m, e.now, e.forked).1.CrashLoop?)
  {
  }

  lemma CountsLater(m: Manager, events: seq<Event>)
    requires events != [] && Step(m, events[0]).starts == m.starts + StartOf(events[0])
    ensures EveryStartCounts(m, events) <==> EveryStartCounts(Step(m, events[0]), events[1..])
  {
    hide Step, StartOf;
    var b, c := StartOf(events[0]), Starts(events[1..]);
    assert m.starts + (b + c) == (m.starts + b) + c;
  }

  lemma UncountedStarts(m: Manager, events: seq<Event>)
    requires !m.injected && NoInjection(events)
    ensures EveryStartCounts(m, events) <==> Starts(events) == []
  {
    hide Starts, Run;
    UncountedWithoutInjection(m, events);
    assert |m.starts + Starts(events)| == |m.starts| + |Starts(events)|;
  }

  // --- When a start is prepared -----------------------------------------------------------------

  /** This start forks a daemon. */
  predicate Forks(m: Manager, e: Event) {
    e.ZygoteStarts? && m.daemonPid == -1 && e.forked >= 0 && !OnStart(m, e.now, e.forked).1.CrashLoop?
  }

  /** The daemon forked last has reported an error since; `already` when it had before the run. */
  predicate CrashedSinceFork(m: Manager, events: seq<Event>, already: bool)
    decreases |events|
  {
    if events == [] then already
    else CrashedSinceFork(Step(m, events[0]), events[1..], (already && !Forks(m, events[0])) || events[0].DaemonCrashed?)
  }

  /** A recorded daemon is taken to be running exactly while it has reported no error. */
  predicate Tracked(m: Manager, crashed: bool) {
    (m.daemonPid != -1 ==> m.supported && (m.daemonRunning <==> !crashed)) && (m.daemonPid == -1 ==> !m.daemonRunning)
  }

  lemma TrackedStep(m: Manager, e: Event, crashed: bool)
    requires Tracked(m, crashed)
    ensures Tracked(Step(m, e), (crashed && !Forks(m, e)) || e.DaemonCrashed?)
  {
  }

  lemma {:induction false} TrackedRun(m: Manager, events: seq<Event>, crashed: bool)
    requires Tracked(m, crashed)
    ensures Tracked(Run(m, events), CrashedSinceFork(m, events, crashed))
    decreases |events|
  {
    hide Tracked, Step, Forks;
    if events != [] {
      TrackedStep(m, events[0], crashed);
      TrackedRun(Step(m, events[0]), events[1..], (crashed && !Forks(m, events[0])) || events[0].DaemonCrashed?);
    }
  }

  /**
   After any run that begins without a daemon a zygote start is prepared exactly when
   it is no crash loop and either there is no daemon and one can be forked, or the
   recorded daemon has reported no error since it was forked.
   */
  lemma PreparedExactlyWhen(m: Manager, events: seq<Event>, now: nat, forked: int)
    requires m.daemonPid == -1 && !m.daemonRunning
    ensures var n := Run(m, events);
            OnStart(n, now, forked).1.Tracer? <==>
            !OnStart(n, now, forked).1.CrashLoop? &&
            if n.daemonPid == -1 then forked >= 0 else !CrashedSinceFork(m, events, false)
  {
    TrackedRun(m, events, false);
  }

  /**
   Once the recorded daemon has reported an error, every start is refused until that
   daemon's exit is reaped, however often the zygote starts.
   */
  lemma {:induction false} RefusedUntilExit(m: Manager, events: seq<Event>, now: nat, forked: int)
    requires m.daemonPid != -1 && !m.daemonRunning
    requires forall i :: 0 <= i < |events| ==> events[i] != DaemonExits(m.daemonPid)
    ensures !OnStart(Run(m, events), now, forked).1.Tracer? && Run(m, events).daemonPid == m.daemonPid
    decreases |events|
  {
    if events != [] {
      RefusedUntilExit(Step(m, events[0]), events[1..], now, forked);
    }
  }

  // --- The manager itself ----------------------------------------------------------------------------

  class ZygoteAbiManager {
    var injected: bool
    var daemonPid: int
    var daemonRunning: bool
    var supported: bool
    var count: nat
    var lastStart: nat
    ghost var starts: seq<nat>

    ghost function View(): Manager
      reads this
    {
      Manager(injected, daemonPid, daemonRunning, supported, count, lastStart, starts)
    }

    constructor ()
      ensures Valid(View())
    {
      injected, daemonPid, daemonRunning, supported := false, -1, false, false;
      count, lastStart, starts := 0, 0, [];
    }

    method NotifyInjected()
      modifies this
      ensures View() == OnInjected(old(View()))
    {
      injected := true;
      count := 0;
      lastStart := 0;
      starts := [];
    }

    method IsInCrashLoop(now: nat) returns (looping: bool)
      modifies this
      ensures View() == Counted(old(View()), now)
      ensures looping <==> count >= CRASH_LOOP_RETRY_COUNT
    {
      if injected {
        if now - lastStart < CRASH_LOOP_WINDOW_SECONDS {
          count := count + 1;
        } else {
          count := 1;
        }
        lastStart := now;
        starts := starts + [now];
      }
      return count >= CRASH_LOOP_RETRY_COUNT;
    }

    method EnsureDaemonCreated(forked: int) returns (ok: bool)
      modifies this
      ensures View() == WithDaemon(old(View()), forked)
      ensures ok <==> daemonRunning && (old(daemonPid) != -1 || forked >= 0)
    {
      if daemonPid == -1 {
        injected := false;
        if forked < 0 {
          return false;
        }
        supported := true;
        daemonPid := forked;
        daemonRunning := true;
      }
      return daemonRunning;
    }

    method CheckAndPrepareInjection(now: nat, forked: int) returns (p: Preparation)
      requires Valid(View()) && now >= lastStart
      modifies this
      ensures Valid(View()) && (View(), p) == OnStart(old(View()), now, forked)
    {
      ValidStep(View(), ZygoteStarts(now, forked));
      var looping := IsInCrashLoop(now);
      if looping {
        return InitMonitor.CrashLoop;
      }
      var ok := EnsureDaemonCreated(forked);
      return if ok then InitMonitor.Tracer else InitMonitor.NoDaemon;
    }

    method HandleDaemonExitIfMatch(pid: int) returns (matched: bool)
      modifies this
      ensures View() == Step(old(View()), DaemonExits(pid))
      ensures matched <==> old(supported) && pid == old(daemonPid)
    {
      if supported && pid == daemonPid {
        daemonRunning := false;
        daemonPid := -1;
        return true;
      }
      return false;
    }
  }
}
