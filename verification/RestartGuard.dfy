/**
 The hot-plug circuit breaker (zygiskd/src/zygiskd.rs): the restart guard file
 across kernel boots, re-evaluated at every daemon start, moved on by every
 SystemServerStarted event and cleared by the 30-second stability check.
 Each of the three is one atomic step.
 */
module RestartGuard {
  import opened Options

  /** The stage field; anything else a file may hold is `Unknown`. */
  datatype Stage = Rebooting | Confirming | Observing | Unknown

  /** The third field: absent, empty, a decimal number (the form of v1.0.6), or a boot id. */
  datatype BootField = Missing | Empty | Legacy | Boot(id: nat)

  /** The fields of the guard file. `validName` is valid_module_id of the second one. */
  datatype Guard = Guard(stage: Stage, validName: bool, boot: BootField, pid: Option<nat>)

  /** A sleeping stability check: the guard text it expects to find. */
  datatype Check = Check(boot: nat, pid: nat)

  datatype State = State(boot: nat, server: Option<nat>, guard: Option<Guard>, checks: seq<Check>,
                         plugged: bool, crashBlocked: bool, restarted: bool)

  datatype Step =
    | DaemonStart(bootReadable: bool)
    | SystemServerStarted(bootReadable: bool)
    | StabilityCheck(k: nat)
    | ServerChanges(pid: Option<nat>)
    | Reboot

  function Unplug(s: State): State {
    s.(plugged := false, crashBlocked := true, guard := None)
  }

  /** resolve_stale_restart_guard. */
  function Resolve(s: State, bootReadable: bool): State {
    if s.guard.None? || !bootReadable then s
    else
      var g := s.guard.value;
      if !g.validName then s.(guard := None)
      else if !g.boot.Boot? then s.(guard := None, restarted := false)
      else
        match g.stage
        case Rebooting =>
          if g.boot.id == s.boot then s
          else s.(restarted := false, guard := Some(Guard(Confirming, true, Boot(s.boot), None)))
        case Unknown => s.(guard := None)
        case _ => if g.boot.id == s.boot then s else Unplug(s)
  }

  /** handle_hotplug_restart_guard. */
  function Handle(s: State, bootReadable: bool): State {
    if s.guard.None? || s.guard.value.boot.Missing? || !bootReadable then s
    else
      var g := s.guard.value;
      if !g.validName then s.(guard := None)
      else if s.server.None? then s
      else
        var same := g.boot == Boot(s.boot);
        var observing := s.(guard := Some(Guard(Observing, true, Boot(s.boot), s.server)),
                            checks := s.checks + [Check(s.boot, s.server.value)]);
        if g.stage.Rebooting? then if same then s else observing
        else if g.stage.Confirming? && same then observing
        else if !g.stage.Observing? || !same || g.pid == s.server then s
        else Unplug(s)
  }

  predicate Enabled(s: State, step: Step) {
    step.StabilityCheck? ==> step.k < |s.checks|
  }

  function Apply(s: State, step: Step): State
    requires Enabled(s, step)
  {
    match step
    case DaemonStart(readable) => Resolve(s, readable)
    case SystemServerStarted(readable) => Handle(s, readable)
    case StabilityCheck(k) =>
      var c := s.checks[k];
      var rest := s.(checks := s.checks[..k] + s.checks[k + 1..]);
      if s.guard == Some(Guard(Observing, true, Boot(c.boot), Some(c.pid))) && s.server == Some(c.pid) then
        rest.(guard := None, restarted := false)
      else rest
    case ServerChanges(pid) => s.(server := pid)
    case Reboot => s.(boot := s.boot + 1, server := None, checks := [])
  }

  predicate Runs(s: State, steps: seq<Step>)
    decreases |steps|
  {
    steps == [] || (Enabled(s, steps[0]) && Runs(Apply(s, steps[0]), steps[1..]))
  }

  function After(s: State, steps: seq<Step>): State
    requires Runs(s, steps)
    decreases |steps|
  {
    if steps == [] then s else After(Apply(s, steps[0]), steps[1..])
  }

  /** Starting another daemon in the same boot changes nothing, whatever the guard file holds. */
  lemma ResolveIsIdempotent(s: State, readable: bool)
    ensures Resolve(Resolve(s, true), readable) == Resolve(s, true)
    ensures Resolve(s, readable) == s || Resolve(s, readable) == Resolve(s, true)
  {
  }

  /** Startup resolution unplugs exactly for a guard that reached an earlier boot and was not confirmed since. */
  lemma ResolveUnplugsExactlyWhen(s: State, readable: bool)
    requires s.plugged
    ensures !Resolve(s, readable).plugged <==>
              readable && s.guard.Some? && s.guard.value.validName && s.guard.value.boot.Boot? &&
              s.guard.value.boot.id != s.boot && (s.guard.value.stage.Confirming? || s.guard.value.stage.Observing?)
  {
  }

  /** A SystemServerStarted event unplugs exactly when the observed framework was replaced within its boot. */
  lemma HandleUnplugsExactlyWhen(s: State, readable: bool)
    requires s.plugged
    ensures !Handle(s, readable).plugged <==>
              readable && s.guard.Some? && s.guard.value.validName && s.guard.value.stage.Observing? &&
              s.guard.value.boot == Boot(s.boot) && s.server.Some? && s.guard.value.pid != s.server
  {
  }

  /** The two ways a module is found unstable: a tried boot is left unconfirmed, or the observed framework is replaced. */
  predicate Blames(s: State, step: Step) {
    s.guard.Some? && s.guard.value.validName &&
    match step
    case DaemonStart(readable) =>
      readable && s.guard.value.boot.Boot? && s.guard.value.boot.id != s.boot &&
      (s.guard.value.stage.Confirming? || s.guard.value.stage.Observing?)
    case SystemServerStarted(readable) =>
      readable && s.guard.value.stage.Observing? && s.guard.value.boot == Boot(s.boot) && s.server.Some? &&
      s.guard.value.pid != s.server
    case _ => false
  }

  predicate Blamed(s: State, steps: seq<Step>)
    requires Runs(s, steps)
    decreases |steps|
  {
    steps != [] && (Blames(s, steps[0]) || Blamed(Apply(s, steps[0]), steps[1..]))
  }

  lemma StaysUnplugged(s: State, step: Step)
    requires !s.plugged && Enabled(s, step)
    ensures !Apply(s, step).plugged
  {
  }

  lemma {:induction false} StaysUnpluggedInRun(s: State, steps: seq<Step>)
    requires !s.plugged && Runs(s, steps)
    ensures !After(s, steps).plugged
    decreases |steps|
  {
    hide Apply, Enabled;
    if steps != [] {
      StaysUnplugged(s, steps[0]);
      StaysUnpluggedInRun(Apply(s, steps[0]), steps[1..]);
    }
  }

  lemma BlameUnplugs(s: State, step: Step)
    requires s.plugged && Enabled(s, step)
    ensures !Apply(s, step).plugged <==> Blames(s, step)
  {
    hide Resolve, Handle;
    match step
    case DaemonStart(readable) => ResolveUnplugsExactlyWhen(s, readable);
    case SystemServerStarted(readable) => HandleUnplugsExactlyWhen(s, readable);
    case _ =>
  }

  /**
   Over every run across boots a module ends unplugged exactly when some step of the
   run found it unstable; nothing plugs it in again.
   */
  lemma {:induction false} UnpluggedExactlyWhen(s: State, steps: seq<Step>)
    requires s.plugged && Runs(s, steps)
    ensures !After(s, steps).plugged <==> Blamed(s, steps)
    decreases |steps|
  {
    hide Apply, Enabled, Blames;
    if steps != [] {
      BlameUnplugs(s, steps[0]);
      if Apply(s, steps[0]).plugged {
        UnpluggedExactlyWhen(Apply(s, steps[0]), steps[1..]);
      } else {
        StaysUnpluggedInRun(Apply(s, steps[0]), steps[1..]);
      }
    }
  }

  // --- The life of one guard ----------------------------------------------------------------------

  /** The session of boot `armed` has asked for a reboot to activate the module. */
  predicate Armed(s: State, armed: nat) {
    s.boot == armed && s.plugged && s.guard == Some(Guard(Rebooting, true, Boot(armed), None)) && s.checks == []
  }

  /** A daemon start that can tell the boots apart, in boot `b`. */
  function StartsIn(s: State, steps: seq<Step>): set<nat>
    requires Runs(s, steps)
    decreases |steps|
  {
    if steps == [] then {}
    else
      (if steps[0] == DaemonStart(true) then {s.boot} else {}) + StartsIn(Apply(s, steps[0]), steps[1..])
  }

  /** How the module came out: still guarded, cleared as stable, or unplugged. */
  predicate Waiting(s: State, armed: nat) {
    s.plugged && s.guard == Some(Guard(Rebooting, true, Boot(armed), None))
  }

  predicate Trying(s: State, boot: nat) {
    s.plugged && s.guard.Some? && s.guard.value.validName && s.guard.value.boot == Boot(boot) &&
    (s.guard.value.stage.Confirming? || s.guard.value.stage.Observing?)
  }

  predicate Stable(s: State) {
    s.guard.None? && s.plugged && !s.restarted
  }

  predicate Unplugged(s: State) {
    s.guard.None? && !s.plugged && s.crashBlocked
  }

  /**
   The guard waits while no later boot has started a daemon, belongs to the one
   later boot in which the module is being tried, or is gone for good.
   */
  predicate Reached(s: State, armed: nat, starts: set<nat>) {
    s.boot >= armed && (forall b :: b in starts ==> b <= s.boot) &&
    ((Waiting(s, armed) && forall b :: b in starts ==> b == armed) ||
     (s.guard.Some? && s.guard.value.boot.Boot? && armed < s.guard.value.boot.id <= s.boot && Trying(s, s.guard.value.boot.id) &&
      forall b :: b in starts ==> b == armed || b == s.guard.value.boot.id) ||
     Stable(s) || Unplugged(s))
  }

  lemma ReachedStep(s: State, armed: nat, starts: set<nat>, step: Step)
    requires Reached(s, armed, starts) && Enabled(s, step)
    requires forall k :: 0 <= k < |s.checks| ==> s.checks[k].boot <= s.boot
    ensures Reached(Apply(s, step), armed, starts + (if step == DaemonStart(true) then {s.boot} else {}))
    ensures forall k :: 0 <= k < |Apply(s, step).checks| ==> Apply(s, step).checks[k].boot <= Apply(s, step).boot
  {
  }

  lemma {:induction false} ReachedRun(s: State, armed: nat, starts: set<nat>, steps: seq<Step>)
    requires Reached(s, armed, starts) && Runs(s, steps)
    requires forall k :: 0 <= k < |s.checks| ==> s.checks[k].boot <= s.boot
    ensures Reached(After(s, steps), armed, starts + StartsIn(s, steps))
    decreases |steps|
  {
    if steps == [] {
      assert starts + {} == starts;
    } else {
      hide Reached, Apply;
      var first := if steps[0] == DaemonStart(true) then {s.boot} else {};
      ReachedStep(s, armed, starts, steps[0]);
      ReachedRun(Apply(s, steps[0]), armed, starts + first, steps[1..]);
      assert starts + first + StartsIn(Apply(s, steps[0]), steps[1..]) == starts + StartsIn(s, steps);
    }
  }

  /**
   Once the daemon has started in two later boots the guard is gone: the module
   was cleared as stable or it is unplugged, and nothing else.
   */
  lemma GuardIsGoneBySecondBoot(s: State, armed: nat, steps: seq<Step>, first: nat, second: nat)
    requires Armed(s, armed) && Runs(s, steps)
    requires armed < first < second && first in StartsIn(s, steps) && second in StartsIn(s, steps)
    ensures Stable(After(s, steps)) || Unplugged(After(s, steps))
  {
    hide Runs, After, StartsIn;
    ReachedRun(s, armed, {}, steps);
    assert first in {} + StartsIn(s, steps) && second in {} + StartsIn(s, steps);
  }

  /** Startup resolution never unplugs in the first later boot, nor in the boot that armed the guard. */
  lemma FirstBootIsNeverBlamed(s: State, armed: nat, steps: seq<Step>, readable: bool)
    requires Armed(s, armed) && Runs(s, steps) && After(s, steps).boot <= armed + 1
    ensures Resolve(After(s, steps), readable).plugged == After(s, steps).plugged
  {
    hide Runs, After, StartsIn;
    ReachedRun(s, armed, {}, steps);
  }

  /** Without a daemon start in between the second boot still finds the guard waiting: starts are what counts. */
  lemma SkippedBootsDoNotCount(s: State, armed: nat) returns (steps: seq<Step>)
    requires Armed(s, armed)
    ensures Runs(s, steps) && After(s, steps).boot == armed + 2 && StartsIn(s, steps) == {armed + 2}
    ensures Trying(After(s, steps), armed + 2)
  {
    steps := [Reboot, Reboot, DaemonStart(true)];
    var s1 := Apply(s, Reboot);
    var s2 := Apply(s1, Reboot);
    var s3 := Apply(s2, DaemonStart(true));
    assert steps[1..] == [Reboot, DaemonStart(true)] && steps[1..][1..] == [DaemonStart(true)];
    assert [DaemonStart(true)][1..] == [];
    assert Runs(s3, []) && StartsIn(s3, []) == {};
    assert Runs(s2, [DaemonStart(true)]) && After(s2, [DaemonStart(true)]) == s3 && StartsIn(s2, [DaemonStart(true)]) == {armed + 2};
    assert Runs(s1, steps[1..]) && After(s1, steps[1..]) == s3 && StartsIn(s1, steps[1..]) == {armed + 2};
  }

  // --- The code itself ----------------------------------------------------------------------------------

  class GuardKeeper {
    var state: State

    method RemoveGuard()
      modifies this
      ensures state == old(state).(guard := None)
    {
      state := state.(guard := None);
    }

    method UnplugModule()
      modifies this
      ensures state == Unplug(old(state))
    {
      state := state.(plugged := false);
      state := state.(crashBlocked := true);
      RemoveGuard();
    }

    /** resolve_stale_restart_guard. */
    method ResolveStaleRestartGuard(bootReadable: bool)
      modifies this
      ensures state == Resolve(old(state), bootReadable)
    {
      if state.guard.None? || !bootReadable {
        return;
      }
      var g := state.guard.value;
      if !g.validName {
        RemoveGuard();
        return;
      }
      if !g.boot.Boot? {
        RemoveGuard();
        state := state.(restarted := false);
        return;
      }
      match g.stage
      case Rebooting =>
        if g.boot.id != state.boot {
          state := state.(restarted := false);
          state := state.(guard := Some(Guard(Confirming, true, Boot(state.boot), None)));
        }
      case Unknown => RemoveGuard();
      case _ =>
        if g.boot.id != state.boot {
          UnplugModule();
        }
    }

    /** handle_hotplug_restart_guard. */
    method HandleHotplugRestartGuard(bootReadable: bool)
      modifies this
      ensures state == Handle(old(state), bootReadable)
    {
      if state.guard.None? || state.guard.value.boot.Missing? || !bootReadable {
        return;
      }
      var g := state.guard.value;
      if !g.validName {
        RemoveGuard();
        return;
      }
      if state.server.None? {
        return;
      }
      var same := g.boot == Boot(state.boot);
      if g.stage.Rebooting? {
        if same {
          return;
        }
      } else if !g.stage.Confirming? || !same {
        if !g.stage.Observing? || !same || g.pid == state.server {
          return;
        }
        UnplugModule();
        return;
      }
      state := state.(guard := Some(Guard(Observing, true, Boot(state.boot), state.server)));
      state := state.(checks := state.checks + [Check(state.boot, state.server.value)]);
    }
  }
}
