/**
 The framework-restart budget of one module within one kernel boot
 (zygiskd/src/zygiskd.rs): restart_framework_once under the hot-plug lock,
 run_framework_activations without it, and every other process that removes the
 `.framework` marker, interleaved one access at a time. Each marker read, write
 or removal is one successful atomic step.
 */
module FrameworkRestart {
  import opened Options

  const MAX_FRAMEWORK_RESTARTS: nat := 1
  const MAX_FRAMEWORK_DAEMON_STARTS: nat := 2

  /** The contents of `<name>.framework`. */
  datatype Marker = Marker(boot: nat, pid: nat, restarts: nat, heals: nat)

  /** Where the holder of the hot-plug lock is inside restart_framework_once. */
  datatype Holder =
    | Free
    | AtFirstRead
    | AtPidCheck(seen: Marker)
    | AtPidRead
    | AtSecondRead(victim: nat)
    | AtWrite(victim: nat, restarts: nat)
    | AtKill(victim: nat)

  /** Where one scan is inside run_framework_activations; `seen` is the pid its marker recorded. */
  datatype Scan =
    | AtMarker(current: nat)
    | AtRemove
    | AtUnplug
    | AtClaim(seen: nat, marker: Marker)
    | AtRecord(seen: nat, marker: Marker, start: bool)

  /**
   `marker` is None when the file is missing or does not parse. `starts` counts the
   repair starts since the last removal or rewrite by restart_framework_once.
   */
  datatype State = State(boot: nat, server: Option<nat>, marker: Option<Marker>, holder: Holder,
                         scans: map<nat, Scan>, applying: bool, plugged: bool, starts: nat)

  datatype Step =
    | Lock | FirstRead | PidCheck | PidRead | SecondRead | Commit | Kill
    | StartScan(id: nat)
    | ReadMarker(id: nat, bootReadable: bool, dirExists: bool, running: bool)
    | RemoveStale(id: nat) | Unplug(id: nat) | Claim(id: nat) | Record(id: nat)
    | ClearMarkers
    | ServerDies | ServerStarts(pid: nat) | SetApplying(value: bool)

  predicate SameBoot(s: State) {
    s.marker.Some? && s.marker.value.boot == s.boot
  }

  predicate Enabled(s: State, step: Step) {
    match step
    case Lock => s.holder.Free?
    case FirstRead => s.holder.AtFirstRead?
    case PidCheck => s.holder.AtPidCheck?
    case PidRead => s.holder.AtPidRead?
    case SecondRead => s.holder.AtSecondRead?
    case Commit => s.holder.AtWrite?
    case Kill => s.holder.AtKill?
    case StartScan(id) => id !in s.scans && s.server.Some?
    case ReadMarker(id, _, _, _) => id in s.scans && s.scans[id].AtMarker?
    case RemoveStale(id) => id in s.scans && s.scans[id].AtRemove?
    case Unplug(id) => id in s.scans && s.scans[id].AtUnplug?
    case Claim(id) => id in s.scans && s.scans[id].AtClaim?
    case Record(id) => id in s.scans && s.scans[id].AtRecord?
    case ServerStarts(_) => s.server.None?
    case _ => true
  }

  /** What a scan does next, given the marker it read; None means it is done with the module. */
  function Decide(s: State, current: nat, bootReadable: bool, dirExists: bool, running: bool): Option<Scan> {
    match s.marker
    case None => Some(AtRemove)
    case Some(m) =>
      if !bootReadable || m.boot != s.boot then Some(AtRemove)
      else if m.pid == current then None
      else if !dirExists then Some(AtRemove)
      else if m.pid != 0 && running then Some(AtRecord(m.pid, m.(pid := current), false))
      else if m.heals + 1 > MAX_FRAMEWORK_DAEMON_STARTS then Some(AtUnplug)
      else Some(AtClaim(m.pid, m.(pid := current, heals := m.heals + 1)))
  }

  function Move(s: State, id: nat, next: Option<Scan>): State {
    s.(scans := if next.Some? then s.scans[id := next.value] else s.scans - {id})
  }

  function Apply(s: State, step: Step): State
    requires Enabled(s, step)
  {
    match step
    case Lock => s.(holder := AtFirstRead)
    case FirstRead => s.(holder := if SameBoot(s) then AtPidCheck(s.marker.value) else AtPidRead)
    case PidCheck =>
      if s.server == Some(s.holder.seen.pid) || s.holder.seen.restarts >= MAX_FRAMEWORK_RESTARTS then s.(holder := Free)
      else s.(holder := AtPidRead)
    case PidRead => s.(holder := if s.server.Some? then AtSecondRead(s.server.value) else Free)
    case SecondRead =>
      s.(holder := AtWrite(s.holder.victim, (if SameBoot(s) then s.marker.value.restarts else 0) + 1))
    case Commit =>
      s.(marker := Some(Marker(s.boot, s.holder.victim, s.holder.restarts, 0)), holder := AtKill(s.holder.victim), starts := 0)
    case Kill => s.(holder := Free, server := if s.server == Some(s.holder.victim) then None else s.server)
    case StartScan(id) => s.(scans := s.scans[id := AtMarker(s.server.value)])
    case ReadMarker(id, bootReadable, dirExists, running) =>
      Move(s, id, Decide(s, s.scans[id].current, bootReadable, dirExists, running))
    case RemoveStale(id) => Move(s, id, None).(marker := None, starts := 0)
    case Unplug(id) => Move(s, id, None).(marker := None, starts := 0, plugged := false)
    case Claim(id) =>
      if s.applying then Move(s, id, None)
      else Move(s, id, Some(AtRecord(s.scans[id].seen, s.scans[id].marker, true))).(applying := true)
    case Record(id) =>
      var scan := s.scans[id];
      Move(s, id, None).(marker := Some(scan.marker), starts := if scan.start then s.starts + 1 else s.starts)
    case ClearMarkers => s.(marker := None, starts := 0)
    case ServerDies => s.(server := None)
    case ServerStarts(pid) => s.(server := Some(pid))
    case SetApplying(value) => s.(applying := value)
  }

  predicate Runs(s: State, steps: seq<Step>)
    decreases |steps|
  {
    steps == [] || (Enabled(s, steps[0]) && Runs(Apply(s, steps[0]), steps[1..]))
  }

  function After(s: State, steps: seq<Step>): State
    requires Runs(s, steps)
    decreases |steps|
  {
    if steps == [] then s else After(Apply(s, steps[0]), steps[1..])
  }

  /** The kernel boot begins: nobody holds the lock, and a marker left over is from another boot. */
  predicate Initial(s: State) {
    s.holder.Free? && s.scans == map[] && !SameBoot(s) && s.starts == 0
  }

  // --- Safety of the markers --------------------------------------------------------------------

  predicate Charged(boot: nat, m: Marker) {
    m.boot == boot && m.restarts >= 1
  }

  predicate ScanCharged(boot: nat, scan: Scan) {
    match scan
    case AtClaim(_, m) => Charged(boot, m)
    case AtRecord(_, m, _) => Charged(boot, m)
    case _ => true
  }

  /** Every same-boot marker, on disk or about to be written, records a restart. */
  ghost predicate Safe(s: State) {
    (SameBoot(s) ==> s.marker.value.restarts >= 1) &&
    (s.holder.AtPidCheck? ==> Charged(s.boot, s.holder.seen)) &&
    (s.holder.AtWrite? ==> s.holder.restarts >= 1) &&
    forall id :: id in s.scans ==> ScanCharged(s.boot, s.scans[id])
  }

  lemma SafeStep(s: State, step: Step)
    requires Safe(s) && Enabled(s, step)
    ensures Safe(Apply(s, step)) && Apply(s, step).boot == s.boot
  {
  }

  /** In every reachable state a marker of this boot records at least one restart. */
  lemma {:induction false} SameBootMarkersRecordARestart(s: State, steps: seq<Step>)
    requires (Initial(s) || Safe(s)) && Runs(s, steps)
    ensures Safe(After(s, steps))
    decreases |steps|
  {
    if steps != [] {
      SafeStep(s, steps[0]);
      SameBootMarkersRecordARestart(Apply(s, steps[0]), steps[1..]);
    }
  }

  // --- The kill budget ------------------------------------------------------------------------------

  /** The lock holder has decided to restart the framework but has not recorded it yet. */
  predicate Decided(s: State) {
    s.holder.AtPidRead? || s.holder.AtSecondRead? || s.holder.AtWrite?
  }

  function Pending(s: State): nat {
    if s.holder.AtKill? then 1 else 0
  }

  /** A step that takes this boot's marker away. */
  predicate Removes(s: State, step: Step) {
    SameBoot(s) && (step.RemoveStale? || step.Unplug? || step.ClearMarkers?)
  }

  function Removals(s: State, steps: seq<Step>): nat
    requires Runs(s, steps)
    decreases |steps|
  {
    if steps == [] then 0
    else (if Removes(s, steps[0]) then 1 else 0) + Removals(Apply(s, steps[0]), steps[1..])
  }

  function Commits(steps: seq<Step>): nat {
    if steps == [] then 0 else (if steps[0].Commit? then 1 else 0) + Commits(steps[1..])
  }

  function Kills(steps: seq<Step>): nat {
    if steps == [] then 0 else (if steps[0].Kill? then 1 else 0) + Kills(steps[1..])
  }

  /** How many restarts may still be recorded before the next removal. */
  function Allowance(s: State): nat {
    if SameBoot(s) && !Decided(s) then 0 else MAX_FRAMEWORK_RESTARTS
  }

  lemma AllowanceStep(s: State, step: Step)
    requires Safe(s) && Enabled(s, step)
    ensures (if step.Commit? then 1 else 0) + Allowance(Apply(s, step)) <= (if Removes(s, step) then 1 else 0) + Allowance(s)
  {
  }

  lemma {:induction false} CommitsAreBudgeted(s: State, steps: seq<Step>)
    requires Safe(s) && Runs(s, steps)
    ensures Commits(steps) <= Removals(s, steps) + Allowance(s)
    decreases |steps|
  {
    if steps != [] {
      SafeStep(s, steps[0]);
      AllowanceStep(s, steps[0]);
      CommitsAreBudgeted(Apply(s, steps[0]), steps[1..]);
    }
  }

  /** Each kill was recorded first: the only kill without a record in the run is one already pending. */
  lemma {:induction false} KillsFollowCommits(s: State, steps: seq<Step>)
    requires Runs(s, steps)
    ensures Kills(steps) + Pending(After(s, steps)) == Commits(steps) + Pending(s)
    decreases |steps|
  {
    if steps != [] {
      KillsFollowCommits(Apply(s, steps[0]), steps[1..]);
    }
  }

  /**
   Over any run of a boot, system_server is killed for the module at most once
   more than its marker is removed.
   */
  lemma KillBudget(s: State, steps: seq<Step>)
    requires Initial(s) && Runs(s, steps)
    ensures Kills(steps) <= MAX_FRAMEWORK_RESTARTS + Removals(s, steps)
  {
    hide Runs, After, Kills, Commits, Removals;
    CommitsAreBudgeted(s, steps);
    KillsFollowCommits(s, steps);
  }

  /**
   Between two removals the module gets at most one recorded restart, and one kill,
   plus one kill whose restart was recorded before the first removal.
   */
  lemma KillsBetweenRemovals(s: State, before: seq<Step>, between: seq<Step>)
    requires Initial(s) && Runs(s, before) && Runs(After(s, before), between)
    requires Removals(After(s, before), between) == 0
    ensures Commits(between) <= MAX_FRAMEWORK_RESTARTS
    ensures Kills(between) <= MAX_FRAMEWORK_RESTARTS + Pending(After(s, before))
  {
    hide Runs, After, Kills, Commits, Removals;
    SameBootMarkersRecordARestart(s, before);
    CommitsAreBudgeted(After(s, before), between);
    KillsFollowCommits(After(s, before), between);
  }

  // --- Building runs --------------------------------------------------------------------------------

  lemma {:induction false} Extend(s: State, steps: seq<Step>, step: Step)
    requires Runs(s, steps) && Enabled(After(s, steps), step)
    ensures Runs(s, steps + [step]) && After(s, steps + [step]) == Apply(After(s, steps), step)
    ensures Kills(steps + [step]) == Kills(steps) + (if step.Kill? then 1 else 0)
    ensures Removals(s, steps + [step]) == Removals(s, steps) + (if Removes(After(s, steps), step) then 1 else 0)
    decreases |steps|
  {
    hide Apply, Enabled, Removes;
    if steps == [] {
      assert Runs(Apply(s, step), []);
      assert [step][1..] == [];
    } else {
      assert (steps + [step])[1..] == steps[1..] + [step];
      Extend(Apply(s, steps[0]), steps[1..], step);
    }
  }

  /** The lock holder records a restart against the running server. */
  lemma RecordRestart(s: State, steps: seq<Step>) returns (r: seq<Step>)
    requires Runs(s, steps)
    requires var t := After(s, steps); t.holder.Free? && !SameBoot(t) && t.server.Some?
    ensures Runs(s, r) && Kills(r) == Kills(steps) && Removals(s, r) == Removals(s, steps)
    ensures var t := After(s, steps);
            After(s, r) == t.(holder := AtKill(t.server.value), marker := Some(Marker(t.boot, t.server.value, 1, 0)), starts := 0)
    ensures NoNewScan(steps) ==> NoNewScan(r)
  {
    hide Runs, After, Kills, Removals;
    r := steps;
    Extend(s, r, Lock); r := r + [Lock];
    Extend(s, r, FirstRead); r := r + [FirstRead];
    Extend(s, r, PidRead); r := r + [PidRead];
    Extend(s, r, SecondRead); r := r + [SecondRead];
    Extend(s, r, Commit); r := r + [Commit];
  }

  lemma NoSteps(s: State)
    ensures Runs(s, []) && After(s, []) == s && Kills([]) == 0 && Removals(s, []) == 0
  {
  }

  ghost predicate WithinBudget(s: State, steps: seq<Step>) {
    Runs(s, steps) && Removals(s, steps) == 0 ==> Kills(steps) <= MAX_FRAMEWORK_RESTARTS
  }

  /** From a kill that is pending although the marker is gone, a second kill follows without a removal. */
  lemma TwoKills(s: State) returns (steps: seq<Step>)
    requires s.holder.AtKill? && !SameBoot(s)
    ensures !WithinBudget(s, steps)
  {
    hide Runs, After, Kills, Removals;
    NoSteps(s);
    steps := [];
    Extend(s, steps, Kill); steps := steps + [Kill];
    Extend(s, steps, ServerDies); steps := steps + [ServerDies];
    Extend(s, steps, ServerStarts(1)); steps := steps + [ServerStarts(1)];
    steps := RecordRestart(s, steps);
    Extend(s, steps, Kill); steps := steps + [Kill];
  }

  /**
   Right after a removal the budget holds for every continuation exactly when no
   recorded restart is still waiting for its kill: a removal that takes the lock
   keeps it, one between the record and the kill does not.
   */
  lemma BudgetAfterRemoval(s: State)
    requires Safe(s) && !SameBoot(s)
    ensures (forall steps :: WithinBudget(s, steps)) <==> !s.holder.AtKill?
  {
    hide Runs, After, Kills, Removals, Safe, Commits;
    if s.holder.AtKill? {
      var steps := TwoKills(s);
    } else {
      forall steps ensures WithinBudget(s, steps) {
        if Runs(s, steps) {
          CommitsAreBudgeted(s, steps);
          KillsFollowCommits(s, steps);
        }
      }
    }
  }

  /** Such a removal can happen: nothing but the lock holder waits for the lock. */
  lemma UnlockedRemovalIsReachable(s: State) returns (steps: seq<Step>)
    requires Initial(s) && s.server.Some?
    ensures Runs(s, steps) && After(s, steps).holder.AtKill? && !SameBoot(After(s, steps)) && Removals(s, steps) == 1
  {
    hide Runs, After, Kills, Removals;
    NoSteps(s);
    steps := RecordRestart(s, []);
    Extend(s, steps, ClearMarkers);
    steps := steps + [ClearMarkers];
  }

  // --- The repair budget ----------------------------------------------------------------------------

  /** Scans do not overlap: one starts only when none is running. */
  predicate Solo(s: State, steps: seq<Step>)
    requires Runs(s, steps)
    decreases |steps|
  {
    steps == [] || ((steps[0].StartScan? ==> s.scans == map[]) && Solo(Apply(s, steps[0]), steps[1..]))
  }

  predicate Spent(boot: nat, starts: nat, scan: Scan) {
    match scan
    case AtClaim(_, m) => m.boot == boot && starts + 1 <= m.heals <= MAX_FRAMEWORK_DAEMON_STARTS
    case AtRecord(_, m, start) =>
      m.boot == boot && starts + (if start then 1 else 0) <= m.heals <= MAX_FRAMEWORK_DAEMON_STARTS
    case _ => true
  }

  /** The marker counts at least the repairs started since it appeared. */
  ghost predicate Counted(s: State) {
    (forall a, b :: a in s.scans && b in s.scans ==> a == b) &&
    (if SameBoot(s) then s.starts <= s.marker.value.heals <= MAX_FRAMEWORK_DAEMON_STARTS else s.starts == 0) &&
    (forall id :: id in s.scans ==> Spent(s.boot, s.starts, s.scans[id]))
  }

  lemma CountedStep(s: State, step: Step)
    requires Counted(s) && Enabled(s, step) && (step.StartScan? ==> s.scans == map[])
    ensures Counted(Apply(s, step))
  {
  }

  /** When scans do not overlap, a framework transaction gets at most MAX_FRAMEWORK_DAEMON_STARTS repair starts. */
  lemma {:induction false} RepairBound(s: State, steps: seq<Step>)
    requires (Initial(s) || Counted(s)) && Runs(s, steps) && Solo(s, steps)
    ensures Counted(After(s, steps)) && After(s, steps).starts <= MAX_FRAMEWORK_DAEMON_STARTS
    decreases |steps|
  {
    if steps != [] {
      hide Counted;
      CountedStep(s, steps[0]);
      RepairBound(Apply(s, steps[0]), steps[1..]);
    }
  }

  /** A repair is needed: the marker is ours, the framework is another one, and the daemon is gone. */
  predicate NeedsRepair(s: State, current: nat, running: bool) {
    SameBoot(s) && s.marker.value.pid != current && (s.marker.value.pid == 0 || !running)
  }

  /**
   What a needed repair does: while starts are left it asks for one more, against a
   framework it has not recorded; with none left it unplugs the module.
   */
  lemma NeededRepair(s: State, current: nat, running: bool)
    ensures NeedsRepair(s, current, running) ==>
              Decide(s, current, true, true, running) ==
              if s.marker.value.heals >= MAX_FRAMEWORK_DAEMON_STARTS then Some(AtUnplug)
              else Some(AtClaim(s.marker.value.pid, s.marker.value.(pid := current, heals := s.marker.value.heals + 1)))
    ensures !NeedsRepair(s, current, running) ==>
              var next := Decide(s, current, true, true, running); next.None? || next.value.AtRemove? || next.value.AtRecord?
  {
  }

  /** Nothing but scans, the framework and the claim marker changes. */
  predicate Undisturbed(steps: seq<Step>) {
    steps == [] || (!steps[0].Commit? && !steps[0].ClearMarkers? && Undisturbed(steps[1..]))
  }

  /** The pids recorded in the marker by the run, in order. */
  function Recorded(s: State, steps: seq<Step>): seq<nat>
    requires Runs(s, steps)
    decreases |steps|
  {
    if steps == [] then []
    else
      (if steps[0].Record? then [s.scans[steps[0].id].marker.pid] else []) + Recorded(Apply(s, steps[0]), steps[1..])
  }

  predicate Changing(from: nat, pids: seq<nat>)
    decreases |pids|
  {
    pids == [] || (pids[0] != from && Changing(pids[0], pids[1..]))
  }

  /** One scan at most, and what it is about to record continues the marker on disk. */
  ghost predicate Following(s: State, spare: int) {
    (forall a, b :: a in s.scans && b in s.scans ==> a == b) &&
    (SameBoot(s) ==> s.marker.value.heals - s.starts == spare) &&
    forall id :: id in s.scans ==>
      match s.scans[id]
      case AtClaim(seen, m) => Follows(s, spare, seen, m, true)
      case AtRecord(seen, m, start) => Follows(s, spare, seen, m, start)
      case _ => true
  }

  predicate Follows(s: State, spare: int, seen: nat, m: Marker, start: bool) {
    SameBoot(s) && seen == s.marker.value.pid && m.pid != seen && m.boot == s.boot &&
    m.heals - s.starts - (if start then 1 else 0) == spare
  }

  lemma FollowingStep(s: State, spare: int, step: Step)
    requires Following(s, spare) && Enabled(s, step) && (step.StartScan? ==> s.scans == map[])
    requires !step.Commit? && !step.ClearMarkers?
    ensures Following(Apply(s, step), spare)
    ensures step.Record? ==>
              SameBoot(s) && SameBoot(Apply(s, step)) && Apply(s, step).marker == Some(s.scans[step.id].marker) &&
              s.scans[step.id].marker.pid != s.marker.value.pid
    ensures !step.Record? && SameBoot(Apply(s, step)) ==> SameBoot(s) && Apply(s, step).marker == s.marker
  {
  }

  /**
   In an undisturbed transaction every repair start costs exactly one heal, and
   each pid the scans record differs from the one recorded before it.
   */
  lemma {:induction false} RepairsAreCounted(s: State, spare: int, steps: seq<Step>)
    requires Following(s, spare) && Runs(s, steps) && Solo(s, steps) && Undisturbed(steps)
    ensures SameBoot(After(s, steps)) ==> After(s, steps).marker.value.heals - After(s, steps).starts == spare
    ensures if SameBoot(s) then Changing(s.marker.value.pid, Recorded(s, steps)) else Recorded(s, steps) == []
    decreases |steps|
  {
    if steps != [] {
      hide Following, Enabled, Apply;
      FollowingStep(s, spare, steps[0]);
      var rest := Recorded(Apply(s, steps[0]), steps[1..]);
      RepairsAreCounted(Apply(s, steps[0]), spare, steps[1..]);
      if steps[0].Record? {
        assert Recorded(s, steps)[1..] == rest;
      } else {
        assert Recorded(s, steps) == rest;
      }
    }
  }

  /** A pending repair that finds the claim free is started, and its claim is released again. */
  lemma StartOne(s: State, steps: seq<Step>, id: nat) returns (r: seq<Step>)
    requires Runs(s, steps)
    requires var t := After(s, steps); id in t.scans && t.scans[id].AtClaim? && !t.applying
    ensures Runs(s, r)
    ensures var t := After(s, steps);
            After(s, r) == t.(scans := t.scans - {id}, marker := Some(t.scans[id].marker), starts := t.starts + 1)
  {
    hide Runs, After, Kills, Removals;
    var t := After(s, steps);
    r := steps;
    Extend(s, r, Claim(id)); r := r + [Claim(id)];
    Extend(s, r, Record(id)); r := r + [Record(id)];
    Extend(s, r, SetApplying(false)); r := r + [SetApplying(false)];
    assert t.scans[id := AtRecord(t.scans[id].seen, t.scans[id].marker, true)] - {id} == t.scans - {id};
  }

  /** `n` scans are about to spend the same heal. */
  ghost predicate Racing(s: State, n: nat, m: Marker) {
    !s.applying && forall id :: 0 <= id < n ==> id in s.scans && s.scans[id].AtClaim? && s.scans[id].marker == m
  }

  /**
   Scans that do overlap can read the marker before any of them writes it: then
   any number of repairs starts while the counter grows by one.
   */
  lemma {:induction false} OverlapOutrunsTheCounter(s: State, steps: seq<Step>, n: nat, m: Marker) returns (r: seq<Step>)
    requires Runs(s, steps) && Racing(After(s, steps), n, m)
    ensures Runs(s, r) && After(s, r).starts == After(s, steps).starts + n
    ensures if n > 0 then After(s, r).marker == Some(m) else r == steps
    decreases n
  {
    hide Runs, After;
    if n == 0 {
      r := steps;
    } else {
      r := StartOne(s, steps, n - 1);
      r := OverlapOutrunsTheCounter(s, r, n - 1, m);
    }
  }

  /** Such races are reachable in every boot. */
  lemma RaceIsReachable(s: State, n: nat, victim: nat, next: nat) returns (r: seq<Step>)
    requires Initial(s) && s.server == Some(victim) && next != victim && victim != 0 && !s.applying
    ensures Runs(s, r) && Racing(After(s, r), n, Marker(s.boot, next, 1, 1)) && After(s, r).starts == 0
  {
    hide Runs, After, Kills, Removals;
    NoSteps(s);
    r := RecordRestart(s, []);
    Extend(s, r, Kill); r := r + [Kill];
    Extend(s, r, ServerStarts(next)); r := r + [ServerStarts(next)];
    var i: nat := 0;
    while i < n
      invariant i <= n && Runs(s, r)
      invariant var t := After(s, r);
                t.server == Some(next) && t.marker == Some(Marker(s.boot, victim, 1, 0)) && t.starts == 0 && t.boot == s.boot
      invariant forall id :: id in After(s, r).scans ==> id < i
      invariant Racing(After(s, r), i, Marker(s.boot, next, 1, 1))
    {
      Extend(s, r, StartScan(i)); r := r + [StartScan(i)];
      Extend(s, r, ReadMarker(i, true, true, false)); r := r + [ReadMarker(i, true, true, false)];
      i := i + 1;
    }
  }

  /** So the bound on repairs is lost as soon as scans may overlap, whatever the bound. */
  lemma RepairsUnboundedWithOverlap(s: State, n: nat, victim: nat, next: nat) returns (r: seq<Step>)
    requires Initial(s) && s.server == Some(victim) && next != victim && victim != 0 && !s.applying
    ensures Runs(s, r) && After(s, r).starts == n
    ensures n > 0 ==> After(s, r).marker.Some? && After(s, r).marker.value.heals == 1
  {
    hide Runs, After, Initial;
    r := RaceIsReachable(s, n, victim, next);
    r := OverlapOutrunsTheCounter(s, r, n, Marker(s.boot, next, 1, 1));
  }

  // --- Exactly when the repairs are counted -----------------------------------------------------------

  /** The repair starts the marker on disk admits to. */
  function Heals(s: State): nat {
    if SameBoot(s) then s.marker.value.heals else 0
  }

  /** Repair starts the marker does not count. */
  function Excess(s: State): int {
    s.starts - Heals(s)
  }

  /** The heals a scan about to write its record has read. */
  function HealsRead(scan: Scan): int
    requires scan.AtRecord?
  {
    scan.marker.heals - if scan.start then 1 else 0
  }

  /** What a step overwrites: a record puts back the heals its scan read, whatever was counted since. */
  function LostBy(s: State, step: Step): int
    requires Enabled(s, step)
  {
    if step.Record? then Heals(s) - HealsRead(s.scans[step.id]) else 0
  }

  /** The marker is taken away or written anew, and the count starts over. */
  predicate StartsOver(step: Step) {
    step.Commit? || step.RemoveStale? || step.Unplug? || step.ClearMarkers?
  }

  /** The heals lost by the records of a run since the count last started over. */
  function Lost(s: State, steps: seq<Step>, sofar: int): int
    requires Runs(s, steps)
    decreases |steps|
  {
    if steps == [] then sofar
    else Lost(Apply(s, steps[0]), steps[1..], if StartsOver(steps[0]) then 0 else sofar + LostBy(s, steps[0]))
  }

  lemma ExcessStep(s: State, step: Step)
    requires Safe(s) && Enabled(s, step)
    ensures Excess(Apply(s, step)) == if StartsOver(step) then 0 else Excess(s) + LostBy(s, step)
  {
  }

  /** Over every run, overlapping or not, the starts beyond the counted heals are the heals lost. */
  lemma {:induction false} ExcessIsLost(s: State, steps: seq<Step>)
    requires (Initial(s) || Safe(s)) && Runs(s, steps)
    ensures Excess(After(s, steps)) == Lost(s, steps, Excess(s))
    decreases |steps|
  {
    hide Apply, Enabled, Excess, LostBy;
    if steps != [] {
      SafeStep(s, steps[0]);
      ExcessStep(s, steps[0]);
      ExcessIsLost(Apply(s, steps[0]), steps[1..]);
    }
  }

  /** No counter on disk, or about to be written, is above the limit. */
  ghost predicate Limited(s: State) {
    Heals(s) <= MAX_FRAMEWORK_DAEMON_STARTS &&
    forall id :: id in s.scans ==>
      match s.scans[id]
      case AtClaim(_, m) => m.heals <= MAX_FRAMEWORK_DAEMON_STARTS
      case AtRecord(_, m, _) => m.heals <= MAX_FRAMEWORK_DAEMON_STARTS
      case _ => true
  }

  lemma {:induction false} HealsAreLimited(s: State, steps: seq<Step>)
    requires (Initial(s) || Limited(s)) && Runs(s, steps)
    ensures Limited(After(s, steps))
    decreases |steps|
  {
    if steps != [] {
      LimitedStep(s, steps[0]);
      HealsAreLimited(Apply(s, steps[0]), steps[1..]);
    }
  }

  lemma LimitedStep(s: State, step: Step)
    requires (Initial(s) || Limited(s)) && Enabled(s, step)
    ensures Limited(Apply(s, step))
  {
  }

  /**
   The bound on repair starts, exactly: it holds when the records written over a
   changed marker lost no more heals than are left, and so always when they lost none.
   */
  lemma RepairsBoundedExactlyWhen(s: State, steps: seq<Step>)
    requires Initial(s) && Runs(s, steps)
    ensures var t := After(s, steps);
            Heals(t) <= MAX_FRAMEWORK_DAEMON_STARTS &&
            (t.starts <= MAX_FRAMEWORK_DAEMON_STARTS <==> Lost(s, steps, 0) <= MAX_FRAMEWORK_DAEMON_STARTS - Heals(t))
  {
    hide Runs, After, Lost;
    ExcessIsLost(s, steps);
    HealsAreLimited(s, steps);
  }

  /** Every record of the run finds the heals on disk its scan had read. */
  predicate NoStaleRecord(s: State, steps: seq<Step>)
    requires Runs(s, steps)
    decreases |steps|
  {
    steps == [] || (LostBy(s, steps[0]) == 0 && NoStaleRecord(Apply(s, steps[0]), steps[1..]))
  }

  /** In every state of the run the marker counts every repair start. */
  predicate AlwaysCounted(s: State, steps: seq<Step>)
    requires Runs(s, steps)
    decreases |steps|
  {
    s.starts == Heals(s) && (steps == [] || AlwaysCounted(Apply(s, steps[0]), steps[1..]))
  }

  lemma OnlyRecordsLose(s: State, step: Step)
    requires Enabled(s, step) && StartsOver(step)
    ensures LostBy(s, step) == 0
  {
  }

  /** The marker counts every start all along exactly when no record overwrites heals its scan had not read. */
  lemma {:induction false} AlwaysCountedExactlyWhen(s: State, steps: seq<Step>)
    requires (Initial(s) || Safe(s)) && s.starts == Heals(s) && Runs(s, steps)
    ensures AlwaysCounted(s, steps) <==> NoStaleRecord(s, steps)
    decreases |steps|
  {
    hide Apply, Enabled, LostBy, Heals;
    if steps != [] {
      SafeStep(s, steps[0]);
      ExcessStep(s, steps[0]);
      if StartsOver(steps[0]) {
        OnlyRecordsLose(s, steps[0]);
      }
      if LostBy(s, steps[0]) != 0 {
        assert Excess(Apply(s, steps[0])) != 0;
      } else {
        AlwaysCountedExactlyWhen(Apply(s, steps[0]), steps[1..]);
      }
    }
  }

  // --- The repairs in flight ------------------------------------------------------------------------

  predicate NoNewScan(steps: seq<Step>) {
    forall i :: 0 <= i < |steps| ==> !steps[i].StartScan?
  }

  /** A scan that may still start a repair. */
  predicate Starter(scan: Scan) {
    scan.AtMarker? || scan.AtClaim? || (scan.AtRecord? && scan.start)
  }

  function Starters(s: State): set<nat> {
    set id | id in s.scans && Starter(s.scans[id])
  }

  ghost predicate WithinRepairs(s: State, steps: seq<Step>) {
    Runs(s, steps) && NoNewScan(steps) ==> After(s, steps).starts <= MAX_FRAMEWORK_DAEMON_STARTS
  }

  /** A start uses up a scan in flight. */
  lemma StartersStep(s: State, step: Step)
    requires Enabled(s, step) && !step.StartScan?
    ensures Apply(s, step).starts + |Starters(Apply(s, step))| <= s.starts + |Starters(s)|
  {
    var a, b := Starters(s), Starters(Apply(s, step));
    if step.Record? && s.scans[step.id].start {
      assert b <= a - {step.id};
      Smaller(b, a - {step.id});
    } else {
      assert b <= a;
      Smaller(b, a);
    }
  }

  lemma {:induction false} Smaller(a: set<nat>, b: set<nat>)
    requires a <= b
    ensures |a| <= |b|
    decreases |a|
  {
    if a != {} {
      var x :| x in a;
      Smaller(a - {x}, b - {x});
    }
  }

  lemma {:induction false} StartersRun(s: State, steps: seq<Step>)
    requires Runs(s, steps) && NoNewScan(steps)
    ensures After(s, steps).starts <= s.starts + |Starters(s)|
    decreases |steps|
  {
    hide Apply, Enabled, Starters;
    if steps != [] {
      StartersStep(s, steps[0]);
      assert forall i :: 0 <= i < |steps[1..]| ==> steps[1..][i] == steps[i + 1];
      StartersRun(Apply(s, steps[0]), steps[1..]);
    }
  }

  /** A scan that has decided to start a repair. */
  predicate Ready(scan: Scan) {
    scan.AtClaim? || (scan.AtRecord? && scan.start)
  }

  /** The lock holder finishes whatever it is doing; the scans stand still. */
  lemma FreeLock(s: State, steps: seq<Step>) returns (r: seq<Step>)
    requires Runs(s, steps) && NoNewScan(steps)
    ensures Runs(s, r) && NoNewScan(r) && After(s, r).holder.Free?
    ensures After(s, r).scans == After(s, steps).scans && After(s, r).boot == After(s, steps).boot
  {
    hide Runs, After, Kills, Removals, SameBoot;
    r := steps;
    Extend(s, r, ServerDies); r := r + [ServerDies];
    if After(s, r).holder.AtFirstRead? {
      Extend(s, r, FirstRead); r := r + [FirstRead];
    }
    if After(s, r).holder.AtPidCheck? {
      Extend(s, r, PidCheck); r := r + [PidCheck];
    }
    if After(s, r).holder.AtPidRead? {
      Extend(s, r, PidRead); r := r + [PidRead];
    }
    if After(s, r).holder.AtSecondRead? {
      Extend(s, r, SecondRead); r := r + [SecondRead];
    }
    if After(s, r).holder.AtWrite? {
      Extend(s, r, Commit); r := r + [Commit];
    }
    if After(s, r).holder.AtKill? {
      Extend(s, r, Kill); r := r + [Kill];
    }
  }

  /** A restart recorded against `victim`, with the count at zero and the claim free. */
  ghost predicate JustRecorded(s: State, victim: nat) {
    s.marker == Some(Marker(s.boot, victim, 1, 0)) && s.starts == 0 && !s.applying
  }

  lemma RecordAgainst(s: State, victim: nat) returns (r: seq<Step>)
    ensures Runs(s, r) && NoNewScan(r) && JustRecorded(After(s, r), victim)
    ensures After(s, r).scans == s.scans
  {
    hide Runs, After, Kills, Removals;
    NoSteps(s);
    r := FreeLock(s, []);
    Extend(s, r, ClearMarkers); r := r + [ClearMarkers];
    Extend(s, r, SetApplying(false)); r := r + [SetApplying(false)];
    Extend(s, r, ServerDies); r := r + [ServerDies];
    Extend(s, r, ServerStarts(victim)); r := r + [ServerStarts(victim)];
    r := RecordRestart(s, r);
  }

  /** Scans that have yet to read the marker all read it before any of them writes. */
  lemma {:induction false} ReadyAll(s: State, steps: seq<Step>, victim: nat, ids: set<nat>) returns (r: seq<Step>)
    requires Runs(s, steps) && NoNewScan(steps) && JustRecorded(After(s, steps), victim)
    requires forall id :: id in ids ==> id in After(s, steps).scans && Starter(After(s, steps).scans[id])
    requires forall id :: id in ids && After(s, steps).scans[id].AtMarker? ==> After(s, steps).scans[id].current != victim
    ensures Runs(s, r) && NoNewScan(r) && JustRecorded(After(s, r), victim)
    ensures forall id :: id in ids ==> id in After(s, r).scans && Ready(After(s, r).scans[id])
    ensures forall id :: id in After(s, steps).scans && id !in ids ==>
              id in After(s, r).scans && After(s, r).scans[id] == After(s, steps).scans[id]
    decreases |ids|
  {
    hide Runs, After, Kills, Removals;
    r := steps;
    if ids != {} {
      var id :| id in ids;
      if After(s, r).scans[id].AtMarker? {
        Extend(s, r, ReadMarker(id, true, true, false)); r := r + [ReadMarker(id, true, true, false)];
      }
      r := ReadyAll(s, r, victim, ids - {id});
    }
  }

  /** And then each of them starts its repair. */
  lemma {:induction false} StartAll(s: State, steps: seq<Step>, ids: set<nat>) returns (r: seq<Step>)
    requires Runs(s, steps) && NoNewScan(steps) && !After(s, steps).applying
    requires forall id :: id in ids ==> id in After(s, steps).scans && Ready(After(s, steps).scans[id])
    ensures Runs(s, r) && NoNewScan(r) && After(s, r).starts == After(s, steps).starts + |ids|
    decreases |ids|
  {
    hide Runs, After, Kills, Removals;
    r := steps;
    if ids != {} {
      var id :| id in ids;
      if After(s, r).scans[id].AtClaim? {
        Extend(s, r, Claim(id)); r := r + [Claim(id)];
        Extend(s, r, SetApplying(false)); r := r + [SetApplying(false)];
      }
      Extend(s, r, Record(id)); r := r + [Record(id)];
      r := StartAll(s, r, ids - {id});
    }
  }

  /** A pid no scan of the state runs for. */
  lemma UnusedPid(s: State, ids: set<nat>) returns (pid: nat)
    requires forall id :: id in ids ==> id in s.scans
    ensures pid > 0 && forall id :: id in ids && s.scans[id].AtMarker? ==> s.scans[id].current != pid
  {
    var pids := set id | id in ids && s.scans[id].AtMarker? :: s.scans[id].current;
    pid := Above(pids);
    forall id | id in ids && s.scans[id].AtMarker? ensures s.scans[id].current != pid {
      assert s.scans[id].current in pids;
    }
  }

  lemma {:induction false} Above(pids: set<nat>) returns (pid: nat)
    ensures pid > 0 && forall p :: p in pids ==> p < pid
    decreases |pids|
  {
    if pids == {} {
      pid := 1;
    } else {
      var p :| p in pids;
      pid := Above(pids - {p});
      assert forall q :: q in pids ==> q == p || q in pids - {p};
      pid := if pid <= p then p + 1 else pid;
    }
  }

  /**
   Whenever the count has just started over, the bound on repair starts holds for
   every continuation in which no new scan begins exactly when at most
   MAX_FRAMEWORK_DAEMON_STARTS scans in flight may still start one.
   */
  lemma RepairsAfterRemoval(s: State)
    requires s.starts == 0
    ensures (forall steps :: WithinRepairs(s, steps)) <==> |Starters(s)| <= MAX_FRAMEWORK_DAEMON_STARTS
  {
    hide Runs, After, Kills, Removals;
    if |Starters(s)| <= MAX_FRAMEWORK_DAEMON_STARTS {
      forall steps ensures WithinRepairs(s, steps) {
        if Runs(s, steps) && NoNewScan(steps) {
          StartersRun(s, steps);
        }
      }
    } else {
      var victim := UnusedPid(s, Starters(s));
      var r := RecordAgainst(s, victim);
      r := ReadyAll(s, r, victim, Starters(s));
      r := StartAll(s, r, Starters(s));
      assert !WithinRepairs(s, r);
    }
  }

  // --- The code between the steps -----------------------------------------------------------------------

  /** One process running its functions without interruption, one step of the machine at a time. */
  class Daemon {
    var state: State
    ghost var start: State
    ghost var steps: seq<Step>

    ghost predicate Valid()
      reads this
    {
      Runs(start, steps) && After(start, steps) == state
    }

    constructor (s: State)
      ensures Valid() && state == s && start == s && steps == []
    {
      state, start, steps := s, s, [];
    }

    method Do(step: Step)
      requires Valid() && Enabled(state, step)
      modifies this
      ensures Valid() && start == old(start) && steps == old(steps) + [step] && state == Apply(old(state), step)
    {
      hide Runs, After;
      Extend(start, steps, step);
      state := Apply(state, step);
      steps := steps + [step];
    }

    /**
     restart_framework_once. With a marker of this boot it leaves everything as it
     is; otherwise it records the running framework and kills it.
     */
    method RestartFrameworkOnce() returns (requested: bool)
      requires Valid() && Safe(state) && state.holder.Free?
      modifies this
      ensures Valid() && start == old(start) && old(steps) <= steps
      ensures requested <==> !SameBoot(old(state)) && old(state).server.Some?
      ensures state == if requested then old(state).(marker := Some(Marker(old(state).boot, old(state).server.value, 1, 0)),
                                                     server := None, starts := 0)
                       else old(state)
    {
      hide Runs, After;
      Do(Lock);
      Do(FirstRead);
      if state.holder.AtPidCheck? {
        Do(PidCheck);
        return false;
      }
      Do(PidRead);
      if state.holder.Free? {
        return false;
      }
      Do(SecondRead);
      Do(Commit);
      Do(Kill);
      return true;
    }

    /**
     run_framework_activations for one marker: it adopts a daemon that survived,
     starts one while repairs are left, and otherwise unplugs the module.
     */
    method RunFrameworkActivations(id: nat, bootReadable: bool, dirExists: bool, running: bool)
      requires Valid() && id !in state.scans
      modifies this
      ensures Valid() && start == old(start) && old(steps) <= steps
      ensures var o := old(state);
              if o.server.None? then state == o
              else if !bootReadable || !SameBoot(o) then state == o.(marker := None, starts := 0)
              else
                var m, current := o.marker.value, o.server.value;
                if m.pid == current then state == o
                else if !dirExists then state == o.(marker := None, starts := 0)
                else if m.pid != 0 && running then state == o.(marker := Some(m.(pid := current)))
                else if m.heals >= MAX_FRAMEWORK_DAEMON_STARTS then state == o.(marker := None, starts := 0, plugged := false)
                else if o.applying then state == o
                else state == o.(marker := Some(m.(pid := current, heals := m.heals + 1)), applying := true, starts := o.starts + 1)
    {
      hide Runs, After, Apply, Enabled;
      if state.server.None? {
        return;
      }
      ghost var scans := state.scans;
      BeginScan(id, bootReadable, dirExists, running);
      if id in state.scans {
        FinishScan(id);
      }
      assert state.scans == scans;
    }

    /** Reads the marker and decides. */
    method BeginScan(id: nat, bootReadable: bool, dirExists: bool, running: bool)
      requires Valid() && id !in state.scans && state.server.Some?
      modifies this
      ensures Valid() && start == old(start) && old(steps) <= steps
      ensures var next := Decide(old(state), old(state).server.value, bootReadable, dirExists, running);
              state == old(state).(scans := if next.Some? then old(state).scans[id := next.value] else old(state).scans) &&
              (next.Some? ==> !next.value.AtMarker?)
    {
      hide Runs, After;
      ghost var scans, current := state.scans, state.server.value;
      Do(StartScan(id));
      Do(ReadMarker(id, bootReadable, dirExists, running));
      assert scans[id := AtMarker(current)] - {id} == scans;
    }

    /** What a scan does once it has decided. */
    method FinishScan(id: nat)
      requires Valid() && id in state.scans && !state.scans[id].AtMarker?
      modifies this
      ensures Valid() && start == old(start) && old(steps) <= steps
      ensures var o := old(state);
              state == match o.scans[id]
                       case AtRemove => o.(scans := o.scans - {id}, marker := None, starts := 0)
                       case AtUnplug => o.(scans := o.scans - {id}, marker := None, starts := 0, plugged := false)
                       case AtRecord(_, m, begun) =>
                         o.(scans := o.scans - {id}, marker := Some(m), starts := if begun then o.starts + 1 else o.starts)
                       case AtClaim(_, m) =>
                         if o.applying then o.(scans := o.scans - {id})
                         else o.(scans := o.scans - {id}, marker := Some(m), starts := o.starts + 1, applying := true)
                       case AtMarker(_) => o
    {
      hide Runs, After;
      ghost var scans := state.scans;
      match state.scans[id]
      case AtRemove => Do(RemoveStale(id));
      case AtUnplug => Do(Unplug(id));
      case AtRecord(_, _, _) => Do(Record(id));
      case AtClaim(seen, m) =>
        Do(Claim(id));
        if id in state.scans {
          Do(Record(id));
          assert scans[id := AtRecord(seen, m, true)] - {id} == scans - {id};
        }
    }
  }
}
