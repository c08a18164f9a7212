/**
 The deferred service.sh of an ordinary hot-plugged module (zygiskd/src/zygiskd.rs):
 the activation markers shared by the swap, the worker that follows it, and the
 scans of all processes. Testing the markers and creating `applying` is one step.
 */
module DeferredService {

  /** Where a lifecycle worker is. A deferred worker begins at RunService. */
  datatype Worker = RunPostFs | CheckReady | RunService | WriteService | Release

  /** `runs` counts the executions of service.sh since the last swap. */
  datatype State = State(postFsData: bool, service: bool, applying: bool, workers: map<nat, Worker>, runs: nat)

  datatype Step =
    | Swap(id: nat)                  // swap_staged_module succeeds and its worker is started
    | Work(id: nat, ready: bool)     // a worker's next action; `ready` is system_server_ready()
    | Claim(id: nat)                 // a scan finds the module pending and claims it
    | Die(id: nat)                   // the process of a worker dies

  predicate Pending(s: State) {
    s.postFsData && !s.service && !s.applying
  }

  predicate Enabled(s: State, step: Step) {
    match step
    case Swap(id) => id !in s.workers
    case Work(id, _) => id in s.workers
    case Claim(id) => id !in s.workers && Pending(s)
    case Die(id) => id in s.workers
  }

  function Apply(s: State, step: Step): State
    requires Enabled(s, step)
  {
    match step
    case Swap(id) => State(false, false, true, s.workers[id := RunPostFs], 0)
    case Claim(id) => s.(applying := true, workers := s.workers[id := RunService])
    case Die(id) => s.(workers := s.workers - {id})
    case Work(id, ready) =>
      match s.workers[id]
      case RunPostFs => s.(postFsData := true, workers := s.workers[id := CheckReady])
      case CheckReady => s.(workers := s.workers[id := if ready then RunService else Release])
      case RunService => s.(runs := s.runs + 1, workers := s.workers[id := WriteService])
      case WriteService => s.(service := true, workers := s.workers[id := Release])
      case Release => s.(applying := false, workers := s.workers - {id})
  }

  predicate Runs(s: State, steps: seq<Step>)
    decreases |steps|
  {
    steps == [] || (Enabled(s, steps[0]) && Runs(Apply(s, steps[0]), steps[1..]))
  }

  function After(s: State, steps: seq<Step>): State
    requires Runs(s, steps)
    decreases |steps|
  {
    if steps == [] then s else After(Apply(s, steps[0]), steps[1..])
  }

  /** Every swap finds the claim free. */
  predicate Calm(s: State, steps: seq<Step>)
    requires Runs(s, steps)
    decreases |steps|
  {
    steps == [] || ((steps[0].Swap? ==> !s.applying) && Calm(Apply(s, steps[0]), steps[1..]))
  }

  /** What the one worker in flight has left to do. */
  predicate Consistent(s: State, w: Worker) {
    match w
    case RunPostFs => s.runs == 0
    case CheckReady => s.runs == 0
    case RunService => s.runs == 0
    case WriteService => s.runs == 1
    case Release => s.runs == 0 || (s.runs == 1 && s.service)
  }

  /** One worker at a time, holding the claim; a module that is pending has not run its service. */
  ghost predicate Exclusive(s: State) {
    (forall a, b :: a in s.workers && b in s.workers ==> a == b) &&
    (forall id :: id in s.workers ==> s.applying && Consistent(s, s.workers[id])) &&
    (Pending(s) ==> s.runs == 0) && s.runs <= 1
  }

  /** Nothing is in flight and the service has not run. */
  predicate Initial(s: State) {
    s.workers == map[] && s.runs == 0
  }

  lemma ExclusiveStep(s: State, step: Step)
    requires Exclusive(s) && Enabled(s, step) && (step.Swap? ==> s.workers == map[])
    ensures Exclusive(Apply(s, step))
  {
  }

  /** When every swap finds the claim free, service.sh runs at most once per swap, whoever gets there. */
  lemma {:induction false} ServiceAtMostOnce(s: State, steps: seq<Step>)
    requires (Initial(s) || Exclusive(s)) && Runs(s, steps) && Calm(s, steps)
    ensures Exclusive(After(s, steps)) && After(s, steps).runs <= 1
    decreases |steps|
  {
    assert Exclusive(s);
    if steps != [] {
      assert !s.applying ==> s.workers == map[];
      hide Exclusive;
      ExclusiveStep(s, steps[0]);
      ServiceAtMostOnce(Apply(s, steps[0]), steps[1..]);
    }
  }

  // --- The exact condition at a swap ----------------------------------------------------------------

  predicate NoSwap(steps: seq<Step>) {
    steps == [] || (!steps[0].Swap? && NoSwap(steps[1..]))
  }

  /** Until the next swap, service.sh runs at most once on every run from `s`. */
  ghost predicate AtMostOnce(s: State) {
    forall steps :: Runs(s, steps) && NoSwap(steps) ==> After(s, steps).runs <= 1
  }

  /** A worker that may still run service.sh. */
  predicate Runner(w: Worker) {
    w.RunPostFs? || w.CheckReady? || w.RunService?
  }

  ghost predicate NoRunner(s: State) {
    forall id :: id in s.workers ==> !Runner(s.workers[id])
  }

  /** The service has run or is going to, exactly once; nothing releases the claim before it is recorded. */
  ghost predicate Single(s: State) {
    (forall a, b :: a in s.workers && b in s.workers && Runner(s.workers[a]) && Runner(s.workers[b]) ==> a == b) &&
    s.runs <= 1 && (s.runs == 1 ==> NoRunner(s)) &&
    (s.runs == 1 || !NoRunner(s) ==> s.applying || s.service) &&
    (forall id :: id in s.workers && s.workers[id].Release? && !s.service ==> s.applying && s.runs == 0 && NoRunner(s)) &&
    (forall a, b :: a in s.workers && b in s.workers && s.workers[a].Release? && s.workers[b].Release? && !s.service ==> a == b)
  }

  lemma SingleStep(s: State, step: Step)
    requires Single(s) && Enabled(s, step) && !step.Swap?
    ensures Single(Apply(s, step))
  {
    match step
    case Claim(id) => SingleClaim(s, id);
    case Die(id) => SingleDie(s, id);
    case Work(id, ready) =>
      if Runner(s.workers[id]) {
        SingleRunner(s, id, ready);
      } else {
        SingleFinisher(s, id, ready);
      }
  }

  lemma SingleClaim(s: State, id: nat)
    requires Single(s) && Enabled(s, Claim(id))
    ensures Single(Apply(s, Claim(id)))
  {
    assert s.runs == 0 && NoRunner(s);
    assert forall b :: b in s.workers ==> !s.workers[b].Release?;
  }

  lemma SingleDie(s: State, id: nat)
    requires Single(s) && Enabled(s, Die(id))
    ensures Single(Apply(s, Die(id)))
  {
  }

  /** What the one runner implies about the others. */
  lemma TheRunner(s: State, id: nat)
    requires Single(s) && id in s.workers && Runner(s.workers[id])
    ensures s.runs == 0 && (s.applying || s.service)
    ensures forall b :: b in s.workers && b != id ==> !Runner(s.workers[b])
    ensures forall b :: b in s.workers && s.workers[b].Release? ==> s.service
  {
    assert !NoRunner(s);
  }

  lemma SingleRunner(s: State, id: nat, ready: bool)
    requires Single(s) && id in s.workers && Runner(s.workers[id])
    ensures Single(Apply(s, Work(id, ready)))
  {
    hide Single;
    TheRunner(s, id);
    var t := Apply(s, Work(id, ready));
    assert forall b :: b in t.workers && b != id ==> b in s.workers && t.workers[b] == s.workers[b];
    if Runner(t.workers[id]) {
      StillRunner(t, id);
    } else {
      NoLongerRunner(t, id);
    }
  }

  lemma StillRunner(t: State, id: nat)
    requires id in t.workers && Runner(t.workers[id]) && t.runs == 0 && (t.applying || t.service)
    requires forall b :: b in t.workers && b != id ==> !Runner(t.workers[b])
    requires forall b :: b in t.workers && t.workers[b].Release? ==> t.service
    ensures Single(t)
  {
  }

  lemma NoLongerRunner(t: State, id: nat)
    requires id in t.workers && (t.applying || t.service)
    requires if t.workers[id].Release? then t.runs == 0 && (t.service || t.applying) else t.workers[id].WriteService? && t.runs == 1
    requires forall b :: b in t.workers && b != id ==> !Runner(t.workers[b])
    requires forall b :: b in t.workers && b != id && t.workers[b].Release? ==> t.service
    ensures Single(t)
  {
    assert NoRunner(t);
  }

  lemma SingleFinisher(s: State, id: nat, ready: bool)
    requires Single(s) && id in s.workers && !Runner(s.workers[id])
    ensures Single(Apply(s, Work(id, ready)))
  {
    var t := Apply(s, Work(id, ready));
    assert forall b :: b in t.workers && b != id ==> b in s.workers && t.workers[b] == s.workers[b];
    assert NoRunner(s) ==> NoRunner(t);
    if s.workers[id].Release? {
      assert !s.service ==> forall b :: b in t.workers ==> !t.workers[b].Release?;
    }
  }

  lemma {:induction false} SingleRun(s: State, steps: seq<Step>)
    requires Single(s) && Runs(s, steps) && NoSwap(steps)
    ensures After(s, steps).runs <= 1
    decreases |steps|
  {
    if steps == [] {
      assert s.runs <= 1;
    } else {
      hide Single;
      SingleStep(s, steps[0]);
      SingleRun(Apply(s, steps[0]), steps[1..]);
    }
  }

  /**
   After a swap the service runs at most once exactly when every worker an earlier
   swap left in flight has already run it and has yet to record that.
   */
  lemma OncePerSwapExactlyWhen(s: State, newer: nat)
    requires newer !in s.workers
    ensures AtMostOnce(Apply(s, Swap(newer))) <==> forall id :: id in s.workers ==> s.workers[id].WriteService?
  {
    hide Runs, After, NoSwap;
    var t := Apply(s, Swap(newer));
    if forall id :: id in s.workers ==> s.workers[id].WriteService? {
      assert Single(t);
      hide Single;
      forall steps | Runs(t, steps) && NoSwap(steps) ensures After(t, steps).runs <= 1 {
        SingleRun(t, steps);
      }
    } else {
      var former :| former in s.workers && !s.workers[former].WriteService?;
      var steps := Twice(t, former, newer);
    }
  }

  /** In particular a swap that finds `applying` absent is safe. */
  lemma UnclaimedSwapIsSafe(s: State, newer: nat)
    requires Exclusive(s) && !s.applying && newer !in s.workers
    ensures AtMostOnce(Apply(s, Swap(newer)))
  {
    hide AtMostOnce;
    OncePerSwapExactlyWhen(s, newer);
  }

  // --- Building runs -------------------------------------------------------------------------------

  lemma {:induction false} Extend(s: State, steps: seq<Step>, step: Step)
    requires Runs(s, steps) && NoSwap(steps) && Enabled(After(s, steps), step) && !step.Swap?
    ensures Runs(s, steps + [step]) && NoSwap(steps + [step])
    ensures After(s, steps + [step]) == Apply(After(s, steps), step)
    decreases |steps|
  {
    hide Apply, Enabled;
    if steps == [] {
      assert Runs(Apply(s, step), []);
      assert [step][1..] == [];
    } else {
      assert (steps + [step])[1..] == steps[1..] + [step];
      Extend(Apply(s, steps[0]), steps[1..], step);
    }
  }

  lemma NoSteps(s: State)
    ensures Runs(s, []) && NoSwap([]) && After(s, []) == s
  {
  }

  /** A runner goes on until it has run the service. */
  lemma RunOne(s: State, steps: seq<Step>, id: nat) returns (r: seq<Step>)
    requires Runs(s, steps) && NoSwap(steps)
    requires id in After(s, steps).workers && Runner(After(s, steps).workers[id])
    ensures Runs(s, r) && NoSwap(r)
    ensures var t := After(s, steps);
            After(s, r).runs == t.runs + 1 && After(s, r).workers == t.workers[id := WriteService]
  {
    hide Runs, After, NoSwap;
    r := steps;
    var t := After(s, steps);
    if After(s, r).workers[id].RunPostFs? {
      Extend(s, r, Work(id, true)); r := r + [Work(id, true)];
    }
    if After(s, r).workers[id].CheckReady? {
      Extend(s, r, Work(id, true)); r := r + [Work(id, true)];
    }
    assert After(s, r).workers[id].RunService? && After(s, r).runs == t.runs;
    assert After(s, r).workers[id := WriteService] == t.workers[id := WriteService];
    Extend(s, r, Work(id, true)); r := r + [Work(id, true)];
  }

  /** A worker left from before the swap, unless it only has to record its run, makes the service run twice. */
  lemma Twice(s: State, former: nat, newer: nat) returns (steps: seq<Step>)
    requires former != newer && former in s.workers && newer in s.workers && s.workers[newer].RunPostFs?
    requires !s.workers[former].WriteService? && s.runs == 0 && !s.service
    ensures Runs(s, steps) && NoSwap(steps) && After(s, steps).runs == 2
  {
    hide Runs, After, NoSwap;
    NoSteps(s);
    steps := [];
    if s.workers[former].Release? {
      // it gives up the claim of the new swap, so that a scan takes it as well
      Extend(s, steps, Work(former, true)); steps := steps + [Work(former, true)];
      Extend(s, steps, Work(newer, true)); steps := steps + [Work(newer, true)];
      Extend(s, steps, Claim(former)); steps := steps + [Claim(former)];
    }
    assert former in After(s, steps).workers && Runner(After(s, steps).workers[former]);
    assert newer in After(s, steps).workers && Runner(After(s, steps).workers[newer]);
    steps := RunOne(s, steps, former);
    steps := RunOne(s, steps, newer);
  }

  // --- Exactly when the service can still run ---------------------------------------------------

  /** A worker is on its way to the service, or a scan may take the module now or once a worker releases it. */
  ghost predicate CanReach(s: State) {
    !NoRunner(s) || (s.postFsData && !s.service && (!s.applying || exists id :: id in s.workers && s.workers[id].Release?))
  }

  lemma OutOfReach(s: State, step: Step)
    requires !CanReach(s) && Enabled(s, step) && !step.Swap?
    ensures !CanReach(Apply(s, step)) && Apply(s, step).runs == s.runs
  {
    var t := Apply(s, step);
    if step.Work? {
      assert !Runner(s.workers[step.id]);
      assert forall b :: b in t.workers && b != step.id ==> b in s.workers && t.workers[b] == s.workers[b];
    }
    assert NoRunner(t);
  }

  lemma {:induction false} NeverAgain(s: State, steps: seq<Step>)
    requires !CanReach(s) && Runs(s, steps) && NoSwap(steps)
    ensures After(s, steps).runs == s.runs
    decreases |steps|
  {
    if steps != [] {
      hide CanReach, Apply, Enabled;
      OutOfReach(s, steps[0]);
      NeverAgain(Apply(s, steps[0]), steps[1..]);
    }
  }

  lemma {:induction false} UnusedId(ids: set<nat>) returns (bound: nat)
    ensures forall id :: id in ids ==> id < bound
    decreases |ids|
  {
    if ids == {} {
      bound := 0;
    } else {
      var id :| id in ids;
      bound := UnusedId(ids - {id});
      assert forall k :: k in ids ==> k == id || k in ids - {id};
      bound := if bound <= id then id + 1 else bound;
    }
  }

  lemma ReachRun(s: State) returns (steps: seq<Step>)
    requires CanReach(s)
    ensures Runs(s, steps) && NoSwap(steps) && After(s, steps).runs == s.runs + 1
  {
    hide Runs, After, NoSwap;
    NoSteps(s);
    steps := [];
    var id: nat;
    if r :| r in s.workers && Runner(s.workers[r]) {
      id := r;
    } else {
      if !s.applying {
        id := UnusedId(s.workers.Keys);
      } else {
        id :| id in s.workers && s.workers[id].Release?;
        Extend(s, steps, Work(id, true)); steps := steps + [Work(id, true)];
      }
      Extend(s, steps, Claim(id)); steps := steps + [Claim(id)];
    }
    steps := RunOne(s, steps, id);
  }

  /**
   Before the next swap service.sh can run again exactly when a worker is on its way
   to it, or the module waits for it and is unclaimed or about to be released. A
   claim whose worker died therefore keeps it from running for good.
   */
  lemma RunsAgainExactlyWhen(s: State)
    ensures (exists steps :: Runs(s, steps) && NoSwap(steps) && After(s, steps).runs > s.runs) <==> CanReach(s)
  {
    hide Runs, After, NoSwap, CanReach;
    if CanReach(s) {
      var steps := ReachRun(s);
    } else {
      forall steps | Runs(s, steps) && NoSwap(steps) ensures After(s, steps).runs == s.runs {
        NeverAgain(s, steps);
      }
    }
  }

  // --- One scan over all modules ---------------------------------------------------------------

  /** The markers of a module, and what its active directory holds. */
  datatype Entry = Entry(postFsData: bool, service: bool, applying: bool, framework: bool, armLibrary: bool)

  /** Pending, unclaimed, not a framework module, and with an arm library. */
  predicate Due(e: Entry) {
    e.postFsData && !e.service && !e.applying && !e.framework && e.armLibrary
  }

  class Registry {
    var modules: map<string, Entry>

    /** A directory listing: each module with a post_fs_data marker once. */
    ghost predicate Lists(names: seq<string>)
      reads this
    {
      (forall i, j :: 0 <= i < j < |names| ==> names[i] != names[j]) &&
      (forall n :: n in names <==> n in modules && modules[n].postFsData)
    }

    /** run_pending_staged_services: claims and schedules every due module, and only those. */
    method RunPendingStagedServices(ready: bool, names: seq<string>) returns (scheduled: seq<string>)
      requires Lists(names)
      modifies this
      ensures forall n :: n in scheduled <==> ready && n in old(modules) && Due(old(modules)[n])
      ensures forall i, j :: 0 <= i < j < |scheduled| ==> scheduled[i] != scheduled[j]
      ensures modules.Keys == old(modules).Keys
      ensures forall n :: n in modules ==>
                modules[n] == if n in scheduled then old(modules)[n].(applying := true) else old(modules)[n]
    {
      scheduled := [];
      if !ready {
        return;
      }
      var k := 0;
      while k < |names|
        invariant k <= |names|
        invariant modules.Keys == old(modules).Keys
        invariant forall n :: n in scheduled <==> n in names[..k] && Due(old(modules)[n])
        invariant forall i, j :: 0 <= i < j < |scheduled| ==> scheduled[i] != scheduled[j]
        invariant forall n :: n in modules ==>
                    modules[n] == if n in scheduled then old(modules)[n].(applying := true) else old(modules)[n]
      {
        var name := names[k];
        var e := modules[name];
        assert name !in names[..k] && e == old(modules)[name];
        assert names[..k + 1] == names[..k] + [name];
        k := k + 1;
        if e.service || e.framework || !e.armLibrary || e.applying {
          continue;
        }
        modules := modules[name := e.(applying := true)];
        scheduled := scheduled + [name];
      }
      assert names[..k] == names;
    }
  }
}
