/**
 The staged-to-active swap of a hot-plugged module (swap_staged_module in
 zygiskd/src/zygiskd.rs): a sequence of file operations under the hot-plug lock,
 each of which may fail.
 */
module StagedSwap {

  /** A module copy. `ready` is staged_update_ready: module.prop and a Zygisk library are there. */
  datatype Copy = Copy(version: nat, ready: bool, disabled: bool)

  /** What a path names; a Link exists without being a real directory. */
  datatype Node = Absent | Link(copy: Copy) | Dir(copy: Copy)

  /** modules/<id>, modules_update/<id> and the hidden backup beside the latter. */
  datatype Dirs = Dirs(active: Node, staged: Node, backup: Node)

  predicate Ready(n: Node) {
    !n.Absent? && n.copy.ready
  }

  /** Where a swap is, once it holds the lock. */
  datatype Pc = Begin | Stale | Inspect | Carry | Preserve | Move(had: bool) | Restore | Cleanup(had: bool) | Done(ok: bool)

  /** One file operation of the swap; every operation may also fail. A failed recursive removal may leave anything. */
  predicate Step(d: Dirs, pc: Pc, e: Dirs, next: Pc) {
    match pc
    case Begin => e == d && (next == Done(false) || (next == Stale && Ready(d.staged) && d.staged.Dir?))
    case Stale =>
      if d.backup.Absent? then e == d && next == Inspect
      else (e == d.(backup := Absent) && next == Inspect) || (e == d.(backup := e.backup) && next == Done(false))
    case Inspect =>
      e == d && (if d.active.Absent? then next == Move(false) else next == Done(false) || (next == Carry && d.active.Dir?))
    case Carry =>
      if d.active.Dir? && d.active.copy.disabled && d.staged.Dir? && !d.staged.copy.disabled then
        (e == d.(staged := Dir(d.staged.copy.(disabled := true))) && next == Preserve) || (e == d && next == Done(false))
      else e == d && next == Preserve
    case Preserve => (e == d.(backup := d.active, active := Absent) && next == Move(true)) || (e == d && next == Done(false))
    case Move(had) =>
      (e == d.(active := d.staged, staged := Absent) && next == Cleanup(had)) ||
      (e == d && next == (if had then Restore else Done(false)))
    case Restore => next == Done(false) && (e == d.(active := d.backup, backup := Absent) || e == d)
    case Cleanup(had) => next == Done(true) && (if had then e == d.(backup := e.backup) else e == d)
    case Done(_) => false
  }

  datatype Point = Point(dirs: Dirs, pc: Pc)

  /** An execution, possibly cut short by a crash. */
  predicate Execution(d: Dirs, points: seq<Point>) {
    |points| > 0 && points[0] == Point(d, Begin) &&
    forall k :: 0 < k < |points| ==> Step(points[k - 1].dirs, points[k - 1].pc, points[k].dirs, points[k].pc)
  }

  /** The staged copy as it becomes active: a disabled module stays disabled. */
  function Carried(d: Dirs): Node {
    if d.active.Dir? && d.active.copy.disabled && d.staged.Dir? then Dir(d.staged.copy.(disabled := true)) else d.staged
  }

  /** Every state a swap that began in `d` can be in. */
  predicate Reached(d: Dirs, e: Dirs, pc: Pc) {
    (!pc.Begin? && !pc.Done? ==> Ready(d.staged) && d.staged.Dir?) &&
    match pc
    case Begin => e == d
    case Stale => e == d
    case Inspect => e == d.(backup := Absent)
    case Carry => e == d.(backup := Absent) && d.active.Dir?
    case Preserve => e == Dirs(d.active, Carried(d), Absent) && d.active.Dir?
    case Move(had) => e == Dirs(Absent, Carried(d), if had then d.active else Absent) && had == d.active.Dir? == !d.active.Absent?
    case Restore => e == Dirs(Absent, Carried(d), d.active) && d.active.Dir?
    case Cleanup(had) => e == Dirs(Carried(d), Absent, if had then d.active else Absent) && had == d.active.Dir? == !d.active.Absent?
    case Done(ok) =>
      if ok then e.active == Carried(d) && e.staged == Absent && Ready(d.staged) && d.staged.Dir? && (d.active.Absent? ==> e.backup == Absent)
      else (!(Ready(d.staged) && d.staged.Dir?) ==> e == d) &&
           ((e.active == d.active && (e.staged == d.staged || e.staged == Carried(d))) ||
           (d.active.Dir? && e == Dirs(Absent, Carried(d), d.active)))
  }

  lemma ReachedStep(d: Dirs, e: Dirs, pc: Pc, f: Dirs, next: Pc)
    requires Reached(d, e, pc) && Step(e, pc, f, next)
    ensures Reached(d, f, next)
  {
  }

  lemma {:induction false} ReachedAt(d: Dirs, points: seq<Point>, k: nat)
    requires Execution(d, points) && k < |points|
    ensures Reached(d, points[k].dirs, points[k].pc)
  {
    hide Step, Reached;
    if k == 0 {
      BeginReached(d);
    } else {
      ReachedAt(d, points, k - 1);
      ReachedStep(d, points[k - 1].dirs, points[k - 1].pc, points[k].dirs, points[k].pc);
    }
  }

  lemma BeginReached(d: Dirs)
    ensures Reached(d, d, Begin)
  {
  }

  // --- What a swap guarantees -------------------------------------------------------------------

  /** The complete copy the user has before the swap: the active one, or one an earlier swap left in the backup. */
  predicate IsOld(d: Dirs, prev: Copy) {
    d.active == Dir(prev) || (d.active.Absent? && d.backup == Dir(prev))
  }

  /** The old copy is still complete somewhere, or the new one is active. */
  predicate Kept(d: Dirs, prev: Copy, e: Dirs) {
    e.active == Dir(prev) || e.backup == Dir(prev) || e.active == Carried(d)
  }

  /** The only copy is a backup that an earlier swap could not restore. */
  predicate Orphaned(d: Dirs) {
    d.active.Absent? && d.backup.Dir? && Ready(d.staged) && d.staged.Dir?
  }

  ghost predicate AlwaysKept(d: Dirs, prev: Copy) {
    forall points: seq<Point>, k: nat :: Execution(d, points) && k < |points| ==> Kept(d, prev, points[k].dirs)
  }

  /**
   At every step of every execution a complete old copy is in the active or the
   backup directory until the new copy is active, exactly when the swap does not
   find its only old copy in a stale backup, which it deletes first.
   */
  lemma OldCopyKept(d: Dirs, prev: Copy)
    requires IsOld(d, prev)
    ensures AlwaysKept(d, prev) <==> !Orphaned(d)
  {
    hide Reached, Kept;
    if Orphaned(d) {
      var points := LoseOrphan(d, prev);
      assert !Kept(d, prev, points[2].dirs);
    } else {
      forall points: seq<Point>, k: nat | Execution(d, points) && k < |points| ensures Kept(d, prev, points[k].dirs) {
        ReachedAt(d, points, k);
        KeptWhenReached(d, prev, points[k].dirs, points[k].pc);
      }
    }
  }

  lemma KeptWhenReached(d: Dirs, prev: Copy, e: Dirs, pc: Pc)
    requires IsOld(d, prev) && !Orphaned(d) && Reached(d, e, pc)
    ensures Kept(d, prev, e)
  {
  }

  lemma LoseOrphan(d: Dirs, prev: Copy) returns (points: seq<Point>)
    requires IsOld(d, prev) && Orphaned(d)
    ensures Execution(d, points) && |points| == 3 && !Kept(d, prev, points[2].dirs)
  {
    points := [Point(d, Begin), Point(d, Stale), Point(d.(backup := Absent), Inspect)];
  }

  /** The outcome of a finished swap. */
  lemma SwapOutcome(d: Dirs, points: seq<Point>)
    requires Execution(d, points) && points[|points| - 1].pc.Done?
    ensures var e := points[|points| - 1].dirs;
            if points[|points| - 1].pc.ok then
              // the staged copy is active and gone from staging; a disabled module stays disabled
              Ready(d.staged) && d.staged.Dir? && e.staged.Absent? && e.active.Dir? &&
              e.active.copy == d.staged.copy.(disabled := d.staged.copy.disabled || (d.active.Dir? && d.active.copy.disabled))
            else
              // nothing but a disable flag on the staged copy changed, or the restore failed too
              (e.active == d.active &&
               (e.staged == d.staged || (d.active.Dir? && d.active.copy.disabled && d.staged.Dir? &&
                                         e.staged == Dir(d.staged.copy.(disabled := true))))) ||
              (d.active.Dir? && e.active.Absent? && e.backup == d.active && e.staged == Carried(d))
  {
    hide Step;
    ReachedAt(d, points, |points| - 1);
  }

  /** The directories of one module, and the execution of the swap that is changing them. */
  class ModuleDirs {
    var dirs: Dirs
    ghost var points: seq<Point>

    ghost predicate Running(start: Dirs, pc: Pc)
      reads this
    {
      Execution(start, points) && points[|points| - 1] == Point(dirs, pc)
    }

    /** Performs one file operation. */
    method Become(next: Dirs, ghost start: Dirs, ghost pc: Pc, ghost nextPc: Pc)
      requires Running(start, pc) && Step(dirs, pc, next, nextPc)
      modifies this
      ensures Running(start, nextPc) && dirs == next
    {
      dirs := next;
      points := points + [Point(next, nextPc)];
    }

    /** swap_staged_module with the lock held; `*` decides which file operations fail and what a failed removal leaves. */
    method SwapStagedModule() returns (ok: bool)
      modifies this
      ensures Running(old(dirs), Done(ok))
    {
      hide Step;
      ghost var d := dirs;
      points := [Point(dirs, Begin)];
      var fails: bool := *;
      if !Ready(dirs.staged) || fails || !dirs.staged.Dir? {
        Fail(d, Begin);
        return false;
      }
      MayProceed(dirs);
      Become(dirs, d, Begin, Stale);
      fails := *;
      if !dirs.backup.Absent? && fails {
        var left: Node := *;
        PartialRemoval(dirs, left);
        Become(dirs.(backup := left), d, Stale, Done(false));
        return false;
      }
      MayInspect(dirs);
      Become(dirs.(backup := Absent), d, Stale, Inspect);
      var had := !dirs.active.Absent?;
      if had {
        fails := *;
        if fails || !dirs.active.Dir? {
          Fail(d, Inspect);
          return false;
        }
        MayCarry(dirs);
        Become(dirs, d, Inspect, Carry);
        ok := PreserveActive(d);
        if !ok {
          return;
        }
      } else {
        MayCarry(dirs);
        Become(dirs, d, Inspect, Move(false));
      }
      ok := MoveStaged(d, had);
    }

    method Fail(ghost d: Dirs, ghost pc: Pc)
      requires Running(d, pc) && Step(dirs, pc, dirs, Done(false))
      modifies this
      ensures Running(d, Done(false)) && dirs == old(dirs)
    {
      Become(dirs, d, pc, Done(false));
    }

    /** Carries the disable flag over and moves the active copy to the backup. */
    method PreserveActive(ghost d: Dirs) returns (ok: bool)
      requires Running(d, Carry) && dirs.active.Dir?
      modifies this
      ensures Running(d, if ok then Move(true) else Done(false))
    {
      var fails: bool := *;
      if dirs.active.copy.disabled && dirs.staged.Dir? && !dirs.staged.copy.disabled {
        if fails {
          Become(dirs, d, Carry, Done(false));
          return false;
        }
        Become(dirs.(staged := Dir(dirs.staged.copy.(disabled := true))), d, Carry, Preserve);
      } else {
        Become(dirs, d, Carry, Preserve);
      }
      fails := *;
      if fails {
        Become(dirs, d, Preserve, Done(false));
        return false;
      }
      Become(dirs.(backup := dirs.active, active := Absent), d, Preserve, Move(true));
      return true;
    }

    /** Moves the staged copy in, or puts the preserved one back. */
    method MoveStaged(ghost d: Dirs, had: bool) returns (ok: bool)
      requires Running(d, Move(had))
      modifies this
      ensures Running(d, Done(ok))
    {
      var fails: bool := *;
      if fails {
        Become(dirs, d, Move(had), if had then Restore else Done(false));
        fails := *;
        if had {
          Become(if fails then dirs else dirs.(active := dirs.backup, backup := Absent), d, Restore, Done(false));
        }
        return false;
      }
      Become(dirs.(active := dirs.staged, staged := Absent), d, Move(had), Cleanup(had));
      fails := *;
      var left: Node := *;
      Become(if !had then dirs else dirs.(backup := if fails then left else Absent), d, Cleanup(had), Done(true));
      return true;
    }
  }

  lemma MayProceed(d: Dirs)
    ensures Step(d, Begin, d, Done(false)) && (Ready(d.staged) && d.staged.Dir? ==> Step(d, Begin, d, Stale))
  {
  }

  lemma PartialRemoval(d: Dirs, left: Node)
    ensures !d.backup.Absent? ==> Step(d, Stale, d.(backup := left), Done(false))
  {
  }

  lemma MayInspect(d: Dirs)
    ensures Step(d, Stale, d.(backup := Absent), Inspect)
  {
  }

  lemma MayCarry(d: Dirs)
    ensures if d.active.Absent? then Step(d, Inspect, d, Move(false))
            else Step(d, Inspect, d, Done(false)) && (d.active.Dir? ==> Step(d, Inspect, d, Carry))
  {
  }

  // --- Many swaps ----------------------------------------------------------------------------------

  /** The lock holder and what it is doing; `wins` counts successful swaps, `installs` staged copies put in place. */
  datatype System = Idle | Swapping(pc: Pc)
  datatype State = State(dirs: Dirs, system: System, wins: nat, installs: nat)

  /** Any process may take the free lock; an installer may put a copy where none is staged. */
  predicate Next(s: State, t: State) {
    || (s.system.Idle? && t == s.(system := Swapping(Begin)))
    || (s.system.Swapping? && t.system.Swapping? && Step(s.dirs, s.system.pc, t.dirs, t.system.pc) &&
        t == s.(dirs := t.dirs, system := t.system))
    || (s.system.Swapping? && s.system.pc.Done? &&
        t == s.(system := Idle, wins := if s.system.pc.ok then s.wins + 1 else s.wins))
    || (s.dirs.staged.Absent? && !t.dirs.staged.Absent? &&
        t == s.(dirs := s.dirs.(staged := t.dirs.staged), installs := s.installs + 1))
  }

  /** The current swap has taken the staged copy. */
  predicate Taken(s: System) {
    s.Swapping? && (s.pc.Cleanup? || s.pc == Done(true))
  }

  /** The current swap has seen the staged copy and not taken it. */
  predicate Holding(s: System) {
    s.Swapping? && !s.pc.Begin? && !s.pc.Done? && !s.pc.Cleanup?
  }

  predicate Fair(s: State) {
    s.wins + (if Taken(s.system) then 1 else 0) + (if s.dirs.staged.Absent? then 0 else 1) <= s.installs &&
    (Holding(s.system) ==> !s.dirs.staged.Absent?)
  }

  ghost predicate History(states: seq<State>) {
    |states| > 0 && states[0].system.Idle? && states[0].wins == 0 &&
    states[0].installs == (if states[0].dirs.staged.Absent? then 0 else 1) &&
    forall k :: 0 < k < |states| ==> Next(states[k - 1], states[k])
  }

  lemma FairStep(s: State, t: State)
    requires Fair(s) && Next(s, t)
    ensures Fair(t)
  {
  }

  /** Of any number of concurrent swaps, at most one succeeds per staged copy. */
  lemma {:induction false} OneSuccessPerStagedCopy(states: seq<State>, k: nat)
    requires History(states) && k < |states|
    ensures Fair(states[k]) && states[k].wins <= states[k].installs
  {
    hide Next, Step;
    if k > 0 {
      OneSuccessPerStagedCopy(states, k - 1);
      FairStep(states[k - 1], states[k]);
    }
  }
}
