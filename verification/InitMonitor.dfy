/**
 The ptrace monitor of init (loader/src/ptracer/monitor_impl.cpp): the tracing
 state machine, the roles of the processes it follows, and the ptrace calls it
 answers their stops with. ptrace calls are taken to succeed.
 */
module InitMonitor {

  datatype Tracing = TRACING | STOPPING | STOPPED | EXITING

  /** A wait status. `event` is 0 for a plain signal stop. */
  datatype Status = Exited | Signaled | Stopped(sig: nat, event: nat)

  const SIGCHLD: nat := 17
  const SIGSTOP: nat := 19
  const SIGTSTP: nat := 20
  const SIGTTIN: nat := 21
  const SIGTTOU: nat := 22
  const SIGTRAP: nat := 5
  const SIGKILL: nat := 9
  const EVENT_FORK: nat := 1
  const EVENT_EXEC: nat := 4
  const EVENT_STOP: nat := 128

  datatype Call = Seize | Interrupt | Cont(pid: int, sig: nat) | Detach(pid: int, sig: nat) | SetOptions(pid: int, fork: bool) | Kill(pid: int, sig: nat)

  /** Everything the monitor keeps, whether it has init seized, and the calls it has made. */
  datatype Monitor = Monitor(tracing: Tracing, reason: string, candidates: set<int>, stubs: set<int>,
                             seized: bool, calls: seq<Call>)

  /** What exec led to, and what check_and_prepare_injection and the injector's fork returned. */
  datatype Program = StubZygote | Target | Irrelevant
  datatype Preparation = Tracer | CrashLoop | NoDaemon
  datatype Exec = Exec(program: Program, preparation: Preparation, halt: Status, forkFails: bool)

  /** One event of the loop; `daemon` tells whether handle_daemon_exit_if_match takes it. */
  datatype Event = Start | Stop | Exit | Child(pid: int, status: Status, daemon: bool, exec: Exec)

  // --- The specification: one event, one step -----------------------------------------------------

  function Make(m: Monitor, calls: seq<Call>): Monitor {
    m.(calls := m.calls + calls)
  }

  function RequestStart(m: Monitor): Monitor {
    if m.tracing.STOPPING? then m.(tracing := TRACING)
    else if m.tracing.STOPPED? then Make(m, [Seize]).(tracing := TRACING, seized := true)
    else m
  }

  function RequestStop(m: Monitor, reason: string): Monitor {
    if m.tracing.TRACING? then Make(m, [Interrupt]).(tracing := STOPPING, reason := reason) else m
  }

  function RequestExit(m: Monitor): Monitor {
    m.(tracing := EXITING, reason := "user requested")
  }

  predicate JobControl(sig: nat) {
    sig == SIGSTOP || sig == SIGTSTP || sig == SIGTTIN || sig == SIGTTOU
  }

  /** The signal a stopped parent is resumed with. */
  function Forwarded(pid: int, s: Status): nat
    requires s.Stopped?
  {
    if s.event != 0 || JobControl(s.sig) || (pid != 1 && s.sig == SIGCHLD) then 0 else s.sig
  }

  function OnParent(m: Monitor, pid: int, s: Status): Monitor {
    if pid == 1 && s == Stopped(SIGTRAP, EVENT_STOP) && m.tracing.STOPPING? then
      Make(m, [Detach(1, 0)]).(tracing := STOPPED, seized := false)
    else if s.Stopped? then Make(m, [Cont(pid, Forwarded(pid, s))])
    else if pid != 1 then m.(stubs := m.stubs - {pid})
    else m
  }

  function OnNew(m: Monitor, pid: int): Monitor {
    Make(m, [SetOptions(pid, false), Cont(pid, 0)]).(candidates := m.candidates + {pid})
  }

  /** The zygote itself has been exec'ed while tracing, and its injector is ready. */
  predicate HandsOver(m: Monitor, e: Exec) {
    e.program.Target? && m.tracing.TRACING? && e.preparation.Tracer?
  }

  function OnExec(m: Monitor, pid: int, e: Exec): Monitor {
    if e.program.StubZygote? then
      Make(m, [SetOptions(pid, true), Cont(pid, 0)]).(stubs := m.stubs + {pid}, candidates := m.candidates - {pid})
    else if HandsOver(m, e) then
      var halted := Make(m, [Kill(pid, SIGSTOP), Cont(pid, 0)]);
      if e.halt == Stopped(SIGSTOP, 0) then
        Make(halted, [Detach(pid, SIGSTOP)] + if e.forkFails then [Kill(pid, SIGKILL)] else [])
      else Drop(halted, pid, e.halt)
    else if e.program.Target? && m.tracing.TRACING? then
      Drop(RequestStop(m, if e.preparation.CrashLoop? then "zygote crashed" else "daemon not running"), pid, Stopped(SIGTRAP, EVENT_EXEC))
    else Drop(m, pid, Stopped(SIGTRAP, EVENT_EXEC))
  }

  /** An irrelevant process is forgotten, and let go when it is stopped. */
  function Drop(m: Monitor, pid: int, s: Status): Monitor {
    Make(m, if s.Stopped? then [Detach(pid, 0)] else []).(candidates := m.candidates - {pid})
  }

  function OnTraced(m: Monitor, pid: int, s: Status, e: Exec): Monitor {
    if s == Stopped(SIGTRAP, EVENT_EXEC) then OnExec(m, pid, e)
    else if s == Stopped(SIGTRAP, EVENT_STOP) then Make(m, [SetOptions(pid, false), Cont(pid, 0)])
    else Drop(m, pid, s)
  }

  function Step(m: Monitor, e: Event): Monitor {
    match e
    case Start => RequestStart(m)
    case Stop => RequestStop(m, "user requested")
    case Exit => RequestExit(m)
    case Child(pid, status, daemon, exec) =>
      if pid == 1 || pid in m.stubs then OnParent(m, pid, status)
      else if daemon then m
      else if pid in m.candidates then OnTraced(m, pid, status, exec)
      else OnNew(m, pid)
  }

  function Run(m: Monitor, events: seq<Event>): Monitor
    decreases |events|
  {
    if events == [] then m else Run(Step(m, events[0]), events[1..])
  }

  // --- Invariants over all interleavings -------------------------------------------------------------

  /** Every signal passed on spares parents the stops of job control, and stubs the SIGCHLD of their children. */
  predicate Shielded(c: Call) {
    c.Cont? ==> !JobControl(c.sig) && (c.pid != 1 ==> c.sig != SIGCHLD)
  }

  ghost predicate Valid(m: Monitor) {
    m.candidates !! m.stubs && 1 !in m.candidates && 1 !in m.stubs &&
    (!m.tracing.EXITING? ==> (m.seized <==> m.tracing.TRACING? || m.tracing.STOPPING?)) &&
    forall c :: c in m.calls ==> Shielded(c)
  }

  lemma ValidStep(m: Monitor, e: Event)
    requires Valid(m)
    ensures Valid(Step(m, e))
    ensures m.tracing.EXITING? ==> Step(m, e).tracing.EXITING? && Step(m, e).seized == m.seized
  {
    hide OnExec, Forwarded, Shielded;
    assert Shielded(Seize) && Shielded(Interrupt) by { HarmlessCalls(0); }
    if e.Child? {
      HarmlessCalls(e.pid);
      ForwardedIsShielded(e.pid, e.status);
      if e.pid != 1 && e.pid in m.candidates {
        ValidExec(m, e.pid, e.exec);
      }
    }
  }

  /** Calls that pass no signal on. */
  lemma HarmlessCalls(pid: int)
    ensures Shielded(Seize) && Shielded(Interrupt) && Shielded(Cont(pid, 0)) && Shielded(Detach(pid, 0)) && Shielded(Detach(pid, SIGSTOP))
    ensures Shielded(SetOptions(pid, true)) && Shielded(SetOptions(pid, false)) && Shielded(Kill(pid, SIGSTOP)) && Shielded(Kill(pid, SIGKILL))
  {
  }

  lemma ForwardedIsShielded(pid: int, s: Status)
    ensures s.Stopped? ==> Shielded(Cont(pid, Forwarded(pid, s)))
  {
  }

  lemma ValidExec(m: Monitor, pid: int, e: Exec)
    requires Valid(m) && pid != 1 && pid in m.candidates
    ensures Valid(OnExec(m, pid, e))
    ensures m.tracing.EXITING? ==> OnExec(m, pid, e).tracing.EXITING? && OnExec(m, pid, e).seized == m.seized
  {
    hide Shielded;
    HarmlessCalls(pid);
  }

  /** The monitor as Init leaves it: init seized, nothing else known. */
  predicate Initial(m: Monitor) {
    m.tracing.TRACING? && m.seized && m.candidates == {} && m.stubs == {} && m.calls == [Seize]
  }

  /**
   Over every interleaving of commands and stops: init is seized exactly while
   tracing or stopping, EXITING is never left, and the two sets stay disjoint and
   without init.
   */
  lemma {:induction false} ValidRun(m: Monitor, events: seq<Event>)
    requires Valid(m)
    ensures Valid(Run(m, events))
    ensures m.tracing.EXITING? ==> Run(m, events).tracing.EXITING? && Run(m, events).seized == m.seized
    decreases |events|
  {
    hide Valid, Step;
    if events != [] {
      ValidStep(m, events[0]);
      ValidRun(Step(m, events[0]), events[1..]);
    }
  }

  // --- Stops are answered ----------------------------------------------------------------------------

  predicate AnswersTo(c: Call, pid: int) {
    (c.Cont? || c.Detach?) && c.pid == pid
  }

  function Answers(calls: seq<Call>, pid: int): nat {
    if calls == [] then 0 else (if AnswersTo(calls[0], pid) then 1 else 0) + Answers(calls[1..], pid)
  }

  lemma {:induction false} AnswersConcat(a: seq<Call>, b: seq<Call>, pid: int)
    ensures Answers(a + b, pid) == Answers(a, pid) + Answers(b, pid)
  {
    if a == [] {
      assert a + b == b;
    } else {
      assert (a + b)[1..] == a[1..] + b;
      AnswersConcat(a[1..], b, pid);
    }
  }

  function StopCount(s: Status): nat {
    if s.Stopped? then 1 else 0
  }

  /** The stops of `pid` that handling event `e` consumes: the one reported, and the halt waited for in a hand-over. */
  function Consumed(m: Monitor, e: Event, pid: int): nat {
    if !e.Child? || e.pid != pid then 0
    else
      StopCount(e.status) +
      (if pid != 1 && pid !in m.stubs && !e.daemon && pid in m.candidates && e.status == Stopped(SIGTRAP, EVENT_EXEC) && HandsOver(m, e.exec)
       then StopCount(e.exec.halt) else 0)
  }

  /** A process the monitor does not follow yet, reported dead: it is continued all the same. */
  predicate Unborn(m: Monitor, e: Event) {
    e.Child? && e.pid != 1 && e.pid !in m.stubs && e.pid !in m.candidates && !e.daemon && !e.status.Stopped?
  }

  /** A stop that is taken for the exit of a daemon: it is not answered. */
  predicate Ignored(m: Monitor, e: Event) {
    e.Child? && e.pid != 1 && e.pid !in m.stubs && e.daemon && e.status.Stopped?
  }

  /** Answers too many, or too few, that event `e` gives `pid`. */
  function Surplus(m: Monitor, e: Event, pid: int): int {
    if !e.Child? || e.pid != pid then 0 else if Unborn(m, e) then 1 else if Ignored(m, e) then -1 else 0
  }

  /** Calls made in one go are counted one by one. */
  lemma MakeCounts(m: Monitor, calls: seq<Call>, pid: int)
    requires |calls| <= 2
    ensures Answers(Make(m, calls).calls, pid) == Answers(m.calls, pid) +
            (if |calls| > 0 && AnswersTo(calls[0], pid) then 1 else 0) + (if |calls| > 1 && AnswersTo(calls[1], pid) then 1 else 0)
  {
    AnswersConcat(m.calls, calls, pid);
    if |calls| > 0 {
      assert Answers(calls, pid) == (if AnswersTo(calls[0], pid) then 1 else 0) + Answers(calls[1..], pid);
    }
  }

  lemma ParentAnswers(m: Monitor, pid: int, s: Status, q: int)
    ensures Answers(OnParent(m, pid, s).calls, q) == Answers(m.calls, q) + (if q == pid then StopCount(s) else 0)
  {
    hide Answers;
    MakeCounts(m, [Detach(1, 0)], q);
    if s.Stopped? {
      MakeCounts(m, [Cont(pid, Forwarded(pid, s))], q);
    }
  }

  lemma NewAnswers(m: Monitor, pid: int, q: int)
    ensures Answers(OnNew(m, pid).calls, q) == Answers(m.calls, q) + (if q == pid then 1 else 0)
  {
    hide Answers;
    MakeCounts(m, [SetOptions(pid, false), Cont(pid, 0)], q);
  }

  lemma DropAnswers(m: Monitor, pid: int, s: Status, q: int)
    ensures Answers(Drop(m, pid, s).calls, q) == Answers(m.calls, q) + (if q == pid then StopCount(s) else 0)
  {
    hide Answers;
    MakeCounts(m, if s.Stopped? then [Detach(pid, 0)] else [], q);
  }

  lemma HandOverAnswers(m: Monitor, pid: int, e: Exec, q: int)
    requires HandsOver(m, e)
    ensures Answers(OnExec(m, pid, e).calls, q) == Answers(m.calls, q) + (if q == pid then 1 + StopCount(e.halt) else 0)
  {
    hide Answers;
    MakeCounts(m, [Kill(pid, SIGSTOP), Cont(pid, 0)], q);
    var halted := Make(m, [Kill(pid, SIGSTOP), Cont(pid, 0)]);
    DropAnswers(halted, pid, e.halt, q);
    MakeCounts(halted, [Detach(pid, SIGSTOP)] + if e.forkFails then [Kill(pid, SIGKILL)] else [], q);
  }

  lemma ExecAnswers(m: Monitor, pid: int, e: Exec, q: int)
    requires !HandsOver(m, e)
    ensures Answers(OnExec(m, pid, e).calls, q) == Answers(m.calls, q) + (if q == pid then 1 else 0)
  {
    hide Answers;
    var exec := Stopped(SIGTRAP, EVENT_EXEC);
    if e.program.StubZygote? {
      MakeCounts(m, [SetOptions(pid, true), Cont(pid, 0)], q);
    } else {
      var reason := if e.preparation.CrashLoop? then "zygote crashed" else "daemon not running";
      MakeCounts(m, [Interrupt], q);
      DropAnswers(m, pid, exec, q);
      DropAnswers(RequestStop(m, reason), pid, exec, q);
    }
  }

  /** Each stop is answered by exactly one continue or detach, up to the surplus. */
  lemma StopsAnswered(m: Monitor, e: Event, pid: int)
    ensures Answers(Step(m, e).calls, pid) == Answers(m.calls, pid) + Consumed(m, e, pid) + Surplus(m, e, pid)
  {
    hide Answers, OnParent, OnNew, OnExec, Drop;
    match e
    case Start => MakeCounts(m, [Seize], pid);
    case Stop => MakeCounts(m, [Interrupt], pid);
    case Exit =>
    case Child(p, s, _, exec) =>
      ParentAnswers(m, p, s, pid);
      NewAnswers(m, p, pid);
      DropAnswers(m, p, s, pid);
      MakeCounts(m, [SetOptions(p, false), Cont(p, 0)], pid);
      if HandsOver(m, exec) {
        HandOverAnswers(m, p, exec, pid);
      } else {
        ExecAnswers(m, p, exec, pid);
      }
  }

  /** The stops of `pid` a run consumes, and the surplus of its answers. */
  function ConsumedIn(m: Monitor, events: seq<Event>, pid: int): nat
    decreases |events|
  {
    if events == [] then 0 else Consumed(m, events[0], pid) + ConsumedIn(Step(m, events[0]), events[1..], pid)
  }

  function SurplusIn(m: Monitor, events: seq<Event>, pid: int): int
    decreases |events|
  {
    if events == [] then 0 else Surplus(m, events[0], pid) + SurplusIn(Step(m, events[0]), events[1..], pid)
  }

  /** Over every run each stop of each process is answered by one continue or detach, up to the surplus. */
  lemma {:induction false} StopsAreAnswered(m: Monitor, events: seq<Event>, pid: int)
    ensures Answers(Run(m, events).calls, pid) == Answers(m.calls, pid) + ConsumedIn(m, events, pid) + SurplusIn(m, events, pid)
    decreases |events|
  {
    hide Answers, Step, Consumed, Surplus;
    if events != [] {
      StopsAnswered(m, events[0], pid);
      StopsAreAnswered(Step(m, events[0]), events[1..], pid);
    }
  }

  /**
   An event answers the stops it consumes and no others exactly when it neither
   reports the death of a process that has not stopped yet nor the stop of a daemon.
   The dead process stays among the candidates.
   */
  lemma AnsweredExactlyWhen(m: Monitor, e: Event)
    ensures (forall pid :: Answers(Step(m, e).calls, pid) == Answers(m.calls, pid) + Consumed(m, e, pid)) <==>
            !Unborn(m, e) && !Ignored(m, e)
    ensures Unborn(m, e) ==> e.pid in Step(m, e).candidates
  {
    hide Answers, Step, Consumed;
    forall pid
      ensures Answers(Step(m, e).calls, pid) == Answers(m.calls, pid) + Consumed(m, e, pid) + Surplus(m, e, pid)
    {
      StopsAnswered(m, e, pid);
    }
    if Unborn(m, e) {
      UnbornStays(m, e);
      assert Surplus(m, e, e.pid) == 1;
    }
    if Ignored(m, e) {
      assert Surplus(m, e, e.pid) == -1;
    }
  }

  lemma UnbornStays(m: Monitor, e: Event)
    requires Unborn(m, e)
    ensures e.pid in Step(m, e).candidates
  {
  }

  // --- What a run leaves of init and of the zygotes -----------------------------------------------------

  /** Every seize of init counts one up, every detach one down. */
  function Balance(calls: seq<Call>): int {
    if calls == [] then 0 else Weight(calls[0]) + Balance(calls[1..])
  }

  function Weight(c: Call): int {
    if c == Seize then 1 else if c == Detach(1, 0) then -1 else 0
  }

  lemma {:induction false} BalanceConcat(a: seq<Call>, b: seq<Call>)
    ensures Balance(a + b) == Balance(a) + Balance(b)
  {
    if a == [] {
      assert a + b == b;
    } else {
      assert (a + b)[1..] == a[1..] + b;
      BalanceConcat(a[1..], b);
    }
  }

  lemma {:induction false} NothingWeighs(calls: seq<Call>)
    requires forall c :: c in calls ==> Weight(c) == 0
    ensures Balance(calls) == 0
  {
    if calls != [] {
      NothingWeighs(calls[1..]);
    }
  }

  lemma OneWeighs(c: Call)
    ensures Balance([c]) == Weight(c)
  {
    assert [c][1..] == [];
  }

  /** Init has been seized once more than it has been let go exactly while it is seized. */
  predicate Balanced(m: Monitor) {
    Balance(m.calls) == if m.seized then 1 else 0
  }

  /** A call that does not seize, release or continue init, and freezes `pid` only as part of its hand-over. */
  predicate OfOther(m: Monitor, pid: int, e: Exec, c: Call) {
    Weight(c) == 0 && (c.Cont? ==> c.pid != 1) && (c.Detach? && c.sig == SIGSTOP ==> c.pid == pid && HandsOver(m, e))
  }

  lemma ExecAppends(m: Monitor, pid: int, e: Exec) returns (more: seq<Call>)
    requires pid != 1
    ensures OnExec(m, pid, e).calls == m.calls + more && OnExec(m, pid, e).seized == m.seized
    ensures forall c :: c in more ==> OfOther(m, pid, e, c)
  {
    if e.program.StubZygote? {
      more := [SetOptions(pid, true), Cont(pid, 0)];
    } else if HandsOver(m, e) {
      var last := if e.halt == Stopped(SIGSTOP, 0) then [Detach(pid, SIGSTOP)] + if e.forkFails then [Kill(pid, SIGKILL)] else []
                  else if e.halt.Stopped? then [Detach(pid, 0)] else [];
      more := [Kill(pid, SIGSTOP), Cont(pid, 0)] + last;
      assert m.calls + more == (m.calls + [Kill(pid, SIGSTOP), Cont(pid, 0)]) + last;
    } else if e.program.Target? && m.tracing.TRACING? {
      more := [Interrupt, Detach(pid, 0)];
      assert m.calls + more == (m.calls + [Interrupt]) + [Detach(pid, 0)];
    } else {
      more := [Detach(pid, 0)];
    }
  }

  /** What the stop of a traced process leads to. */
  lemma TracedAppends(m: Monitor, pid: int, s: Status, e: Exec) returns (more: seq<Call>)
    requires pid != 1
    ensures OnTraced(m, pid, s, e).calls == m.calls + more && OnTraced(m, pid, s, e).seized == m.seized
    ensures forall c :: c in more ==> OfOther(m, pid, e, c)
  {
    hide OnExec;
    if s == Stopped(SIGTRAP, EVENT_EXEC) {
      more := ExecAppends(m, pid, e);
    } else if s == Stopped(SIGTRAP, EVENT_STOP) {
      more := [SetOptions(pid, false), Cont(pid, 0)];
    } else {
      more := if s.Stopped? then [Detach(pid, 0)] else [];
    }
  }

  /** The calls of an event that is not about init. */
  lemma OthersAppend(m: Monitor, e: Event) returns (more: seq<Call>)
    requires Valid(m) && e.Child? && e.pid != 1
    ensures Step(m, e).calls == m.calls + more && Step(m, e).seized == m.seized
    ensures forall c :: c in more ==> Weight(c) == 0 && (c.Cont? ==> c.pid != 1)
    ensures forall c :: c in more && c.Detach? && c.sig == SIGSTOP ==> c.pid == e.pid && e.pid in m.candidates && HandsOver(m, e.exec)
  {
    hide OnExec, OnTraced, HandsOver, Forwarded, Shielded;
    if e.pid in m.stubs {
      more := if e.status.Stopped? then [Cont(e.pid, Forwarded(e.pid, e.status))] else [];
    } else if e.daemon {
      more := [];
      assert m.calls + more == m.calls;
    } else if e.pid in m.candidates {
      more := TracedAppends(m, e.pid, e.status, e.exec);
    } else {
      more := [SetOptions(e.pid, false), Cont(e.pid, 0)];
    }
  }

  lemma BalancedStep(m: Monitor, e: Event)
    requires Valid(m) && Balanced(m)
    ensures Balanced(Step(m, e))
  {
    hide OnExec, OnTraced, Forwarded, Shielded, Balance;
    if e.Child? && e.pid != 1 {
      var more := OthersAppend(m, e);
      BalanceConcat(m.calls, more);
      NothingWeighs(more);
    } else {
      AppendOne(m, Seize);
      AppendOne(m, Interrupt);
      AppendOne(m, Detach(1, 0));
      if e.Child? && e.status.Stopped? {
        AppendOne(m, Cont(1, Forwarded(1, e.status)));
      }
    }
  }

  lemma AppendOne(m: Monitor, c: Call)
    ensures Balance(Make(m, [c]).calls) == Balance(m.calls) + Weight(c)
  {
    BalanceConcat(m.calls, [c]);
    OneWeighs(c);
  }

  /**
   Over every run each seize of init but the last is matched by one
   detach, and the last one too unless init is still seized: init is never seized
   twice or detached twice in a row.
   */
  lemma {:induction false} SeizesAreReleased(m: Monitor, events: seq<Event>)
    requires Valid(m) && Balanced(m)
    ensures Balanced(Run(m, events))
    decreases |events|
  {
    hide Valid, Step, Balanced;
    if events != [] {
      ValidStep(m, events[0]);
      BalancedStep(m, events[0]);
      SeizesAreReleased(Step(m, events[0]), events[1..]);
    }
  }

  /** The signals init is continued with, in order. */
  function PassedToInit(calls: seq<Call>): seq<nat> {
    if calls == [] then []
    else (if calls[0].Cont? && calls[0].pid == 1 && calls[0].sig != 0 then [calls[0].sig] else []) + PassedToInit(calls[1..])
  }

  /** The signals init stops with that are not job control. */
  function SignalsOfInit(events: seq<Event>): seq<nat> {
    if events == [] then [] else SignalOfInit(events[0]) + SignalsOfInit(events[1..])
  }

  function SignalOfInit(e: Event): seq<nat> {
    if e.Child? && e.pid == 1 && e.status.Stopped? && e.status.event == 0 && !JobControl(e.status.sig) && e.status.sig != 0
    then [e.status.sig] else []
  }

  lemma {:induction false} PassedConcat(a: seq<Call>, b: seq<Call>)
    ensures PassedToInit(a + b) == PassedToInit(a) + PassedToInit(b)
  {
    if a == [] {
      assert a + b == b;
    } else {
      assert (a + b)[1..] == a[1..] + b;
      PassedConcat(a[1..], b);
    }
  }

  lemma {:induction false} NothingPassed(calls: seq<Call>)
    requires forall c :: c in calls && c.Cont? ==> c.pid != 1 || c.sig == 0
    ensures PassedToInit(calls) == []
  {
    if calls != [] {
      NothingPassed(calls[1..]);
    }
  }

  /** Init gets every signal it was stopped with that is not job control, once and in order, and no other. */
  lemma {:induction false} InitGetsItsSignals(m: Monitor, events: seq<Event>)
    requires Valid(m)
    ensures PassedToInit(Run(m, events).calls) == PassedToInit(m.calls) + SignalsOfInit(events)
    decreases |events|
  {
    hide Step, Valid, SignalOfInit;
    if events != [] {
      ValidStep(m, events[0]);
      OneSignal(m, events[0]);
      InitGetsItsSignals(Step(m, events[0]), events[1..]);
    }
  }

  lemma OneSignal(m: Monitor, e: Event)
    requires Valid(m)
    ensures PassedToInit(Step(m, e).calls) == PassedToInit(m.calls) + SignalOfInit(e)
  {
    hide OnExec, OnTraced, Shielded, PassedToInit;
    if e.Child? && e.pid != 1 {
      var more := OthersAppend(m, e);
      PassedConcat(m.calls, more);
      NothingPassed(more);
    } else {
      PassOne(m, Seize);
      PassOne(m, Interrupt);
      PassOne(m, Detach(1, 0));
      if e.Child? && e.status.Stopped? {
        PassOne(m, Cont(1, Forwarded(1, e.status)));
      }
    }
  }

  lemma PassOne(m: Monitor, c: Call)
    ensures PassedToInit(Make(m, [c]).calls) == PassedToInit(m.calls) + if c.Cont? && c.pid == 1 && c.sig != 0 then [c.sig] else []
  {
    PassedConcat(m.calls, [c]);
    assert [c][1..] == [];
  }

  /** Somewhere in the run `pid` execs a zygote while tracing, with its injector ready. */
  predicate ExecsWhileTracing(m: Monitor, events: seq<Event>, pid: int)
    decreases |events|
  {
    events != [] &&
    ((events[0].Child? && events[0].pid == pid && pid in m.candidates && HandsOver(m, events[0].exec)) ||
     ExecsWhileTracing(Step(m, events[0]), events[1..], pid))
  }

  lemma HandOverCause(m: Monitor, e: Event, pid: int)
    requires Valid(m)
    ensures Detach(pid, SIGSTOP) in Step(m, e).calls ==>
              Detach(pid, SIGSTOP) in m.calls || (e.Child? && e.pid == pid && pid in m.candidates && HandsOver(m, e.exec))
  {
    hide OnExec, OnTraced, HandsOver, Forwarded, Shielded;
    if e.Child? && e.pid != 1 {
      var more := OthersAppend(m, e);
    }
  }

  /** A process is left frozen for an injector only by a run in which it execs a zygote while the monitor is tracing. */
  lemma {:induction false} HandOverOnlyWhileTracing(m: Monitor, events: seq<Event>, pid: int)
    requires Valid(m)
    ensures Detach(pid, SIGSTOP) in Run(m, events).calls ==>
              Detach(pid, SIGSTOP) in m.calls || ExecsWhileTracing(m, events, pid)
    decreases |events|
  {
    hide Step, HandsOver, Valid;
    if events != [] {
      ValidStep(m, events[0]);
      HandOverCause(m, events[0], pid);
      HandOverOnlyWhileTracing(Step(m, events[0]), events[1..], pid);
    }
  }

  // --- What single events achieve ------------------------------------------------------------------------

  /**
   A candidate leaves the candidates with its exec, except for one that is handed to
   the injector: its wait status has been replaced by the one of the halt.
   */
  lemma CandidateLeavesExactlyWhen(m: Monitor, pid: int, exec: Exec)
    requires Valid(m) && pid in m.candidates
    ensures pid in Step(m, Child(pid, Stopped(SIGTRAP, EVENT_EXEC), false, exec)).candidates <==>
            !exec.program.StubZygote? && HandsOver(m, exec) && exec.halt == Stopped(SIGSTOP, 0)
  {
  }

  // --- The monitor itself --------------------------------------------------------------------------------

  class AppMonitor {
    var tracing: Tracing
    var reason: string
    var process: set<int>
    var stubProcesses: set<int>
    var seized: bool
    var calls: seq<Call>

    function View(): Monitor
      reads this
    {
      Monitor(tracing, reason, process, stubProcesses, seized, calls)
    }

    /** The monitor after SigChldHandler::Init has seized init. */
    constructor ()
      ensures Initial(View()) && Valid(View())
    {
      tracing, reason := TRACING, "";
      process, stubProcesses := {}, {};
      seized, calls := true, [Seize];
    }

    method Ptrace(c: Call)
      modifies this`calls
      ensures calls == old(calls) + [c]
    {
      calls := calls + [c];
    }

    method RequestStartMonitor()
      modifies this
      ensures View() == RequestStart(old(View()))
    {
      if tracing == STOPPING {
        tracing := TRACING;
      } else if tracing == STOPPED {
        Ptrace(Seize);
        seized := true;
        tracing := TRACING;
      }
    }

    method RequestStopMonitor(why: string)
      modifies this
      ensures View() == RequestStop(old(View()), why)
    {
      if tracing == TRACING {
        tracing := STOPPING;
        reason := why;
        Ptrace(Interrupt);
      }
    }

    method RequestExitMonitor()
      modifies this
      ensures View() == RequestExit(old(View()))
    {
      tracing := EXITING;
      reason := "user requested";
    }

    method HandleParentEvent(pid: int, status: Status)
      modifies this
      ensures View() == OnParent(old(View()), pid, status)
    {
      if status == Stopped(SIGTRAP, EVENT_FORK) {
        // the child's pid is only logged
      } else if pid == 1 && status == Stopped(SIGTRAP, EVENT_STOP) && tracing == STOPPING {
        Ptrace(Detach(1, 0));
        seized := false;
        tracing := STOPPED;
        return;
      } else if pid != 1 && !status.Stopped? {
        stubProcesses := stubProcesses - {pid};
        return;
      }
      if status.Stopped? {
        if status.event == 0 {
          var sig := status.sig;
          if sig == SIGSTOP || sig == SIGTSTP || sig == SIGTTIN || sig == SIGTTOU {
          } else if pid != 1 && sig == SIGCHLD {
          } else {
            Ptrace(Cont(pid, sig));
            return;
          }
        }
        Ptrace(Cont(pid, 0));
      }
    }

    method HandleNewProcess(pid: int)
      modifies this
      ensures View() == OnNew(old(View()), pid)
    {
      process := process + {pid};
      Ptrace(SetOptions(pid, false));
      Ptrace(Cont(pid, 0));
    }

    /** Answers whether the process stays attached or was handed over, and its latest wait status. */
    method HandleExecEvent(pid: int, status: Status, exec: Exec) returns (handled: bool, latest: Status)
      requires status == Stopped(SIGTRAP, EVENT_EXEC)
      modifies this
      ensures handled ==> View() == OnExec(old(View()), pid, exec).(candidates := old(process))
      ensures handled ==> latest == if exec.program.StubZygote? then status else Stopped(SIGSTOP, 0)
      ensures handled ==> OnExec(old(View()), pid, exec).candidates == if latest == status then old(process) - {pid} else old(process)
      ensures !handled ==> Drop(View(), pid, latest) == OnExec(old(View()), pid, exec)
    {
      latest := status;
      if exec.program.StubZygote? {
        stubProcesses := stubProcesses + {pid};
        Ptrace(SetOptions(pid, true));
        Ptrace(Cont(pid, 0));
        return true, latest;
      }
      if tracing != TRACING || !exec.program.Target? {
        return false, latest;
      }
      if exec.preparation.CrashLoop? {
        RequestStopMonitor("zygote crashed");
        return false, latest;
      }
      if exec.preparation.NoDaemon? {
        RequestStopMonitor("daemon not running");
        return false, latest;
      }
      Ptrace(Kill(pid, SIGSTOP));
      Ptrace(Cont(pid, 0));
      latest := exec.halt;
      if latest != Stopped(SIGSTOP, 0) {
        return false, latest;
      }
      Ptrace(Detach(pid, SIGSTOP));
      if exec.forkFails {
        Ptrace(Kill(pid, SIGKILL));
      }
      return true, latest;
    }

    method HandleTracedProcess(pid: int, status: Status, exec: Exec)
      modifies this
      ensures View() == OnTraced(old(View()), pid, status, exec)
    {
      var keepAttached, latest := false, status;
      if status == Stopped(SIGTRAP, EVENT_EXEC) {
        keepAttached, latest := HandleExecEvent(pid, status, exec);
      } else if status == Stopped(SIGTRAP, EVENT_STOP) {
        Ptrace(SetOptions(pid, false));
        Ptrace(Cont(pid, 0));
        keepAttached := true;
      }
      if keepAttached {
        if latest == Stopped(SIGTRAP, EVENT_EXEC) {
          process := process - {pid};
        }
        return;
      }
      process := process - {pid};
      if latest.Stopped? {
        Ptrace(Detach(pid, 0));
      }
    }

    method HandleChildEvent(pid: int, status: Status, daemon: bool, exec: Exec)
      modifies this
      ensures View() == Step(old(View()), Child(pid, status, daemon, exec))
    {
      if pid == 1 || pid in stubProcesses {
        HandleParentEvent(pid, status);
        return;
      }
      if daemon {
        return;
      }
      if pid in process {
        HandleTracedProcess(pid, status, exec);
      } else {
        HandleNewProcess(pid);
      }
    }

    /** The event loop, over any sequence of commands and child events. */
    method Loop(events: seq<Event>)
      requires Valid(View())
      modifies this
      ensures View() == Run(old(View()), events) && Valid(View())
    {
      hide Step, Valid;
      ValidRun(View(), events);
      var k := 0;
      while k < |events|
        invariant k <= |events| && Run(View(), events[k..]) == Run(old(View()), events)
      {
        assert events[k..][0] == events[k] && events[k..][1..] == events[k + 1..];
        Dispatch(events[k]);
        k := k + 1;
      }
    }

    method Dispatch(e: Event)
      modifies this
      ensures View() == Step(old(View()), e)
    {
      match e
      case Start => RequestStartMonitor();
      case Stop => RequestStopMonitor("user requested");
      case Exit => RequestExitMonitor();
      case Child(pid, status, daemon, exec) => HandleChildEvent(pid, status, daemon, exec);
    }
  }
}
