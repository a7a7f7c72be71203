/** The lock of one face as an interleaving of threads: the conditional discipline of
    acquiring and releasing only while no run executes on the handle. */
module FaceLock {
  import opened Options
  import opened RunState

  /** An operation such as `put`: it tests for a run, takes the lock if there was none,
      does its work, tests again, and releases the lock if there is none then.
      `took` only records what the first test led to. */
  datatype Call = Waiting | Inside(took: bool) | Releasing

  /** A thread outside the face, in an operation, or somewhere in `run`.  While the run
      executes, its upcalls may begin operations of their own. */
  datatype Thread =
    | Idle
    | InCall(call: Call)
    | RunWaiting
    | RunLocked
    | Running(upcall: Option<Call>)
    | RunCleared

  /** `lock` names the thread that acquired it; `list` holds the handles with a run. */
  datatype State = State(lock: Option<nat>, list: seq<Handle>, threads: seq<Thread>)

  datatype Step =
    | Begin(t: nat)
    | Acquire(t: nat)
    | Finish(t: nat)
    | Release(t: nat)
    | BeginRun(t: nat)
    | AcquireRun(t: nat)
    | AddEntry(t: nat)
    | AddFails(t: nat)
    | UpcallBegin(t: nat)
    | UpcallAcquire(t: nat)
    | UpcallFinish(t: nat)
    | UpcallRelease(t: nat)
    | ClearEntry(t: nat)
    | ReleaseRun(t: nat)
    | OtherFaces(list: seq<Handle>)

  /** `is_run_executing` on handle `h` */
  predicate Executing(s: State, h: Handle) { h in s.list }

  function Set(s: State, t: nat, thread: Thread): State
    requires t < |s.threads|
  {
    s.(threads := s.threads[t := thread])
  }

  /** After the first test of an operation. */
  function Entered(s: State, h: Handle): Call {
    if Executing(s, h) then Inside(false) else Waiting
  }

  /** The state after a step, `None` when the thread is elsewhere or must wait. */
  function Next(s: State, h: Handle, step: Step): Option<State> {
    if step.OtherFaces? then
      // Runs on other handles come and go.
      if multiset(step.list)[h] == multiset(s.list)[h] then Some(s.(list := step.list)) else None
    else if |s.threads| <= step.t then None
    else
      var t, thread := step.t, s.threads[step.t];
      match step
      case Begin(_) =>
        if thread != Idle then None else Some(Set(s, t, InCall(Entered(s, h))))
      case Acquire(_) =>
        if thread != InCall(Waiting) || s.lock.Some? then None
        else Some(Set(s, t, InCall(Inside(true))).(lock := Some(t)))
      case Finish(_) =>
        if !thread.InCall? || !thread.call.Inside? then None
        else Some(Set(s, t, if Executing(s, h) then Idle else InCall(Releasing)))
      case Release(_) =>
        if thread != InCall(Releasing) then None else Some(Set(s, t, Idle).(lock := None))
      case BeginRun(_) =>
        // The assertion in `run` fails while a run executes.
        if thread != Idle then None else if Executing(s, h) then Some(s) else Some(Set(s, t, RunWaiting))
      case AcquireRun(_) =>
        if thread != RunWaiting || s.lock.Some? then None else Some(Set(s, t, RunLocked).(lock := Some(t)))
      case AddEntry(_) =>
        if thread != RunLocked then None else Some(Set(s, t, Running(None)).(list := [h] + s.list))
      case AddFails(_) =>
        if thread != RunLocked then None else Some(Set(s, t, RunCleared))
      case UpcallBegin(_) =>
        if thread != Running(None) then None else Some(Set(s, t, Running(Some(Entered(s, h)))))
      case UpcallAcquire(_) =>
        if thread != Running(Some(Waiting)) || s.lock.Some? then None
        else Some(Set(s, t, Running(Some(Inside(true)))).(lock := Some(t)))
      case UpcallFinish(_) =>
        if !thread.Running? || thread.upcall.None? || !thread.upcall.value.Inside? then None
        else Some(Set(s, t, Running(if Executing(s, h) then None else Some(Releasing))))
      case UpcallRelease(_) =>
        if thread != Running(Some(Releasing)) then None else Some(Set(s, t, Running(None)).(lock := None))
      case ClearEntry(_) =>
        if thread != Running(None) then None
        else Some(Set(s, t, RunCleared).(list := RemoveFirst(s.list, h)))
      case ReleaseRun(_) =>
        if thread != RunCleared then None else Some(Set(s, t, Idle).(lock := None))
  }

  /** Calls begun while a run executes come only from that run's upcalls. */
  predicate Disciplined(s: State, h: Handle, step: Step) {
    step.Begin? ==> !Executing(s, h)
  }

  // ----- Safety -----

  predicate Owns(thread: Thread) {
    thread == InCall(Inside(true)) || thread == InCall(Releasing) || thread.RunLocked? || thread.Running?
    || thread.RunCleared?
  }

  /** About to release the lock. */
  predicate AtRelease(thread: Thread) {
    thread == InCall(Releasing) || thread == RunCleared || thread == Running(Some(Releasing))
  }

  predicate Runner(s: State) {
    s.lock.Some? && s.lock.value < |s.threads| && s.threads[s.lock.value].Running?
  }

  ghost predicate Inv(s: State, h: Handle) {
    && (s.lock.Some? ==> s.lock.value < |s.threads|)
    && (forall t | 0 <= t < |s.threads| :: Owns(s.threads[t]) <==> s.lock == Some(t))
    && (forall t | 0 <= t < |s.threads| :: s.threads[t] != InCall(Inside(false)))
    && (forall t | 0 <= t < |s.threads| ::
          s.threads[t].Running? && s.threads[t].upcall.Some? ==> s.threads[t].upcall.value == Inside(false))
    && multiset(s.list)[h] == if Runner(s) then 1 else 0
  }

  /** What the discipline is for. */
  ghost predicate Safe(s: State, h: Handle) {
    // at most one thread owns the lock, and it is the one that acquired it
    && (forall t | 0 <= t < |s.threads| && Owns(s.threads[t]) :: s.lock == Some(t))
    // a run entry means the runner holds the lock
    && (Executing(s, h) ==> Runner(s))
    // every release is by the owner
    && (forall t | 0 <= t < |s.threads| && AtRelease(s.threads[t]) :: s.lock == Some(t))
    // no thread is left inside an operation without the protection of the lock or of its own run
    && (forall t | 0 <= t < |s.threads| && s.threads[t].InCall? && s.threads[t].call.Inside? :: s.lock == Some(t))
    // the lock is free when nobody is on the face
    && ((forall t | 0 <= t < |s.threads| :: s.threads[t] == Idle) ==> s.lock == None)
    // clearing the entry finds a nonempty list
    && (forall t | 0 <= t < |s.threads| && s.threads[t].Running? :: h in s.list)
  }

  predicate Initial(s: State, h: Handle) {
    s.lock == None && h !in s.list && forall t | 0 <= t < |s.threads| :: s.threads[t] == Idle
  }

  lemma InvIsSafe(s: State, h: Handle)
    requires Inv(s, h)
    ensures Safe(s, h)
  {
    assert Executing(s, h) <==> 0 < multiset(s.list)[h];
  }

  lemma InvStep(s: State, h: Handle, step: Step)
    requires Inv(s, h) && Next(s, h, step).Some? && Disciplined(s, h, step)
    ensures Inv(Next(s, h, step).value, h)
  {
    match step
    case AddEntry(_) => InvListStep(s, h, step);
    case ClearEntry(_) => InvListStep(s, h, step);
    case OtherFaces(_) =>
    case UpcallBegin(_) => InvUpcallStep(s, h, step);
    case UpcallAcquire(_) => InvUpcallStep(s, h, step);
    case UpcallFinish(_) => InvUpcallStep(s, h, step);
    case UpcallRelease(_) => InvUpcallStep(s, h, step);
    case _ => InvCallStep(s, h, step);
  }

  lemma InvListStep(s: State, h: Handle, step: Step)
    requires Inv(s, h) && Next(s, h, step).Some? && (step.AddEntry? || step.ClearEntry?)
    ensures Inv(Next(s, h, step).value, h)
  {
    hide RemoveFirst;
    var t, next := step.t, Next(s, h, step).value;
    OwnerOf(s, h, t);
    if step.AddEntry? {
      assert multiset([h] + s.list) == multiset{h} + multiset(s.list);
      InvEntry(s, h, t, Running(None), next.list);
    } else {
      RemoveFirstCount(s.list, h);
      InvEntry(s, h, t, RunCleared, next.list);
    }
  }

  /** The owner of the lock starts or ends its run, adding or taking away its entry. */
  lemma InvEntry(s: State, h: Handle, t: nat, thread: Thread, list: seq<Handle>)
    requires Inv(s, h) && s.lock == Some(t) && (thread == Running(None) || thread == RunCleared)
    requires multiset(list)[h] == if thread.Running? then 1 else 0
    ensures Inv(Set(s, t, thread).(list := list), h)
  {
  }

  lemma InvUpcallStep(s: State, h: Handle, step: Step)
    requires Inv(s, h) && Next(s, h, step).Some?
    requires step.UpcallBegin? || step.UpcallAcquire? || step.UpcallFinish? || step.UpcallRelease?
    ensures Inv(Next(s, h, step).value, h)
  {
    assert Executing(s, h) <==> 0 < multiset(s.list)[h];
  }

  /** A thread outside its run moves on, taking the lock if it was free or handing
      back its own. */
  lemma InvMove(s: State, h: Handle, t: nat, thread: Thread)
    requires Inv(s, h) && t < |s.threads|
    requires !s.threads[t].Running? && !thread.Running? && thread != InCall(Inside(false))
    requires Owns(thread) ==> s.lock == None || s.lock == Some(t)
    ensures var lock := if Owns(thread) then Some(t) else if s.lock == Some(t) then None else s.lock;
            Inv(Set(s, t, thread).(lock := lock), h)
  {
  }

  lemma InvCallStep(s: State, h: Handle, step: Step)
    requires Inv(s, h) && Next(s, h, step).Some? && Disciplined(s, h, step)
    requires step.Begin? || step.Acquire? || step.Finish? || step.Release? || step.BeginRun? || step.AcquireRun?
             || step.AddFails? || step.ReleaseRun?
    ensures Inv(Next(s, h, step).value, h)
  {
    var t, next := step.t, Next(s, h, step).value;
    OwnerOf(s, h, t);
    if Owns(s.threads[t]) {
      NotInRun(s, h, t);
    }
    if next != s {
      hide Inv;
      InvMove(s, h, t, next.threads[t]);
      var lock := if Owns(next.threads[t]) then Some(t) else if s.lock == Some(t) then None else s.lock;
      assert next == Set(s, t, next.threads[t]).(lock := lock);
    }
  }

  lemma OwnerOf(s: State, h: Handle, t: nat)
    requires Inv(s, h) && t < |s.threads|
    ensures Owns(s.threads[t]) <==> s.lock == Some(t)
    ensures s.threads[t] != InCall(Inside(false))
  {
  }

  /** A thread in an operation of its own is not the runner. */
  lemma NotInRun(s: State, h: Handle, t: nat)
    requires Inv(s, h) && t < |s.threads| && Owns(s.threads[t]) && !s.threads[t].Running?
    ensures !Executing(s, h)
  {
    assert Executing(s, h) <==> 0 < multiset(s.list)[h];
  }

  /** The steps are all enabled in turn, each one disciplined; the state they lead to. */
  function RunSteps(s: State, h: Handle, steps: seq<Step>): Option<State>
    decreases |steps|
  {
    if steps == [] then Some(s)
    else
      match Next(s, h, steps[0])
      case None => None
      case Some(next) => RunSteps(next, h, steps[1..])
  }

  predicate AllDisciplined(s: State, h: Handle, steps: seq<Step>)
    decreases |steps|
  {
    steps == [] ||
    (&& Disciplined(s, h, steps[0])
     && Next(s, h, steps[0]).Some?
     && AllDisciplined(Next(s, h, steps[0]).value, h, steps[1..]))
  }

  lemma {:induction false} InvRun(s: State, h: Handle, steps: seq<Step>)
    requires Inv(s, h) && AllDisciplined(s, h, steps)
    ensures RunSteps(s, h, steps).Some? && Inv(RunSteps(s, h, steps).value, h)
    decreases |steps|
  {
    if steps != [] {
      InvStep(s, h, steps[0]);
      InvRun(Next(s, h, steps[0]).value, h, steps[1..]);
    }
  }

  /** In every state reachable by any interleaving that keeps the discipline, the lock
      is used safely. */
  lemma DisciplineIsSafe(s: State, h: Handle, steps: seq<Step>)
    requires Initial(s, h) && AllDisciplined(s, h, steps)
    ensures RunSteps(s, h, steps).Some? && Safe(RunSteps(s, h, steps).value, h)
  {
    InvRun(s, h, steps);
    InvIsSafe(RunSteps(s, h, steps).value, h);
  }

  /** The discipline is also necessary: from any such state in which a run executes, a
      call begun by another thread can end in a release of a lock it does not own. */
  lemma UndisciplinedIsUnsafe(s: State, h: Handle, t: nat) returns (steps: seq<Step>)
    requires Inv(s, h) && Executing(s, h) && t < |s.threads| && s.threads[t] == Idle
    ensures steps != [] && steps[0] == Begin(t) && NoBegin(steps[1..])
    ensures RunSteps(s, h, steps).Some? && !Safe(RunSteps(s, h, steps).value, h)
  {
    hide Safe, RunSteps;
    assert Executing(s, h) <==> 0 < multiset(s.list)[h];
    var r := s.lock.value;
    var begun := Set(s, t, InCall(Inside(false)));
    var back := Set(begun, r, Running(None));
    assert Next(s, h, Begin(t)) == Some(begun);
    var tail := RunEnds(back, h, r, t);
    if s.threads[r] == Running(None) {
      assert back == begun;
    } else {
      assert Next(begun, h, UpcallFinish(r)) == Some(back);
      RunCons(begun, h, UpcallFinish(r), back, tail);
      tail := [UpcallFinish(r)] + tail;
    }
    RunCons(s, h, Begin(t), begun, tail);
    steps := [Begin(t)] + tail;
  }

  predicate NoBegin(steps: seq<Step>) {
    forall i | 0 <= i < |steps| :: !steps[i].Begin?
  }

  lemma RunCons(s: State, h: Handle, step: Step, next: State, steps: seq<Step>)
    requires Next(s, h, step) == Some(next)
    ensures RunSteps(s, h, [step] + steps) == RunSteps(next, h, steps)
  {
    hide Next;
    assert ([step] + steps)[1..] == steps;
  }

  /** The run ends while another thread is inside a call it began without the lock. */
  lemma RunEnds(s: State, h: Handle, r: nat, t: nat) returns (steps: seq<Step>)
    requires r < |s.threads| && t < |s.threads| && r != t && s.lock == Some(r)
    requires s.threads[r] == Running(None) && s.threads[t] == InCall(Inside(false))
    requires multiset(s.list)[h] == 1
    ensures NoBegin(steps) && RunSteps(s, h, steps).Some? && !Safe(RunSteps(s, h, steps).value, h)
  {
    hide Safe, RunSteps, RemoveFirst;
    RemoveFirstCount(s.list, h);
    var list := RemoveFirst(s.list, h);
    assert multiset(RemoveFirst(s.list, h))[h] == 0;
    var cleared := Set(s, r, RunCleared).(list := list);
    var idle := Set(cleared, r, Idle).(lock := None);
    var last := Set(idle, t, InCall(Releasing));
    assert Next(s, h, ClearEntry(r)) == Some(cleared) && Next(cleared, h, ReleaseRun(r)) == Some(idle);
    assert Next(idle, h, Finish(t)) == Some(last);
    steps := [ClearEntry(r), ReleaseRun(r), Finish(t)];
    ThreeSteps(s, h, ClearEntry(r), ReleaseRun(r), Finish(t), cleared, idle, last);
    ReleasesOthers(last, h, t);
  }

  lemma ReleasesOthers(s: State, h: Handle, t: nat)
    requires t < |s.threads| && AtRelease(s.threads[t]) && s.lock != Some(t)
    ensures !Safe(s, h)
  {
  }

  lemma ThreeSteps(s: State, h: Handle, a: Step, b: Step, c: Step, s1: State, s2: State, s3: State)
    requires Next(s, h, a) == Some(s1) && Next(s1, h, b) == Some(s2) && Next(s2, h, c) == Some(s3)
    ensures RunSteps(s, h, [a, b, c]) == Some(s3)
  {
    hide Next;
    var none: seq<Step> := [];
    RunCons(s2, h, c, s3, none);
    RunCons(s1, h, b, s2, [c] + none);
    RunCons(s, h, a, s1, [b] + ([c] + none));
    assert [a, b, c] == [a] + ([b] + ([c] + none));
  }

  lemma {:induction false} RunConcat(s: State, h: Handle, a: seq<Step>, b: seq<Step>)
    requires RunSteps(s, h, a).Some?
    ensures RunSteps(s, h, a + b) == RunSteps(RunSteps(s, h, a).value, h, b)
    decreases |a|
  {
    hide Next;
    if a == [] {
      assert a + b == b;
    } else {
      RunConcat(Next(s, h, a[0]).value, h, a[1..], b);
      assert a + b == [a[0]] + (a[1..] + b);
    }
  }

  /** Thread `r` of a face nobody is on starts its run. */
  lemma RunStarts(s: State, h: Handle, r: nat) returns (steps: seq<Step>)
    requires Initial(s, h) && r < |s.threads|
    ensures AllDisciplined(s, h, steps)
    ensures RunSteps(s, h, steps) == Some(Set(s, r, Running(None)).(lock := Some(r), list := [h] + s.list))
  {
    hide RunSteps;
    var waiting := Set(s, r, RunWaiting);
    var locked := Set(waiting, r, RunLocked).(lock := Some(r));
    var running := Set(locked, r, Running(None)).(list := [h] + s.list);
    assert running == Set(s, r, Running(None)).(lock := Some(r), list := [h] + s.list);
    steps := [BeginRun(r), AcquireRun(r), AddEntry(r)];
    ThreeSteps(s, h, BeginRun(r), AcquireRun(r), AddEntry(r), waiting, locked, running);
    OnlyBeginsMatter(s, h, steps);
  }

  lemma {:induction false} OnlyBeginsMatter(s: State, h: Handle, steps: seq<Step>)
    requires NoBegin(steps) && RunSteps(s, h, steps).Some?
    ensures AllDisciplined(s, h, steps)
    decreases |steps|
  {
    hide Next;
    if steps != [] {
      OnlyBeginsMatter(Next(s, h, steps[0]).value, h, steps[1..]);
    }
  }

  /** So on every face with two threads one undisciplined call is enough: a disciplined
      beginning, then that call, then no other one, ends unsafe. */
  lemma OneCallIsEnough(s: State, h: Handle, r: nat, t: nat) returns (before: seq<Step>, after: seq<Step>)
    requires Initial(s, h) && r < |s.threads| && t < |s.threads| && r != t
    ensures AllDisciplined(s, h, before) && after != [] && after[0] == Begin(t) && NoBegin(after[1..])
    ensures RunSteps(s, h, before + after).Some? && !Safe(RunSteps(s, h, before + after).value, h)
  {
    hide Safe, RunSteps, Inv;
    before := RunStarts(s, h, r);
    InitialInv(s, h);
    InvRun(s, h, before);
    after := UndisciplinedIsUnsafe(RunSteps(s, h, before).value, h, t);
    RunConcat(s, h, before, after);
  }

  lemma InitialInv(s: State, h: Handle)
    requires Initial(s, h)
    ensures Inv(s, h)
  {
  }

  /** How many steps a thread has left at most, its upcalls' operations included. */
  function Rank(thread: Thread): nat {
    match thread
    case Idle => 0
    case InCall(call) => CallRank(call)
    case RunWaiting => 4
    case RunLocked => 3
    case Running(upcall) => if upcall.Some? then 2 + CallRank(upcall.value) else 2
    case RunCleared => 1
  }

  function CallRank(call: Call): nat {
    match call
    case Waiting => 3
    case Inside(_) => 2
    case Releasing => 1
  }

  function Work(threads: seq<Thread>): nat {
    if threads == [] then 0 else Rank(threads[0]) + Work(threads[1..])
  }

  lemma {:induction false} LessWork(threads: seq<Thread>, t: nat, thread: Thread)
    requires t < |threads| && Rank(thread) < Rank(threads[t])
    ensures Work(threads[t := thread]) < Work(threads)
    decreases |threads|
  {
    if t == 0 {
      assert threads[t := thread][1..] == threads[1..];
    } else {
      LessWork(threads[1..], t - 1, thread);
      assert threads[t := thread][1..] == threads[1..][t - 1 := thread];
    }
  }

  /** Steps that start an operation or a run, or are not this face's. */
  predicate NewWork(step: Step) {
    step.Begin? || step.BeginRun? || step.UpcallBegin? || step.OtherFaces?
  }

  /** Every other step brings its thread nearer to its end. */
  lemma StepWorks(s: State, h: Handle, step: Step)
    requires Next(s, h, step).Some? && !NewWork(step)
    ensures Work(Next(s, h, step).value.threads) < Work(s.threads)
  {
    var threads := Next(s, h, step).value.threads;
    assert threads == s.threads[step.t := threads[step.t]];
    LessWork(s.threads, step.t, threads[step.t]);
  }

  /** Without new work no interleaving goes on for more steps than there is work. */
  lemma {:induction false} Bounded(s: State, h: Handle, steps: seq<Step>)
    requires RunSteps(s, h, steps).Some? && forall i | 0 <= i < |steps| :: !NewWork(steps[i])
    ensures |steps| <= Work(s.threads)
    decreases |steps|
  {
    hide Next, Work;
    if steps != [] {
      StepWorks(s, h, steps[0]);
      Bounded(Next(s, h, steps[0]).value, h, steps[1..]);
    }
  }

  /** No deadlock: while some thread is on the face, some thread on it can move.  An
      operation here dispatches no callbacks; a blocking `get` outside any run may, and
      an operation begun in such a callback would wait for its own thread's lock. */
  lemma Progress(s: State, h: Handle, t: nat) returns (step: Step)
    requires Inv(s, h) && t < |s.threads| && s.threads[t] != Idle
    ensures !NewWork(step) && Next(s, h, step).Some?
  {
    var u := if s.lock.Some? then s.lock.value else t;
    match s.threads[u] {
      case Idle => assert false;
      case InCall(call) =>
        step := if call.Waiting? then Acquire(u) else if call.Inside? then Finish(u) else Release(u);
      case RunWaiting => step := AcquireRun(u);
      case RunLocked => step := AddEntry(u);
      case Running(upcall) => step := if upcall.Some? then UpcallFinish(u) else ClearEntry(u);
      case RunCleared => step := ReleaseRun(u);
    }
  }

  /** From every reachable state all operations and runs can be brought to their end: the
      face is then idle, its lock free and its entry gone. */
  lemma {:induction false} AllFinish(s: State, h: Handle) returns (steps: seq<Step>)
    requires Inv(s, h)
    ensures NoBegin(steps) && RunSteps(s, h, steps).Some?
    ensures Initial(RunSteps(s, h, steps).value, h)
    decreases Work(s.threads)
  {
    if t :| 0 <= t < |s.threads| && s.threads[t] != Idle {
      var step := Progress(s, h, t);
      var next := Next(s, h, step).value;
      StepWorks(s, h, step);
      InvStep(s, h, step);
      var rest := AllFinish(next, h);
      RunCons(s, h, step, next, rest);
      steps := [step] + rest;
    } else {
      InvIsSafe(s, h);
      steps := [];
    }
  }

  /** While a run executes, another `run` on the face changes nothing. */
  lemma OneRunAtATime(s: State, h: Handle, t: nat)
    requires Executing(s, h)
    ensures Next(s, h, BeginRun(t)).Some? ==> Next(s, h, BeginRun(t)) == Some(s)
  {
  }
}
