/** ethercat/nuttx/linux/kthread.c: creating, running and stopping kernel
    threads, as interleaved steps of creators, workers and stoppers, each of
    which is about to perform the action its program counter names. */
module Kthread {

  /** kthread_run: fill in *t, create the thread, store its id, return t; or free t. */
  datatype Creator = Filling | Creating | StoringId | Returned | Undoing | Failed

  /** kthread_work: read threadfn and data, run threadfn, post semexit, end. */
  datatype Worker = Absent | Starting | Running | Leaving | Ended

  /** kthread_stop: clear running, wait on semexit, free t. */
  datatype Stopper = Uncalled | Clearing | Waiting | Asleep | Freeing | Stopped

  /** One task_struct and the three threads that use it. freed counts the calls
      of free; interrupted records that a signal ended the stopper's wait. */
  datatype Task = Task(creator: Creator, worker: Worker, stopper: Stopper,
                       running: bool, semexit: int, freed: nat, interrupted: bool)

  datatype Action =
    | Fill                 // running, threadfn, data, nxsem_init (lines 89-92)
    | Create(ok: bool)     // kthread_create, which may fail (line 98)
    | Undo                 // kfree(t) (line 102)
    | StoreId              // t->threadid = ret (line 106)
    | Start                // the worker reads t->threadfn and t->data (line 63)
    | Poll                 // threadfn reads running (kthread_should_stop)
    | Return               // threadfn returns
    | Post                 // nxsem_post(&t->semexit) (line 64)
    | Bind                 // kthread_bind reads running and threadid (lines 117-126)
    | CallStop             // the owner calls kthread_stop
    | Clear                // t->running = false (line 112)
    | Wait                 // nxsem_wait(&t->semexit) (line 113)
    | Signal               // a signal interrupts that wait
    | Free                 // free(t) (line 114)

  const FRESH := Task(Filling, Absent, Uncalled, false, 0, 0, false)

  predicate Enabled(t: Task, a: Action) {
    match a
    case Fill => t.creator == Filling
    case Create(_) => t.creator == Creating
    case Undo => t.creator == Undoing
    case StoreId => t.creator == StoringId
    case Start => t.worker == Starting
    case Poll => t.worker == Running
    case Return => t.worker == Running
    case Post => t.worker == Leaving
    case Bind => t.creator == Returned && t.stopper == Uncalled
    case CallStop => t.creator == Returned && t.stopper == Uncalled
    case Clear => t.stopper == Clearing
    case Wait => t.stopper == Waiting
    case Signal => t.stopper == Asleep
    case Free => t.stopper == Freeing
  }

  function Do(t: Task, a: Action): Task
    requires Enabled(t, a)
  {
    match a
    case Fill => t.(creator := Creating, running := true, semexit := 0)
    case Create(ok) => if ok then t.(creator := StoringId, worker := Starting) else t.(creator := Undoing)
    case Undo => t.(creator := Failed, freed := t.freed + 1)
    case StoreId => t.(creator := Returned)
    case Start => t.(worker := Running)
    case Poll => t
    case Return => t.(worker := Leaving)
    case Post =>
      t.(worker := Ended, semexit := t.semexit + 1,
         stopper := if t.semexit < 0 && t.stopper == Asleep then Freeing else t.stopper)
    case Bind => t
    case CallStop => t.(stopper := Clearing)
    case Clear => t.(running := false, stopper := Waiting)
    case Wait => t.(semexit := t.semexit - 1, stopper := if t.semexit > 0 then Freeing else Asleep)
    case Signal => t.(semexit := t.semexit + 1, stopper := Freeing, interrupted := true)
    case Free => t.(stopper := Stopped, freed := t.freed + 1)
  }

  /** The actions that read or write the task_struct, or free it. */
  predicate Touches(a: Action) {
    !a.Create? && !a.Return? && !a.CallStop? && !a.Signal?
  }

  // ----- a system of tasks -----

  type System = seq<Task>

  /** kmalloc of one more task_struct, or an action on task i. */
  datatype Step = Allocate | On(i: nat, a: Action)

  predicate StepEnabled(s: System, p: Step) {
    p.Allocate? || (p.i < |s| && Enabled(s[p.i], p.a))
  }

  function DoStep(s: System, p: Step): System
    requires StepEnabled(s, p)
  {
    if p.Allocate? then s + [FRESH] else s[p.i := Do(s[p.i], p.a)]
  }

  predicate IsRun(s: System, ps: seq<Step>)
    decreases ps
  {
    ps == [] || (StepEnabled(s, ps[0]) && IsRun(DoStep(s, ps[0]), ps[1..]))
  }

  function After(s: System, ps: seq<Step>): System
    requires IsRun(s, ps)
    decreases ps
  {
    if ps == [] then s else After(DoStep(s, ps[0]), ps[1..])
  }

  predicate Reachable(s: System, ps: seq<Step>) {
    IsRun([], ps) && After([], ps) == s
  }

  // ----- the invariant -----

  predicate Consumed(t: Task) {
    t.stopper == Asleep || ((t.stopper == Freeing || t.stopper == Stopped) && !t.interrupted)
  }

  predicate Inv(t: Task) {
    && t.semexit == (if t.worker == Ended then 1 else 0) - (if Consumed(t) then 1 else 0)
    && t.freed == (if t.stopper == Stopped || t.creator == Failed then 1 else 0)
    && (t.worker != Absent ==> t.creator == StoringId || t.creator == Returned)
    && (t.creator == StoringId || t.creator == Returned ==> t.worker != Absent)
    && (t.stopper != Uncalled ==> t.creator == Returned)
    && (t.stopper == Asleep ==> t.worker != Ended)
    && (Consumed(t) && t.stopper != Asleep ==> t.worker == Ended)
    && (t.interrupted ==> t.stopper == Freeing || t.stopper == Stopped)
    && (t.running <==> t.creator != Filling && (t.stopper == Uncalled || t.stopper == Clearing))
  }

  lemma ActionInv(t: Task, a: Action)
    requires Inv(t) && Enabled(t, a)
    ensures Inv(Do(t, a))
  {
  }

  lemma {:induction false} RunInv(s: System, ps: seq<Step>)
    requires IsRun(s, ps) && forall i :: 0 <= i < |s| ==> Inv(s[i])
    ensures forall i :: 0 <= i < |After(s, ps)| ==> Inv(After(s, ps)[i])
    decreases ps
  {
    if ps != [] {
      if ps[0].On? {
        ActionInv(s[ps[0].i], ps[0].a);
      }
      RunInv(DoStep(s, ps[0]), ps[1..]);
    }
  }

  // ----- safety -----

  /** Freed memory in use, or about to be used: an action is enabled that touches a freed task. */
  predicate Dangling(t: Task, a: Action) {
    t.freed > 0 && Enabled(t, a) && Touches(a)
  }

  /** For every scheduling: each task is freed at most once, and as long as no
      signal interrupted the wait of its kthread_stop, nothing touches it after
      it is freed and kthread_stop has freed it only after threadfn returned. The
      running flag is up exactly from kthread_run until kthread_stop takes it down. */
  lemma SchedulingIsSafe(s: System, ps: seq<Step>, i: nat)
    requires Reachable(s, ps) && i < |s|
    ensures s[i].freed <= 1
    ensures !s[i].interrupted ==>
      && (s[i].stopper == Stopped ==> s[i].worker == Ended)
      && forall a :: !Dangling(s[i], a)
    ensures s[i].running <==> s[i].creator != Filling && (s[i].stopper == Uncalled || s[i].stopper == Clearing)
  {
    RunInv([], ps);
  }

  /** No wake-up is lost: once the worker has posted, kthread_stop is never left asleep. */
  lemma StopIsWoken(s: System, ps: seq<Step>, i: nat)
    requires Reachable(s, ps) && i < |s| && s[i].worker == Ended
    ensures s[i].stopper != Asleep
  {
    RunInv([], ps);
  }

  /** The flag speaks of the schedule: it is up exactly when the wait of the task's
      kthread_stop was interrupted by a signal on the way. */
  lemma {:induction false} InterruptedIff(s: System, ps: seq<Step>, i: nat)
    requires IsRun(s, ps) && i < |After(s, ps)|
    ensures After(s, ps)[i].interrupted <==> (i < |s| && s[i].interrupted) || On(i, Signal) in ps
    decreases ps
  {
    if ps != [] {
      InterruptedIff(DoStep(s, ps[0]), ps[1..], i);
      assert ps == [ps[0]] + ps[1..];
    }
  }

  /** So a schedule without such a signal is safe outright. */
  lemma UnsignalledIsSafe(s: System, ps: seq<Step>, i: nat)
    requires Reachable(s, ps) && i < |s| && On(i, Signal) !in ps
    ensures s[i].stopper == Stopped ==> s[i].worker == Ended
    ensures forall a :: !Dangling(s[i], a)
  {
    InterruptedIff([], ps, i);
    SchedulingIsSafe(s, ps, i);
  }

  // ----- kthread_stop returns -----

  /** The steps kthread_stop still has to take itself. */
  function StepsLeft(t: Task): nat {
    match t.stopper
    case Clearing => 3
    case Waiting => 2
    case Asleep => 1
    case Freeing => 1
    case _ => 0
  }

  /** The steps the worker still has to take. */
  function WorkLeft(t: Task): nat {
    match t.worker
    case Leaving => 1
    case Running => 2
    case Starting => 3
    case _ => 0
  }

  predicate IsStep(p: Step, i: nat) {
    p == On(i, Clear) || p == On(i, Wait) || p == On(i, Free)
  }

  function StopSteps(ps: seq<Step>, i: nat): nat {
    if ps == [] then 0 else (if IsStep(ps[0], i) then 1 else 0) + StopSteps(ps[1..], i)
  }

  /** After the worker has ended, t is in kthread_stop or has returned from it. */
  predicate Stopping(t: Task) {
    Inv(t) && t.worker == Ended && t.stopper != Uncalled
  }

  lemma StoppingStep(t: Task, a: Action)
    requires Stopping(t) && Enabled(t, a)
    ensures Stopping(Do(t, a))
    ensures StepsLeft(Do(t, a)) == StepsLeft(t) - if a == Clear || a == Wait || a == Free then 1 else 0
  {
  }

  lemma StoppingMeans(t: Task)
    requires Stopping(t)
    ensures StepsLeft(t) <= 3 && (t.stopper == Stopped <==> StepsLeft(t) == 0)
    ensures t.stopper != Stopped ==> Enabled(t, Clear) || Enabled(t, Wait) || Enabled(t, Free)
  {
  }

  lemma {:induction false} StoppingRun(s: System, ps: seq<Step>, i: nat)
    requires IsRun(s, ps) && i < |s| && Stopping(s[i])
    ensures i < |After(s, ps)| && Stopping(After(s, ps)[i])
    ensures StepsLeft(After(s, ps)[i]) + StopSteps(ps, i) == StepsLeft(s[i])
    decreases ps
  {
    hide Stopping, StepsLeft, Do, Enabled;
    if ps != [] {
      if ps[0].On? && ps[0].i == i {
        StoppingStep(s[i], ps[0].a);
      }
      StoppingRun(DoStep(s, ps[0]), ps[1..], i);
    }
  }

  /** Once the worker has ended, nothing holds kthread_stop up: until it has returned it can
      take its next step, and it has returned exactly when it has taken as many as it had
      left, at most three. */
  lemma StopReturns(s: System, ps: seq<Step>, i: nat)
    requires IsRun(s, ps) && i < |s| && Inv(s[i]) && s[i].worker == Ended && s[i].stopper != Uncalled
    ensures i < |After(s, ps)| && StepsLeft(s[i]) <= 3
    ensures var t := After(s, ps)[i];
      && (t.stopper != Stopped ==> Enabled(t, Clear) || Enabled(t, Wait) || Enabled(t, Free))
      && (t.stopper == Stopped <==> StopSteps(ps, i) == StepsLeft(s[i]))
  {
    StoppingRun(s, ps, i);
    StoppingMeans(s[i]);
    StoppingMeans(After(s, ps)[i]);
    hide *;
  }

  /** And it can always come to that without a signal, threadfn returning. */
  lemma {:induction false} StopCanReturn(t: Task) returns (acts: seq<Action>)
    requires Inv(t) && t.stopper != Uncalled
    ensures IsPath(t, acts) && Signal !in acts
    ensures End(t, acts).stopper == Stopped && End(t, acts).worker == Ended
    decreases WorkLeft(t), StepsLeft(t)
  {
    if t.worker == Ended && t.stopper == Stopped {
      acts := [];
    } else {
      var a := match t.worker
        case Starting => Start
        case Running => Return
        case Leaving => Post
        case _ => if t.stopper == Clearing then Clear else if t.stopper == Waiting then Wait else Free;
      ActionInv(t, a);
      var rest := StopCanReturn(Do(t, a));
      acts := [a] + rest;
      assert acts[1..] == rest;
    }
  }

  // ----- exactly when the task outlives its use -----

  /** Some continuation makes a freed task i be touched. */
  ghost predicate CanDangle(s: System, i: nat)
    requires i < |s|
  {
    exists ps, a :: IsRun(s, ps) && i < |After(s, ps)| && Dangling(After(s, ps)[i], a)
  }

  lemma {:induction false} RunKeepsFreed(s: System, ps: seq<Step>, i: nat)
    requires IsRun(s, ps) && i < |s|
    ensures i < |After(s, ps)|
    ensures Inv(s[i]) && s[i].freed > 0 && (s[i].creator == Failed || s[i].worker == Ended) ==>
      forall a :: !Dangling(After(s, ps)[i], a)
    decreases ps
  {
    if ps != [] {
      if ps[0].On? && ps[0].i == i && Inv(s[i]) {
        ActionInv(s[i], ps[0].a);
      }
      RunKeepsFreed(DoStep(s, ps[0]), ps[1..], i);
    }
  }

  /** A freed task can still be touched exactly when its thread has not ended,
      and for that a signal must have cut kthread_stop's wait short. */
  lemma FreedTaskDanglesIff(s: System, ps: seq<Step>, i: nat)
    requires Reachable(s, ps) && i < |s| && s[i].freed > 0
    ensures CanDangle(s, i) <==> s[i].creator != Failed && s[i].worker != Ended
    ensures CanDangle(s, i) ==> s[i].interrupted
  {
    RunInv([], ps);
    var t := s[i];
    if t.creator != Failed && t.worker != Ended {
      if t.worker == Running {
        OneStep(s, On(i, Return));
        assert Dangling(After(s, [On(i, Return)])[i], Post);
      } else {
        assert IsRun(s, []) && After(s, []) == s;
        assert Dangling(After(s, [])[i], if t.worker == Starting then Start else Post);
      }
    } else {
      forall qs, a | IsRun(s, qs) ensures i < |After(s, qs)| && !Dangling(After(s, qs)[i], a) {
        RunKeepsFreed(s, qs, i);
      }
    }
  }

  lemma {:induction false} Extended(s: System, ps: seq<Step>, p: Step)
    requires IsRun(s, ps) && StepEnabled(After(s, ps), p)
    ensures IsRun(s, ps + [p]) && After(s, ps + [p]) == DoStep(After(s, ps), p)
    decreases ps
  {
    if ps == [] {
      OneStep(s, p);
      assert ps + [p] == [p];
    } else {
      Extended(DoStep(s, ps[0]), ps[1..], p);
      assert (ps + [p])[1..] == ps[1..] + [p];
    }
  }

  /** What kthread_stop would have to look at before it frees the task: the free is
      too early if and only if nxsem_wait was interrupted and no post has arrived. */
  lemma FreeIsTooEarlyIff(s: System, ps: seq<Step>, i: nat)
    requires Reachable(s, ps) && i < |s| && s[i].stopper == Freeing
    ensures CanDangle(DoStep(s, On(i, Free)), i) <==> s[i].interrupted && s[i].semexit == 0
  {
    RunInv([], ps);
    Extended([], ps, On(i, Free));
    FreedTaskDanglesIff(DoStep(s, On(i, Free)), ps + [On(i, Free)], i);
  }

  lemma OneStep(s: System, p: Step)
    requires StepEnabled(s, p)
    ensures IsRun(s, [p]) && After(s, [p]) == DoStep(s, p)
  {
    assert [p][1..] == [];
    assert After(DoStep(s, p), []) == DoStep(s, p);
  }

  /** A run of one task on its own. */
  predicate IsPath(t: Task, acts: seq<Action>)
    decreases acts
  {
    acts == [] || (Enabled(t, acts[0]) && IsPath(Do(t, acts[0]), acts[1..]))
  }

  function End(t: Task, acts: seq<Action>): Task
    requires IsPath(t, acts)
    decreases acts
  {
    if acts == [] then t else End(Do(t, acts[0]), acts[1..])
  }

  lemma {:induction false} PathIsRun(t: Task, acts: seq<Action>) returns (ps: seq<Step>)
    requires IsPath(t, acts)
    ensures IsRun([t], ps) && After([t], ps) == [End(t, acts)]
    decreases acts
  {
    if acts == [] {
      ps := [];
    } else {
      var rest := PathIsRun(Do(t, acts[0]), acts[1..]);
      ps := [On(0, acts[0])] + rest;
      assert ps[1..] == rest && [t][0 := Do(t, acts[0])] == [Do(t, acts[0])];
    }
  }

  /** The signal is a real danger: nxsem_wait's result is ignored, so one signal
      lets kthread_stop free a task whose worker is still to post on it. */
  lemma SignalledStopFreesEarly() returns (ps: seq<Step>)
    ensures IsRun([], ps) && |After([], ps)| == 1
    ensures Dangling(After([], ps)[0], Post)
  {
    var t := Task(StoringId, Starting, Uncalled, true, 0, 0, false);
    PathToCreated();
    PathToAsleep();
    PathToFreed();
    var acts := [Fill, Create(true)] + ([StoreId, Start, CallStop, Clear, Wait] + [Signal, Free, Return]);
    Joined(t, [StoreId, Start, CallStop, Clear, Wait], [Signal, Free, Return]);
    Joined(FRESH, [Fill, Create(true)], [StoreId, Start, CallStop, Clear, Wait] + [Signal, Free, Return]);
    var rest := PathIsRun(FRESH, acts);
    ps := [Allocate] + rest;
    assert ps[1..] == rest && [] + [FRESH] == [FRESH];
  }

  lemma PathToCreated()
    ensures IsPath(FRESH, [Fill, Create(true)])
    ensures End(FRESH, [Fill, Create(true)]) == Task(StoringId, Starting, Uncalled, true, 0, 0, false)
  {
    assert [Fill, Create(true)][1..] == [Create(true)];
  }

  lemma PathToAsleep()
    ensures var t := Task(StoringId, Starting, Uncalled, true, 0, 0, false);
      IsPath(t, [StoreId, Start, CallStop, Clear, Wait]) &&
      End(t, [StoreId, Start, CallStop, Clear, Wait]) == Task(Returned, Running, Asleep, false, -1, 0, false)
  {
    assert [StoreId, Start, CallStop, Clear, Wait][1..] == [Start, CallStop, Clear, Wait];
    assert [Start, CallStop, Clear, Wait][1..] == [CallStop, Clear, Wait];
    assert [CallStop, Clear, Wait][1..] == [Clear, Wait];
    assert [Clear, Wait][1..] == [Wait];
  }

  lemma PathToFreed()
    ensures var u := Task(Returned, Running, Asleep, false, -1, 0, false);
      IsPath(u, [Signal, Free, Return]) && Dangling(End(u, [Signal, Free, Return]), Post)
  {
    assert [Signal, Free, Return][1..] == [Free, Return];
    assert [Free, Return][1..] == [Return];
  }

  lemma {:induction false} Joined(t: Task, xs: seq<Action>, ys: seq<Action>)
    requires IsPath(t, xs) && IsPath(End(t, xs), ys)
    ensures IsPath(t, xs + ys) && End(t, xs + ys) == End(End(t, xs), ys)
    decreases xs
  {
    if xs == [] {
      assert xs + ys == ys;
    } else {
      Joined(Do(t, xs[0]), xs[1..], ys);
      assert (xs + ys)[1..] == xs[1..] + ys;
    }
  }
}
