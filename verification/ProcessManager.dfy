/** The Scheduler and ProcessManager classes, each operation proved equal to its specification in KernelSpec. */
module ProcessManagers {
  import opened Basics
  import opened ProcessModel
  import opened KernelSpec
  import opened KernelProofs

  /** The process IDs of a list of processes. */
  function Ids(ps: seq<Process>): (r: seq<nat>)
    ensures |r| == |ps| && forall i :: 0 <= i < |ps| ==> r[i] == ps[i].id
  {
    seq(|ps|, i requires 0 <= i < |ps| => ps[i].id)
  }

  function IdOf(p: Process?): Option<nat> {
    if p == null then None else Some(p.id)
  }

  function NotifyIds(notify: map<nat, seq<Process>>): map<nat, seq<nat>> {
    map v | v in notify :: Ids(notify[v])
  }

  ghost function ProcViews(procs: map<nat, Process>): map<nat, Proc>
    reads procs.Values
  {
    map p | p in procs :: procs[p].View()
  }

  /** Every process of `ps` is the one the table holds under its ID. */
  ghost predicate Listed(ps: seq<Process>, procs: map<nat, Process>) {
    forall p :: p in ps ==> p.id in procs && procs[p.id] == p
  }

  lemma ListedMember(ps: seq<Process>, procs: map<nat, Process>, p: Process)
    requires Listed(ps, procs) && p.id in procs && procs[p.id] == p
    ensures p in ps <==> p.id in Ids(ps)
  {
    if p.id in Ids(ps) {
      var i :| 0 <= i < |ps| && Ids(ps)[i] == p.id;
      assert ps[i] in ps;
    }
    if p in ps {
      var i :| 0 <= i < |ps| && ps[i] == p;
      assert Ids(ps)[i] == p.id;
    }
  }

  lemma {:induction false} IdsWithout(ps: seq<Process>, procs: map<nat, Process>, p: Process)
    requires Listed(ps, procs) && p.id in procs && procs[p.id] == p
    ensures Ids(Without(ps, p)) == Without(Ids(ps), p.id)
    ensures Listed(Without(ps, p), procs)
  {
    if ps == [] {
    } else {
      assert ps[0] in ps;
      assert Ids(ps)[1..] == Ids(ps[1..]);
      IdsWithout(ps[1..], procs, p);
      WithoutMembers(ps, p);
      assert Without(ps, p) == (if ps[0] == p then [] else [ps[0]]) + Without(ps[1..], p);
      assert Ids(Without(ps, p)) == (if ps[0] == p then [] else [ps[0].id]) + Ids(Without(ps[1..], p));
    }
  }

  /** Every list without the process. */
  function OffLists(notify: map<nat, seq<Process>>, p: Process): map<nat, seq<Process>> {
    map v | v in notify :: Without(notify[v], p)
  }

  /** Taking a process off every list, by process and by ID. */
  lemma UnregisterIds(notify: map<nat, seq<Process>>, procs: map<nat, Process>, p: Process)
    requires (forall v :: v in notify ==> Listed(notify[v], procs)) && p.id in procs && procs[p.id] == p
    ensures NotifyIds(OffLists(notify, p)) == Unregister(NotifyIds(notify), p.id)
  {
    hide Ids, Without;
    assert NotifyIds(OffLists(notify, p)).Keys == notify.Keys == Unregister(NotifyIds(notify), p.id).Keys;
    forall v | v in notify ensures Ids(Without(notify[v], p)) == Without(Ids(notify[v]), p.id) {
      IdsWithout(notify[v], procs, p);
    }
  }

  lemma RegisterIds(notify: map<nat, seq<Process>>, vec: nat, lst: seq<Process>, p: Process)
    requires lst == if vec in notify then notify[vec] else []
    ensures NotifyIds(notify[vec := lst + [p]]) == NotifyIds(notify)[vec := Ids(lst) + [p.id]]
    ensures Ids(lst) == if vec in NotifyIds(notify) then NotifyIds(notify)[vec] else []
  {
    assert Ids(lst + [p]) == Ids(lst) + [p.id];
  }

  class Scheduler {
    var queue: seq<Process>

    constructor ()
      ensures queue == []
    {
      queue := [];
    }

    method Enqueue(proc: Process, ignoreState: bool) returns (ok: bool)
      modifies this
      ensures ok <==> proc.state == Ready || ignoreState
      ensures Ids(queue) == if ok then Push(old(Ids(queue)), proc.id) else old(Ids(queue))
      ensures queue == if ok && |old(queue)| < MAX_PROCS then old(queue) + [proc] else old(queue)
    {
      if proc.state != Ready && !ignoreState {
        return false;
      }
      if |queue| < MAX_PROCS {
        queue := queue + [proc];
      }
      ok := true;
    }

    /** Pops and pushes back until `proc` comes up; `Fatal` when it never does. */
    method Dequeue(proc: Process, ignoreState: bool) returns (o: Outcome, ghost at: nat)
      modifies this
      ensures o == IOError <==> proc.state == Ready && !ignoreState
      ensures o == IOError || o == Fatal || o == Done
      ensures o == Done ==>
        && at < |old(queue)| && old(queue)[at] == proc && proc !in old(queue)[..at]
        && queue == old(queue)[at + 1..] + old(queue)[..at]
      ensures o == Fatal ==> proc !in old(queue)
      ensures o != Done ==> queue == old(queue)
    {
      at := 0;
      if proc.state == Ready && !ignoreState {
        return IOError, 0;
      }
      var count := |queue|;
      for i := 0 to count
        invariant count == |old(queue)|
        invariant queue == old(queue)[i..] + old(queue)[..i]
        invariant proc !in old(queue)[..i]
      {
        var p := queue[0];
        queue := queue[1..];
        if p == proc {
          return Done, i;
        } else {
          queue := queue + [p];
          assert old(queue)[..i + 1] == old(queue)[..i] + [p];
        }
      }
      assert old(queue)[..count] == old(queue);
      o := Fatal;
    }

    method Select() returns (p: Process?)
      modifies this
      ensures old(queue) == [] ==> p == null && queue == []
      ensures old(queue) != [] ==> p == old(queue)[0] && queue == old(queue)[1..] + [old(queue)[0]]
    {
      if |queue| > 0 {
        var q := queue[0];
        queue := queue[1..] + [q];
        return q;
      }
      p := null;
    }
  }

  class ProcessManager {
    var procs: map<nat, Process>
    const scheduler: Scheduler
    var sleepTimerQueue: seq<Process>
    var current: Process?
    var idle: Process?
    var notify: map<nat, seq<Process>>

    constructor ()
      ensures Valid() && View() == Sys(map[], [], [], None, None, map[])
      ensures fresh(scheduler)
    {
      procs := map[];
      scheduler := new Scheduler();
      sleepTimerQueue := [];
      current, idle := null, null;
      notify := map[];
      new;
      assert View() == Sys(map[], [], [], None, None, map[]);
    }

    ghost function View(): Sys
      reads this, scheduler, procs.Values
    {
      Sys(ProcViews(procs), Ids(scheduler.queue), Ids(sleepTimerQueue),
          IdOf(current), IdOf(idle), NotifyIds(notify))
    }

    /** Table slots hold their own process, and every list names table processes only. */
    ghost predicate Rep()
      reads this, scheduler
    {
      && (forall p :: p in procs ==> procs[p].id == p)
      && Listed(scheduler.queue, procs)
      && Listed(sleepTimerQueue, procs)
      && (current != null ==> current.id in procs && procs[current.id] == current)
      && (idle != null ==> idle.id in procs && procs[idle.id] == idle)
      && (forall v :: v in notify ==> Listed(notify[v], procs))
    }

    ghost predicate Valid()
      reads this, scheduler, procs.Values
    {
      Rep() && Inv(View())
    }

    ghost predicate Holds(proc: Process)
      reads this
    {
      proc.id in procs && procs[proc.id] == proc
    }

    /** A change to one process of the table is a change to its entry in the view. */
    twostate lemma OneChanged(p: Process)
      requires old(Rep()) && old(Holds(p)) && Rep() && procs == old(procs) && notify == old(notify)
      requires scheduler.queue == old(scheduler.queue) && sleepTimerQueue == old(sleepTimerQueue)
      requires current == old(current) && idle == old(idle)
      requires forall q :: q in procs.Values && q != p ==> q.View() == old(q.View())
      ensures View() == SetProc(old(View()), p.id, p.View())
    {
      assert ProcViews(procs) == old(ProcViews(procs))[p.id := p.View()];
    }

    /** What the view says of a process of the table. */
    lemma ViewHolds(p: Process)
      requires Rep() && Holds(p)
      ensures p.id in View().procs && View().procs[p.id] == p.View()
      ensures View().current == IdOf(current) && View().idle == IdOf(idle)
      ensures View().idle == Some(p.id) <==> idle == p
      ensures View().current.Some? ==> View().current.value in View().procs
    {
    }

    lemma TableView()
      requires Rep()
      ensures View().procs.Keys == procs.Keys && View().current == IdOf(current)
    {
    }

    lemma SlotView(i: nat)
      requires Rep()
      ensures i in View().procs <==> i in procs
      ensures i in procs ==> View().procs[i] == procs[i].View() && Holds(procs[i]) && procs[i].id == i
    {
    }

    lemma SameProc(s: Sys, p: nat)
      requires p in s.procs
      ensures SetProc(s, p, s.procs[p]) == s
    {
      assert s.procs[p := s.procs[p]] == s.procs;
    }

    lemma CurrentHeld()
      requires Rep() && current != null
      ensures Holds(current)
    {
    }

    method EnqueueProcess(proc: Process) returns (o: Outcome)
      requires Rep() && Holds(proc)
      modifies this`sleepTimerQueue, scheduler
      ensures Rep() && (o, View()) == KernelSpec.EnqueueProcess(old(View()), proc.id)
    {
      var ok := scheduler.Enqueue(proc, false);
      if !ok {
        return IOError;
      }
      IdsWithout(sleepTimerQueue, procs, proc);
      sleepTimerQueue := Without(sleepTimerQueue, proc);
      o := Done;
    }

    method DequeueProcess(proc: Process, ignoreState: bool) returns (o: Outcome)
      requires Rep() && Holds(proc)
      modifies scheduler
      ensures Rep()
      ensures (o, View()) ==
        KernelSpec.DequeueProcess(old(View()), proc.id, proc.state == Ready, ignoreState)
    {
      ghost var q := scheduler.queue;
      ListedMember(q, procs, proc);
      ghost var at;
      o, at := scheduler.Dequeue(proc, ignoreState);
      if o == Done {
        IdsDequeue(q, procs, proc, at);
      }
    }

    method Resume(proc: Process) returns (o: Outcome)
      requires Valid() && Holds(proc)
      modifies this`sleepTimerQueue, scheduler, proc
      ensures Valid() && (o, View()) == KernelSpec.Resume(old(View()), proc.id)
    {
      hide Inv, Rep, View, KernelSpec.EnqueueProcess;
      ghost var s := View();
      ViewHolds(proc);
      ResumeInv(s, proc.id);
      var r := proc.Resume();
      OneChanged(proc);
      if r != Success {
        SameProc(s, proc.id);
        return IOError;
      }
      o := EnqueueProcess(proc);
    }

    /** The idle process is not in the run queue, so that stopping it is FATAL. */
    method Stop(proc: Process) returns (o: Outcome)
      requires Valid() && Holds(proc)
      modifies scheduler, proc
      ensures Rep() && (o, View()) == KernelSpec.Stop(old(View()), proc.id)
      ensures (o == Fatal <==> proc == idle) && (o != Fatal ==> Valid())
    {
      hide Inv, Rep, View, KernelSpec.DequeueProcess;
      ghost var s := View();
      ViewHolds(proc);
      StopInv(s, proc.id);
      var state := proc.state;
      var r := proc.Stop();
      OneChanged(proc);
      if r != Success {
        SameProc(s, proc.id);
        return IOError;
      }
      if state == Ready {
        o := DequeueProcess(proc, false);
      } else {
        o := Done;
      }
    }

    method Wait(proc: Process) returns (o: Outcome)
      requires Valid() && Holds(proc) && current != null
      modifies scheduler, current
      ensures Rep() && (o, View()) == KernelSpec.Wait(old(View()), current.id, proc.id)
      ensures o == Fatal <==> current == idle && old(current.state) == Ready
      ensures o != Fatal ==> Valid()
    {
      hide Inv, Rep, View, KernelSpec.DequeueProcess;
      ghost var s := View();
      CurrentHeld();
      ViewHolds(current);
      ViewHolds(proc);
      if current.state == Ready {
        WaitOpInv(s, current.id, proc.id);
      }
      var r := current.Wait(proc.id);
      OneChanged(current);
      if r != Success {
        SameProc(s, current.id);
        return IOError;
      }
      o := DequeueProcess(current, false);
    }

    /** Queue::push on the sleep queue. */
    method PushSleeper(proc: Process)
      requires Rep() && Holds(proc)
      modifies this`sleepTimerQueue
      ensures Rep() && View() == old(View()).(sleepq := Push(old(View()).sleepq, proc.id))
    {
      if |sleepTimerQueue| < MAX_PROCS {
        sleepTimerQueue := sleepTimerQueue + [proc];
        assert Ids(sleepTimerQueue) == old(Ids(sleepTimerQueue)) + [proc.id];
      }
    }

    method Sleep(timer: Option<Timer>, ignoreWakeups: bool) returns (o: Outcome)
      requires Valid() && current != null
      modifies this`sleepTimerQueue, scheduler, current
      ensures Rep() && (o, View()) == KernelSpec.Sleep(old(View()), current.id, timer, ignoreWakeups)
      ensures o == Fatal <==>
        current == idle && old(current.state) == Ready && (old(current.wakeups) == 0 || ignoreWakeups)
      ensures o != Fatal ==> Valid()
    {
      hide Inv, Rep, View, KernelSpec.DequeueProcess, Push;
      ghost var s := View();
      CurrentHeld();
      ViewHolds(current);
      if current.state == Ready {
        SleepOpInv(s, current.id, timer, ignoreWakeups);
      }
      var r := current.Sleep(timer, ignoreWakeups);
      OneChanged(current);
      match r
      case WakeupPending => return Pending;
      case InvalidArgument =>
        SameProc(s, current.id);
        return IOError;
      case Success =>
        var d := DequeueProcess(current, false);
        if d != Done {
          return Fatal;
        }
        if timer.Some? {
          PushSleeper(current);
        }
        o := Done;
    }

    method Wakeup(proc: Process) returns (o: Outcome)
      requires Valid() && Holds(proc)
      modifies this`sleepTimerQueue, scheduler, proc
      ensures Valid() && (o, View()) == KernelSpec.Wakeup(old(View()), proc.id) && o == Done
    {
      hide Inv, Rep, View, KernelSpec.EnqueueProcess;
      ghost var s := View();
      ViewHolds(proc);
      WakeupInv(s, proc.id);
      var r := proc.Wakeup();
      OneChanged(proc);
      if r == Success {
        o := EnqueueProcess(proc);
      } else {
        o := Done;
      }
    }

    method SetIdle(proc: Process) returns (o: Outcome)
      requires Valid() && Holds(proc)
      modifies this`idle, scheduler
      ensures Rep() && (o, View()) == KernelSpec.SetIdle(old(View()), proc.id)
      ensures (o == Fatal <==> proc.id !in old(View()).queue) && (o != Fatal ==> idle == proc)
      ensures o != Fatal ==> (Valid() <==> old(idle) == null)
    {
      hide Inv;
      SetIdleInv(View(), proc.id);
      var d := DequeueProcess(proc, true);
      if d != Done {
        return Fatal;
      }
      idle := proc;
      o := Done;
    }

    /** Fills a free table slot with a new, stopped process. */
    method Insert(pid: nat) returns (p: Process)
      requires Rep() && pid !in procs
      modifies this`procs
      ensures Rep() && fresh(p) && p.id == pid && procs == old(procs)[pid := p]
      ensures View() == SetProc(old(View()), pid, NewProc(0))
    {
      p := new Process(pid);
      procs := procs[pid := p];
      assert ProcViews(procs) == old(ProcViews(procs))[pid := NewProc(0)];
    }

    /** The first free process ID, or MAX_PROCS. */
    method FindFree() returns (pid: nat)
      ensures pid <= MAX_PROCS
      ensures FirstFree(View().procs, 0) == if pid < MAX_PROCS then Some(pid) else None
    {
      ghost var ps := View().procs;
      pid := 0;
      while pid < MAX_PROCS && pid in procs
        invariant 0 <= pid <= MAX_PROCS
        invariant FirstFree(ps, 0) == FirstFree(ps, pid)
      {
        pid := pid + 1;
      }
    }

    method SetParent(proc: Process, parent: nat)
      requires Rep() && Holds(proc)
      modifies proc
      ensures Rep()
      ensures View() == SetProc(old(View()), proc.id, old(proc.View()).(parent := parent))
    {
      proc.parent := parent;
      assert ProcViews(procs) == old(ProcViews(procs))[proc.id := proc.View()];
    }

    method Create(readyToRun: bool) returns (proc: Process?)
      requires Valid()
      modifies this`procs, this`sleepTimerQueue, scheduler
      ensures Valid() && (IdOf(proc), View()) == KernelSpec.Create(old(View()), readyToRun)
      ensures proc != null ==> fresh(proc) && procs == old(procs)[proc.id := proc]
    {
      hide Inv, FirstFree, KernelSpec.Resume, View, Rep;
      ghost var s := View();
      CreateInv(s, readyToRun);
      TableView();
      var pid := FindFree();
      if pid == MAX_PROCS {
        return null;
      }
      AddStopped(s, pid, NewProc(0));
      var p := Insert(pid);
      Start(p, readyToRun);
      proc := p;
    }

    /** The new process is resumed if asked for and gets the current process as its parent. */
    method Start(p: Process, readyToRun: bool)
      requires Valid() && Holds(p)
      modifies this`sleepTimerQueue, scheduler, p
      ensures Rep() && p.id in old(View()).procs && old(View()).current == View().current
      ensures
        var s2 := if readyToRun then KernelSpec.Resume(old(View()), p.id).1 else old(View());
        View() == if s2.current.Some? then SetProc(s2, p.id, s2.procs[p.id].(parent := s2.current.value)) else s2
    {
      hide Inv, KernelSpec.Resume, View, Rep;
      ghost var s := View();
      ViewHolds(p);
      ResumeInv(s, p.id);
      if readyToRun {
        var o := Resume(p);
      }
      ViewHolds(p);
      if current != null {
        SetParent(p, current.id);
      }
    }

    /** The body of the join loop of remove for one table slot. */
    method JoinSlot(i: nat, proc: Process, status: nat)
      requires Rep()
      modifies this`sleepTimerQueue, scheduler, procs.Values
      ensures Rep() && View() == JoinOne(old(View()), proc.id, status, i)
    {
      hide View, KernelSpec.EnqueueProcess, ProcViews;
      ghost var s := View();
      SlotView(i);
      if i in procs && procs[i].state == Waiting && procs[i].waitId == proc.id {
        var r := procs[i].Join(status);
        OneChanged(procs[i]);
        var o := EnqueueProcess(procs[i]);
      }
    }

    method JoinWaiters(proc: Process, status: nat)
      requires Rep() && Holds(proc)
      modifies this`sleepTimerQueue, scheduler, procs.Values
      ensures Rep() && View() == JoinFrom(old(View()), proc.id, status, 0)
    {
      hide Rep, Holds, View, JoinFrom, JoinOne;
      ghost var s := View();
      for i := 0 to MAX_PROCS
        invariant Rep()
        invariant JoinFrom(View(), proc.id, status, i) == JoinFrom(s, proc.id, status, 0)
      {
        JoinFromStep(View(), proc.id, status, i);
        JoinSlot(i, proc, status);
      }
      JoinFromStep(View(), proc.id, status, MAX_PROCS);
    }

    /** A change to the notify lists alone. */
    twostate lemma NotifyChanged(new before: map<nat, seq<Process>>)
      requires before == old(notify) && procs == old(procs) && current == old(current) && idle == old(idle)
      requires scheduler.queue == old(scheduler.queue) && sleepTimerQueue == old(sleepTimerQueue)
      requires forall q :: q in procs.Values ==> q.View() == old(q.View())
      ensures old(View()).notify == NotifyIds(before)
      ensures View() == old(View()).(notify := NotifyIds(notify))
    {
      assert ProcViews(procs) == old(ProcViews(procs));
    }

    method UnregisterInterruptNotify(proc: Process)
      requires Rep() && Holds(proc)
      modifies this`notify
      ensures Rep() && View() == old(View()).(notify := Unregister(old(View()).notify, proc.id))
      ensures forall v :: v in notify ==> proc !in notify[v]
    {
      hide View, NotifyIds, Ids, Without, ProcViews;
      forall v | v in notify
        ensures Listed(Without(notify[v], proc), procs) && proc !in Without(notify[v], proc)
      {
        IdsWithout(notify[v], procs, proc);
        WithoutMembers(notify[v], proc);
      }
      UnregisterIds(notify, procs, proc);
      ghost var before := notify;
      notify := OffLists(notify, proc);
      NotifyChanged(before);
    }

    /** Takes a Ready process out of the run queue; `Fatal` when it is not there. */
    method LeaveQueue(proc: Process) returns (o: Outcome)
      requires Rep() && Holds(proc)
      requires (proc in scheduler.queue ==> NoDuplicates(scheduler.queue) && proc.state == Ready)
      modifies scheduler
      ensures Rep() && proc !in scheduler.queue
      ensures (o, View()) ==
        if proc.state == Ready then KernelSpec.DequeueProcess(old(View()), proc.id, true, true) else (Done, old(View()))
    {
      o := Done;
      if proc.state == Ready {
        ghost var q := scheduler.queue;
        ListedMember(q, procs, proc);
        ghost var at;
        o, at := scheduler.Dequeue(proc, true);
        if o == Done {
          IdsDequeue(q, procs, proc, at);
          NotInRest(q, at);
        }
      }
    }

    /** Takes a process that nobody waits for out of the table and out of every list; `Fatal` ends it early. */
    method EraseProcess(proc: Process) returns (o: Outcome)
      requires Rep() && Holds(proc) && proc != current && proc != idle
      requires proc in scheduler.queue ==> NoDuplicates(scheduler.queue) && proc.state == Ready
      requires proc !in scheduler.queue && proc.state == Ready ==> proc !in sleepTimerQueue
      modifies this`notify, this`procs, this`sleepTimerQueue, scheduler
      ensures Rep() && procs == old(procs) - {proc.id}
      ensures (o, View()) == Erase(old(View()), proc.id)
    {
      hide Rep, View, Ids, NotifyIds, Dequeue, Without;
      ghost var s := View();
      ViewHolds(proc);
      InQueueExactly(proc);
      UnregisterInterruptNotify(proc);
      o := LeaveQueue(proc);
      if o == Fatal {
        LeaveTable(proc);
        return;
      }
      LeaveSleepQueue(proc);
      LeaveTable(proc);
    }

    lemma InQueueExactly(proc: Process)
      requires Rep() && Holds(proc)
      ensures (proc in scheduler.queue <==> proc.id in View().queue) && (proc in sleepTimerQueue <==> proc.id in View().sleepq)
      ensures Dequeue(View().queue, proc.id).Some? <==> proc in scheduler.queue
    {
      ListedMember(scheduler.queue, procs, proc);
      ListedMember(sleepTimerQueue, procs, proc);
    }

    method LeaveSleepQueue(proc: Process)
      requires Rep() && Holds(proc)
      modifies this`sleepTimerQueue
      ensures Rep() && proc !in sleepTimerQueue
      ensures View() == old(View()).(sleepq := Without(old(View()).sleepq, proc.id))
    {
      IdsWithout(sleepTimerQueue, procs, proc);
      WithoutMembers(sleepTimerQueue, proc);
      sleepTimerQueue := Without(sleepTimerQueue, proc);
    }

    method LeaveTable(proc: Process)
      requires Rep() && Holds(proc) && proc != current && proc != idle
      requires proc !in scheduler.queue && proc !in sleepTimerQueue
      requires forall v :: v in notify ==> proc !in notify[v]
      modifies this`procs
      ensures Rep() && procs == old(procs) - {proc.id}
      ensures View() == old(View()).(procs := old(View()).procs - {proc.id})
    {
      procs := procs - {proc.id};
      assert ProcViews(procs) == old(ProcViews(procs)) - {proc.id};
    }

    /** The idle process is not in the run queue, so that its removal ends in FATAL behind the join loop. */
    method Remove(proc: Process, exitStatus: nat) returns (o: Outcome)
      requires Valid() && Holds(proc)
      modifies this, scheduler, procs.Values
      ensures Rep() && (o, View()) == KernelSpec.Remove(old(View()), proc.id, exitStatus)
      ensures o == Fatal <==> proc == old(idle)
      ensures procs == old(procs) - {proc.id}
      ensures o != Fatal ==> Valid() && Forgotten(View(), proc.id)
    {
      hide Inv, JoinFrom, Erase, View, Forgotten, NotifyIds, Rep;
      ghost var s := View();
      ViewHolds(proc);
      RemoveInv(s, proc.id, exitStatus);
      ClearRefs(proc);
      ghost var s1 := View();
      JoinWaiters(proc, exitStatus);
      if s.idle == Some(proc.id) {
        RemoveIdleFatal(s, proc.id, exitStatus);
      } else {
        WithCurrent(s, s1.current);
        JoinFromEffect(s1, proc.id, exitStatus);
      }
      JoinedPlace(proc, s1, exitStatus);
      o := EraseProcess(proc);
    }

    /** The process is neither idle nor current any more. */
    method ClearRefs(proc: Process)
      requires Rep() && Holds(proc)
      modifies this`idle, this`current
      ensures Rep() && proc != idle && proc != current
      ensures
        var s := old(View());
        View() == s.(idle := if s.idle == Some(proc.id) then None else s.idle,
                     current := if s.current == Some(proc.id) then None else s.current)
    {
      if proc == idle {
        idle := null;
      }
      if proc == current {
        current := null;
      }
      assert ProcViews(procs) == old(ProcViews(procs));
    }

    /** Where a process stands before it is erased: queued once, or Ready and in no queue (the idle process), or not Ready. */
    lemma JoinedPlace(proc: Process, s1: Sys, status: nat)
      requires Rep() && Holds(proc) && View() == JoinFrom(s1, proc.id, status, 0)
      requires
        || (Inv(View()) && View().idle != Some(proc.id))
        || (View().procs[proc.id].state == Ready && proc.id !in View().queue && proc.id !in View().sleepq)
      ensures proc in scheduler.queue ==> NoDuplicates(scheduler.queue) && proc.state == Ready
      ensures proc !in scheduler.queue && proc.state == Ready ==> proc !in sleepTimerQueue
    {
      hide JoinFrom, NotifyIds;
      var q := scheduler.queue;
      InQueueExactly(proc);
      ViewHolds(proc);
      if Inv(View()) {
        forall i, j | 0 <= i < j < |q| ensures q[i] != q[j] {
          assert Ids(q)[i] != Ids(q)[j];
        }
      }
    }

    /** One turn of the sleep queue loop of schedule. */
    method SleepQueueTurn(now: nat)
      requires Valid() && sleepTimerQueue != []
      modifies this`sleepTimerQueue, scheduler, procs.Values
      ensures Valid() && procs == old(procs)
      ensures Ids([old(sleepTimerQueue)[0]])[0] in old(View()).procs
      ensures View() == TimerTurn(old(View()), now)
    {
      hide Inv, KernelSpec.Wakeup;
      ghost var s := View();
      DropSleeper(s);
      TimerTurnEffect(s, now);
      var p := sleepTimerQueue[0];
      assert s.sleepq[0] == p.id && Holds(p);
      sleepTimerQueue := sleepTimerQueue[1..];
      assert View() == s.(sleepq := s.sleepq[1..]);
      if IsExpired(p.sleepTimer, now) {
        var o := Wakeup(p);
      } else {
        PushSleeper(p);
      }
    }

    method SleepQueueLoop(now: nat)
      requires Valid()
      modifies this`sleepTimerQueue, scheduler, procs.Values
      ensures Valid() && procs == old(procs) && View() == TimerLoop(old(View()), now, |old(sleepTimerQueue)|)
    {
      hide Inv, TimerTurn, TimerLoop, Rep, View;
      ghost var s := View();
      QueueHead();
      var count := |sleepTimerQueue|;
      for i := 0 to count
        invariant Valid() && procs == old(procs)
        invariant |View().sleepq| >= count - i
        invariant TimerLoop(View(), now, count - i) == TimerLoop(s, now, count)
      {
        QueueHead();
        TimerTurnEffect(View(), now);
        TimerLoopStep(View(), now, count - i);
        SleepQueueTurn(now);
      }
      TimerLoopStep(View(), now, 0);
    }

    /** Scheduler::select: the head of the run queue moves to its tail. */
    method SelectNext() returns (proc: Process?)
      requires Rep()
      modifies scheduler
      ensures Rep() && View() == old(View()).(queue := Rotate(old(View()).queue))
      ensures proc == (if old(scheduler.queue) == [] then null else old(scheduler.queue)[0])
      ensures proc != null ==> Holds(proc)
    {
      proc := scheduler.Select();
      assert Ids(scheduler.queue) == Rotate(old(Ids(scheduler.queue)));
    }

    /** FATAL when nothing is Ready and no idle process is installed. */
    method Schedule(now: nat) returns (o: Outcome)
      requires Valid()
      modifies this`sleepTimerQueue, this`current, scheduler, procs.Values
      ensures Valid() && (o, View()) == KernelSpec.Schedule(old(View()), now)
      ensures o == Fatal <==> old(scheduler.queue) == [] && old(idle) == null
    {
      hide Inv, TimerLoop, Unexpired, Due, View, Rep;
      ghost var s := View();
      ScheduleInv(s, now);
      RotatedInv(s);
      QueueHead();
      var proc := SelectNext();
      if proc == null {
        proc := idle;
      }
      if proc == null {
        return Fatal;
      }
      SleepQueueLoop(now);
      Dispatch(proc);
      o := Done;
    }

    lemma QueueHead()
      requires Rep()
      ensures View().queue == Ids(scheduler.queue) && View().idle == IdOf(idle) && |View().sleepq| == |sleepTimerQueue|
      ensures scheduler.queue != [] ==> Holds(scheduler.queue[0])
      ensures idle != null ==> Holds(idle)
    {
    }

    /** Makes the process the current one; nothing else changes. */
    method Dispatch(proc: Process)
      requires Rep() && Holds(proc)
      modifies this`current
      ensures Rep() && View() == old(View()).(current := Some(proc.id))
    {
      if proc != current {
        current := proc;
      }
      assert ProcViews(procs) == old(ProcViews(procs));
    }

    method RegisterInterruptNotify(proc: Process, vec: nat) returns (o: Outcome)
      requires Valid() && Holds(proc)
      modifies this`notify
      ensures Valid() && (o == Fatal <==> vec >= NOTIFY_VECTORS)
      ensures if o == Fatal then View() == old(View()) else (o, View()) == Register(old(View()), proc.id, vec)
    {
      hide Inv, View, NotifyIds, Ids, ProcViews;
      if vec >= NOTIFY_VECTORS {
        return Fatal;
      }
      ghost var s := View();
      ViewHolds(proc);
      RegisterInv(s, proc.id, vec);
      var lst := if vec in notify then notify[vec] else [];
      ListedMember(lst, procs, proc);
      RegisterIds(notify, vec, lst, proc);
      ghost var before := notify;
      if proc in lst {
        NotifyChanged(before);
        return AlreadyExists;
      }
      notify := notify[vec := lst + [proc]];
      NotifyChanged(before);
      o := Done;
    }

    /** Raises an event on every process registered for the vector. */
    method InterruptNotify(vec: nat)
      requires Valid()
      modifies this`sleepTimerQueue, scheduler, procs.Values
      ensures Valid() && procs == old(procs)
      ensures View() == if vec in notify then RaiseAll(old(View()), Ids(notify[vec])) else old(View())
    {
      hide Inv, View, RaiseAll, Ids, KernelSpec.Wakeup;
      if vec in notify {
        var lst := notify[vec];
        ghost var s := View();
        assert Listed(lst, procs);
        assert lst[0..] == lst;
        for i := 0 to |lst|
          invariant Valid() && procs == old(procs) && notify == old(notify) && Listed(lst, procs)
          invariant RaiseAll(View(), Ids(lst[i..])) == RaiseAll(s, Ids(lst))
        {
          assert lst[i] in lst;
          IdsHead(lst, i);
          RaiseStep(View(), Ids(lst[i..]));
          ViewHolds(lst[i]);
          var o := Wakeup(lst[i]);
        }
        RaiseStep(View(), Ids(lst[|lst|..]));
      }
    }
  }

  lemma IdsHead(lst: seq<Process>, i: nat)
    requires i < |lst|
    ensures Ids(lst[i..]) != [] && Ids(lst[i..])[0] == lst[i].id && Ids(lst[i..])[1..] == Ids(lst[i + 1..])
  {
  }

  lemma NotInRest(q: seq<Process>, at: nat)
    requires NoDuplicates(q) && at < |q|
    ensures q[at] !in q[at + 1..] + q[..at]
  {
  }

  /** Dropping place `at` and rotating is the Dequeue of the specification. */
  lemma IdsDequeue(q: seq<Process>, procs: map<nat, Process>, p: Process, at: nat)
    requires Listed(q, procs) && p.id in procs && procs[p.id] == p
    requires at < |q| && q[at] == p && p !in q[..at]
    ensures Dequeue(Ids(q), p.id) == Some(Ids(q[at + 1..] + q[..at]))
  {
    var ids := Ids(q);
    assert ids[at] == p.id;
    var i := IndexOf(ids, p.id);
    assert q[i] in q;
    assert q[i] == p;
    assert i == at;
    assert Ids(q[at + 1..] + q[..at]) == ids[at + 1..] + ids[..at];
  }
}
