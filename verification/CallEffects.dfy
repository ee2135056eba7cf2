/** What each system call does to its target and to the rest, and what it answers, in terms of the states before and after. */
module CallEffects {
  import opened Basics
  import opened ProcessModel
  import opened KernelSpec
  import opened KernelProofs
  import opened ProcessCtl

  /** The caller means process `p`: as SELF or by number. */
  predicate Means(s: Sys, target: Target, p: nat) {
    (target.Self? && s.current == Some(p)) || target == Pid(p)
  }

  lemma MeansResolved(s: Sys, target: Target, p: nat)
    requires Running(s) && Means(s, target, p)
    ensures Resolve(s, target) == if p in s.procs then Some(p) else None
  {
  }

  /** A process as one event leaves it. */
  function Woken(v: Proc): Proc {
    if v.state == Sleeping then v.(state := Ready, wakeups := v.wakeups + 1, sleepTimer := Timer(0, 0))
    else v.(wakeups := v.wakeups + 1)
  }

  // ------------------------------------------------------------- single calls

  /** A sleeping target becomes Ready, last in the run queue and off the sleep queue; any other target only counts. */
  lemma WakeupCallEffect(s: Sys, target: Target, p: nat)
    requires Running(s) && Means(s, target, p)
    ensures
      var (r, t) := Handle(s, WakeupCall(target));
      if p !in s.procs then r == NotFound && t == s
      else
        r == Ok &&
        if s.procs[p].state == Sleeping then
          t == s.(procs := s.procs[p := s.procs[p].(state := Ready, wakeups := s.procs[p].wakeups + 1, sleepTimer := Timer(0, 0))],
                  queue := s.queue + [p], sleepq := Without(s.sleepq, p))
        else
          t == s.(procs := s.procs[p := s.procs[p].(wakeups := s.procs[p].wakeups + 1)])
  {
    hide Inv, Wakeup;
    MeansResolved(s, target, p);
    if p in s.procs {
      WakeupInv(s, p);
    }
  }

  /** A stopped target becomes Ready and last in the run queue; any other refuses. */
  lemma ResumeCallEffect(s: Sys, target: Target, p: nat)
    requires Running(s) && Means(s, target, p)
    ensures
      var (r, t) := Handle(s, ResumeCall(target));
      if p !in s.procs then r == NotFound && t == s
      else if s.procs[p].state != Stopped then r == Failed && t == s
      else
        && r == Ok
        && t == s.(procs := s.procs[p := s.procs[p].(state := Ready)], queue := s.queue + [p], sleepq := Without(s.sleepq, p))
  {
    hide Inv, Resume;
    MeansResolved(s, target, p);
    if p in s.procs {
      ResumeInv(s, p);
    }
  }

  /**
   The target becomes Stopped and leaves the run queue, and stays where it is in the sleep
   queue; a caller that stops itself as SELF is then scheduled away.
   */
  lemma StopCallEffect(s: Sys, target: Target, p: nat, now: nat)
    requires Running(s) && Means(s, target, p) && s.idle != Some(p)
    ensures
      var (r, t) := Handle(s, StopCall(target, now));
      if p !in s.procs then r == NotFound && t == s
      else if s.procs[p].state == Waiting then r == Failed && t == s
      else
        && (s.procs[p].state == Ready ==> Dequeue(s.queue, p).Some?)
        && r == Ok
        && var queue := if s.procs[p].state == Ready then Dequeue(s.queue, p).value else s.queue;
           var m := s.(procs := s.procs[p := s.procs[p].(state := Stopped)], queue := queue);
           t == if target.Self? then Schedule(m, now).1 else m
  {
    hide Inv, Stop, Schedule, Dequeue;
    MeansResolved(s, target, p);
    if p in s.procs {
      StopInv(s, p);
      var t := Stop(s, p).1;
      ScheduleInv(t, now);
    }
  }

  /** The target is appended to the list of that vector, which it was not on, and nothing else changes. */
  lemma WatchIRQEffect(s: Sys, target: Target, p: nat, vec: nat)
    requires Running(s) && Means(s, target, p) && vec < NOTIFY_VECTORS
    ensures
      var (r, t) := Handle(s, WatchIRQ(target, vec));
      var lst := if vec in s.notify then s.notify[vec] else [];
      if p !in s.procs then r == NotFound && t == s
      else if p in lst then r == Failed && t == s
      else r == Ok && t == s.(notify := s.notify[vec := lst + [p]])
  {
    hide Inv, Register;
    MeansResolved(s, target, p);
    if p in s.procs {
      RegisterInv(s, p, vec);
    }
  }

  /** Exactly the processes registered for the vector are woken, and the sleepers among them queued in list order. */
  lemma InterruptEffect(s: Sys, vec: nat)
    requires Running(s)
    ensures
      var (r, t) := Handle(s, Interrupt(vec));
      var lst := if vec in s.notify then s.notify[vec] else [];
      && r == Ok && t.procs.Keys == s.procs.Keys
      && (forall p :: p in s.procs ==> t.procs[p] == if p in lst then Woken(s.procs[p]) else s.procs[p])
      && t.queue == s.queue + Asleep(s.procs, lst)
      && (forall p :: p in t.sleepq <==> p in s.sleepq && p !in Asleep(s.procs, lst))
      && t.current == s.current && t.idle == s.idle && t.notify == s.notify
  {
    hide Inv, RaiseAll, Asleep;
    if vec in s.notify {
      NotifyOnce(s, vec);
      RaiseAllInv(s, s.notify[vec]);
      NotifyEffect(s, s.notify[vec]);
    } else {
      AsleepNone(s.procs);
    }
  }

  lemma AsleepNone(procs: map<nat, Proc>)
    ensures Asleep(procs, []) == []
  {
  }

  /** A sleeper on the list is among those queued, and nobody else is. */
  lemma {:induction false} AsleepExactly(procs: map<nat, Proc>, lst: seq<nat>, p: nat)
    ensures p in Asleep(procs, lst) <==> p in lst && p in procs && procs[p].state == Sleeping
    decreases |lst|
  {
    if lst != [] {
      AsleepExactly(procs, lst[1..], p);
    }
  }

  /** The caller waits for the target and another process is scheduled. */
  lemma WaitPIDEffect(s: Sys, target: Target, p: nat, now: nat)
    requires Running(s) && Means(s, target, p) && s.idle != s.current
    ensures
      var (r, t) := Handle(s, WaitPID(target, now));
      var c := s.current.value;
      if p !in s.procs then r == NotFound && t == s
      else
        && Dequeue(s.queue, c).Some?
        && r == Ok
        && t == Schedule(s.(procs := s.procs[c := s.procs[c].(state := Waiting, waitId := p)],
                            queue := Dequeue(s.queue, c).value), now).1
        && c in t.procs && t.procs[c] == s.procs[c].(state := Waiting, waitId := p)
  {
    hide Inv, Wait, Schedule, Dequeue, Unexpired, Due;
    MeansResolved(s, target, p);
    if p in s.procs {
      var c := s.current.value;
      WaitOpInv(s, c, p);
      AwakeNotAsleep(s, c);
      ScheduleInv(Wait(s, c, p).1, now);
    }
  }

  lemma AwakeNotAsleep(s: Sys, c: nat)
    requires Inv(s) && c in s.procs && s.procs[c].state == Ready
    ensures c !in s.sleepq
  {
  }

  /** The state in which the caller sleeps: off the run queue, with the given timer and behind the others in the sleep queue. */
  function AsleepWith(s: Sys, c: nat, timer: Option<Timer>): Sys
    requires c in s.procs && Dequeue(s.queue, c).Some?
  {
    s.(procs := s.procs[c := s.procs[c].(state := Sleeping,
                                         sleepTimer := if timer.Some? then timer.value else s.procs[c].sleepTimer)],
       queue := Dequeue(s.queue, c).value,
       sleepq := if timer.Some? then s.sleepq + [c] else s.sleepq)
  }

  lemma SleepReady(s: Sys, c: nat, timer: Option<Timer>, ignoreWakeups: bool)
    requires Inv(s) && c in s.procs && s.procs[c].state == Ready && s.idle != Some(c)
    requires s.procs[c].wakeups == 0 || ignoreWakeups
    ensures Dequeue(s.queue, c).Some? && Sleep(s, c, timer, ignoreWakeups) == (Done, AsleepWith(s, c, timer))
    ensures Inv(AsleepWith(s, c, timer))
  {
    hide Inv, Sleep, Dequeue;
    SleepOpInv(s, c, timer, ignoreWakeups);
  }

  /** The caller sleeps in any case, whatever wakeups are counted. */
  lemma WaitTimerEffect(s: Sys, timer: Option<Timer>, now: nat)
    requires Running(s) && s.idle != s.current
    ensures
      var (r, t) := Handle(s, WaitTimer(timer, now));
      var c := s.current.value;
      && Dequeue(s.queue, c).Some?
      && r == Ok && t == Schedule(AsleepWith(s, c, timer), now).1
  {
    hide Inv, Sleep, Schedule, Dequeue, AsleepWith;
    var c := s.current.value;
    SleepReady(s, c, timer, true);
    Schedulable(s, c, timer, now);
  }

  /** The caller sleeps if no wakeup is counted; else the count is consumed and it goes on. */
  lemma EnterSleepEffect(s: Sys, timer: Option<Timer>, now: nat)
    requires Running(s) && s.idle != s.current
    ensures
      var (r, t) := Handle(s, EnterSleep(timer, now));
      var c := s.current.value;
      && Dequeue(s.queue, c).Some?
      && r == Ok
      && t == if s.procs[c].wakeups > 0 then s.(procs := s.procs[c := s.procs[c].(wakeups := 0)])
              else Schedule(AsleepWith(s, c, timer), now).1
  {
    hide Inv, Sleep, Schedule, Dequeue, AsleepWith;
    var c := s.current.value;
    SleepOpInv(s, c, timer, false);
    SleepReady(s, c, timer, true);
    Schedulable(s, c, timer, now);
    if s.procs[c].wakeups == 0 {
      SleepReady(s, c, timer, false);
    }
  }

  lemma Schedulable(s: Sys, c: nat, timer: Option<Timer>, now: nat)
    requires s.idle.Some? && c in s.procs && Dequeue(s.queue, c).Some? && Inv(AsleepWith(s, c, timer))
    ensures Schedule(AsleepWith(s, c, timer), now).0 == Done
  {
    hide Inv, Schedule, Dequeue, Unexpired, Due;
    ScheduleInv(AsleepWith(s, c, timer), now);
  }

  /** A pass: the head of the run queue runs and goes to its end. */
  lemma ScheduleCallEffect(s: Sys, now: nat)
    requires Running(s)
    ensures
      var (r, t) := Handle(s, ScheduleCall(now));
      && r == Ok && t == Schedule(s, now).1
      && t.current == (if s.queue != [] then Some(s.queue[0]) else s.idle)
      && Rotate(s.queue) <= t.queue
  {
    hide Inv, Schedule, Unexpired, Due, Rotate;
    ScheduleInv(s, now);
  }

  /** The lowest free process ID gets a stopped child of the caller. */
  lemma SpawnEffect(s: Sys)
    requires Running(s)
    ensures
      var (r, t) := Handle(s, Spawn);
      if forall p :: 0 <= p < MAX_PROCS ==> p in s.procs then r == Failed && t == s
      else
        r == Ok &&
        exists p: nat ::
          && p < MAX_PROCS && p !in s.procs && (forall k :: 0 <= k < p ==> k in s.procs)
          && t == s.(procs := s.procs[p := Proc(Stopped, s.current.value, 0, 0, 0, Timer(0, 0))])
  {
    hide Inv, Create;
    CreateInv(s, false);
    var (r, t) := Create(s, false);
    if r.Some? {
      assert t == s.(procs := s.procs[r.value := Proc(Stopped, s.current.value, 0, 0, 0, Timer(0, 0))]);
    }
  }

  /** What a process that stays becomes when `p` is killed: a waiter is joined, a peer is woken. */
  function AfterKill(s: Sys, p: nat, status: nat, peers: seq<nat>, q: nat): Proc
    requires q in s.procs
  {
    var v := if s.procs[q].state == Waiting && s.procs[q].waitId == p
             then s.procs[q].(state := Ready, waitResult := status) else s.procs[q];
    if q in peers then Woken(v) else v
  }

  /**
   The target is gone from the table and from every list, its waiters have its exit
   status, and its peers are woken; `u` is the state before the caller, if it killed
   itself as SELF, is scheduled away. Peers are listed once each, as the teardown of the
   shares collects them.
   */
  lemma KillEffect(s: Sys, target: Target, p: nat, status: nat, peers: seq<nat>, now: nat) returns (u: Sys)
    requires Running(s) && Means(s, target, p) && s.idle != Some(p) && NoDuplicates(peers)
    ensures
      var (r, t) := Handle(s, KillPID(target, status, peers, now));
      if p !in s.procs then r == NotFound && t == s && u == s
      else
        && r == Ok && u.procs.Keys == s.procs.Keys - {p}
        && (forall q :: q in u.procs ==> u.procs[q] == AfterKill(s, p, status, peers, q))
        && p !in u.queue && p !in u.sleepq && (forall v :: v in u.notify ==> p !in u.notify[v])
        && (forall q :: q in peers && q in u.procs && s.procs[q].state == Sleeping ==> q in u.queue && q !in u.sleepq)
        && u.idle == s.idle && u.current == (if s.current == Some(p) then None else s.current)
        && t == if target.Self? then Schedule(u, now).1 else u
  {
    hide Inv, Remove, RaiseAll, Schedule, Asleep, Forgotten, Without, Unregister;
    MeansResolved(s, target, p);
    u := s;
    if p in s.procs {
      RemoveInv(s, p, status);
      var m := Remove(s, p, status).1;
      u := RaiseAll(m, peers);
      RaiseAllInv(m, peers);
      NotifyEffect(m, peers);
      ForgottenIs(m, p);
      GoneAfter(m, peers, p);
      forall q | q in peers && q in u.procs && s.procs[q].state == Sleeping ensures q in u.queue && q !in u.sleepq {
        AsleepExactly(m.procs, peers, q);
      }
      ScheduleFine(u, now);
    }
  }

  lemma ForgottenIs(m: Sys, p: nat)
    requires Forgotten(m, p)
    ensures p !in m.procs && p !in m.queue && p !in m.sleepq && forall v :: v in m.notify ==> p !in m.notify[v]
  {
  }

  /** Events never queue a process that is not in the table. */
  lemma GoneAfter(m: Sys, peers: seq<nat>, p: nat)
    requires p !in m.procs
    ensures p !in Asleep(m.procs, peers)
  {
    AsleepExactly(m.procs, peers, p);
  }

  lemma ScheduleFine(u: Sys, now: nat)
    requires Inv(u) && u.idle.Some?
    ensures Schedule(u, now).0 == Done
  {
    hide Schedule, Unexpired, Due;
    ScheduleInv(u, now);
  }
}
