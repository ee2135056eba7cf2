/** How long a process sleeps with a timer, over whole runs of system calls, in ticks. */
module Timers {
  import opened Basics
  import opened ProcessModel
  import opened KernelSpec
  import opened KernelProofs
  import opened ProcessCtl
  import opened CallEffects

  /** `p` sleeps and is in the sleep queue with a timer that is due at tick `due`. */
  ghost predicate SleepsUntil(s: Sys, p: nat, due: nat) {
    && p in s.procs && s.procs[p].state == Sleeping && p in s.sleepq
    && s.procs[p].sleepTimer.frequency != 0 && s.procs[p].sleepTimer.ticks == due
  }

  /** `p` is Ready, in the run queue, off the sleep queue, and has a wakeup counted. */
  ghost predicate Awake(s: Sys, p: nat) {
    && p in s.procs && s.procs[p].state == Ready && p in s.queue && p !in s.sleepq && s.procs[p].wakeups > 0
  }

  lemma {:induction false} UnexpiredExactly(q: seq<nat>, procs: map<nat, Proc>, now: nat, p: nat)
    requires p in procs && procs[p].sleepTimer.frequency != 0
    ensures p in Unexpired(q, procs, now) <==> p in q && now < procs[p].sleepTimer.ticks
  {
    if q != [] {
      UnexpiredExactly(q[1..], procs, now, p);
    }
  }

  /** A timer without a frequency keeps its process asleep for good. */
  lemma {:induction false} NeverExpires(q: seq<nat>, procs: map<nat, Proc>, now: nat, p: nat)
    requires p in procs && procs[p].sleepTimer.frequency == 0
    ensures p in Unexpired(q, procs, now) <==> p in q
  {
    if q != [] {
      NeverExpires(q[1..], procs, now, p);
    }
  }

  /** One scheduling pass: before the due tick nothing happens to the sleeper, from it on the sleeper is woken and queued. */
  lemma PassWakesExactly(s: Sys, p: nat, due: nat, now: nat)
    requires Inv(s) && s.idle.Some? && SleepsUntil(s, p, due)
    ensures
      var t := Schedule(s, now).1;
      if now < due then SleepsUntil(t, p, due) && t.procs[p] == s.procs[p] else Awake(t, p)
  {
    hide Inv, Schedule, Unexpired, Due, Rotate;
    ScheduleInv(s, now);
    var t := Schedule(s, now).1;
    UnexpiredExactly(s.sleepq, s.procs, now, p);
    SleeperNotIdle(s, p);
    if now >= due {
      ReadyQueuedNow(t, p);
    }
  }

  lemma SleeperNotIdle(s: Sys, p: nat)
    requires Inv(s) && p in s.procs && s.procs[p].state == Sleeping
    ensures s.idle != Some(p)
  {
  }

  /** A pass never wakes a sleeper whose timer has no frequency. */
  lemma PassKeepsForever(s: Sys, p: nat, now: nat)
    requires Inv(s) && s.idle.Some? && p in s.procs && s.procs[p].state == Sleeping && s.procs[p].sleepTimer.frequency == 0
    ensures
      var t := Schedule(s, now).1;
      p in t.procs && t.procs[p] == s.procs[p] && (p in t.sleepq <==> p in s.sleepq)
  {
    hide Inv, Schedule, Unexpired, Due, Rotate;
    ScheduleInv(s, now);
    NeverExpires(s.sleepq, s.procs, now, p);
  }

  lemma ReadyQueuedNow(t: Sys, p: nat)
    requires Inv(t) && p in t.procs && t.procs[p].state == Ready && t.idle != Some(p)
    ensures p in t.queue
  {
  }

  // -------------------------------------------------------------------- calls

  /** The call is aimed at `p`, or raises an event on it. */
  predicate Disturbs(s: Sys, call: Call, p: nat) {
    match call
    case KillPID(target, _, peers, _) => Means(s, target, p) || p in peers
    case StopCall(target, _) => Means(s, target, p)
    case WakeupCall(target) => Means(s, target, p)
    case Interrupt(vec) => vec in s.notify && p in s.notify[vec]
    case _ => false
  }

  /** The tick at which the call makes a scheduling pass, if it does. */
  function PassAt(s: Sys, call: Call): Option<nat>
    requires s.current.Some? && s.current.value in s.procs
  {
    match call
    case KillPID(target, _, _, now) => if target.Self? then Some(now) else None
    case ScheduleCall(now) => Some(now)
    case StopCall(target, now) => if target.Self? then Some(now) else None
    case WaitPID(target, now) => if target.Self? || target.pid in s.procs then Some(now) else None
    case WaitTimer(_, now) => Some(now)
    case EnterSleep(_, now) => if s.procs[s.current.value].wakeups == 0 then Some(now) else None
    case _ => None
  }

  /** The sleeper as it was. */
  ghost predicate Untouched(s: Sys, t: Sys, p: nat)
    requires p in s.procs
  {
    p in t.procs && t.procs[p] == s.procs[p] && (p in t.sleepq <==> p in s.sleepq)
  }

  lemma {:induction false} RaiseSkips(s: Sys, lst: seq<nat>, p: nat)
    requires Inv(s) && p in s.procs && p !in lst
    ensures Untouched(s, RaiseAll(s, lst), p)
    decreases |lst|
  {
    hide Inv, Wakeup, RaiseAll;
    RaiseStep(s, lst);
    if lst != [] {
      if lst[0] in s.procs {
        WakeOne(s, lst[0]);
        RaiseSkips(Wakeup(s, lst[0]).1, lst[1..], p);
      } else {
        RaiseSkips(s, lst[1..], p);
      }
    }
  }

  lemma KillSkips(s: Sys, p: nat, x: nat, status: nat, peers: seq<nat>)
    requires Inv(s) && x in s.procs && s.idle != Some(x) && p in s.procs && p != x && p !in peers
    requires s.procs[p].state == Sleeping
    ensures
      var u := RaiseAll(Remove(s, x, status).1, peers);
      Inv(u) && u.idle == s.idle && Untouched(s, u, p)
  {
    hide Inv, Remove, RaiseAll, Forgotten, Without, Unregister;
    RemoveInv(s, x, status);
    var m := Remove(s, x, status).1;
    WithoutMembers(s.sleepq, x);
    RaiseAllInv(m, peers);
    RaiseSkips(m, peers, p);
  }

  /** The state in which the call makes its scheduling pass, or which it leaves: the sleeper is as it was. */
  lemma BeforePass(s: Sys, call: Call, p: nat) returns (m: Sys)
    requires Running(s) && Polite(s, call) && p in s.procs && s.procs[p].state == Sleeping && !Disturbs(s, call, p)
    ensures Inv(m) && m.idle.Some? && Untouched(s, m, p)
    ensures
      var t := Handle(s, call).1;
      t == if PassAt(s, call).Some? then Schedule(m, PassAt(s, call).value).1 else m
  {
    hide Inv, Remove, Stop, Wait, Sleep, Resume, Wakeup, Register, RaiseAll, Schedule, Create, Without, Dequeue;
    CurrentLives(s);
    var c := s.current.value;
    m := s;
    match call
    case Spawn =>
      CreateInv(s, false);
      m := Create(s, false).1;
    case KillPID(target, status, peers, now) =>
      if Resolve(s, target).Some? {
        var x := Resolve(s, target).value;
        KillSkips(s, p, x, status, peers);
        RemoveInv(s, x, status);
        m := RaiseAll(Remove(s, x, status).1, peers);
        ScheduleFine(m, now);
      }
    case ScheduleCall(now) => ScheduleFine(s, now);
    case StopCall(target, now) =>
      if Resolve(s, target).Some? {
        StopInv(s, Resolve(s, target).value);
        m := Stop(s, Resolve(s, target).value).1;
        ScheduleFine(m, now);
      }
    case ResumeCall(target) =>
      if Resolve(s, target).Some? {
        var x := Resolve(s, target).value;
        ResumeInv(s, x);
        WithoutMembers(s.sleepq, x);
        m := Resume(s, x).1;
      }
    case WakeupCall(target) =>
      if Resolve(s, target).Some? {
        WakeOne(s, Resolve(s, target).value);
        WakeupInv(s, Resolve(s, target).value);
        m := Wakeup(s, Resolve(s, target).value).1;
      }
    case WatchIRQ(target, vec) =>
      if Resolve(s, target).Some? {
        RegisterInv(s, Resolve(s, target).value, vec);
        m := Register(s, Resolve(s, target).value, vec).1;
      }
    case WaitPID(target, now) =>
      if Resolve(s, target).Some? {
        WaitOpInv(s, c, Resolve(s, target).value);
        m := Wait(s, c, Resolve(s, target).value).1;
        ScheduleFine(m, now);
      }
    case WaitTimer(timer, now) =>
      SleepOpInv(s, c, timer, true);
      m := Sleep(s, c, timer, true).1;
      ScheduleFine(m, now);
    case EnterSleep(timer, now) =>
      SleepOpInv(s, c, timer, false);
      m := Sleep(s, c, timer, false).1;
      ScheduleFine(m, now);
    case Interrupt(vec) =>
      if vec in s.notify {
        RaiseAllInv(s, s.notify[vec]);
        RaiseSkips(s, s.notify[vec], p);
        m := RaiseAll(s, s.notify[vec]);
      }
  }

  /** One call that is not aimed at the sleeper: only a pass at or after the due tick wakes it. */
  lemma CallWakesExactly(s: Sys, call: Call, p: nat, due: nat)
    requires Running(s) && Polite(s, call) && SleepsUntil(s, p, due) && !Disturbs(s, call, p)
    ensures
      var t := Handle(s, call).1;
      if PassAt(s, call).Some? && PassAt(s, call).value >= due then Awake(t, p)
      else SleepsUntil(t, p, due) && t.procs[p] == s.procs[p]
  {
    hide Inv, Handle, HitsIdle, Disturbs, PassAt, Schedule;
    var m := BeforePass(s, call, p);
    if PassAt(s, call).Some? {
      PassWakesExactly(m, p, due, PassAt(s, call).value);
    }
  }

  // --------------------------------------------------------------- whole runs

  /** No call of the run is aimed at `p`, and none makes a pass at or after tick `due`. */
  ghost predicate Early(s: Sys, calls: seq<Call>, p: nat, due: nat)
    requires Running(s) && PoliteRun(s, calls)
    decreases |calls|
  {
    if calls == [] then true
    else
      && !Disturbs(s, calls[0], p) && (PassAt(s, calls[0]).Some? ==> PassAt(s, calls[0]).value < due)
      && (HandleExact(s, calls[0]); Early(Handle(s, calls[0]).1, calls[1..], p, due))
  }

  lemma {:induction false} StillAsleep(s: Sys, calls: seq<Call>, p: nat, due: nat)
    requires Running(s) && PoliteRun(s, calls) && Early(s, calls, p, due) && SleepsUntil(s, p, due)
    ensures Running(RunCalls(s, calls)) && SleepsUntil(RunCalls(s, calls), p, due)
    decreases |calls|
  {
    hide Inv, Handle, HitsIdle, Disturbs, PassAt, SleepsUntil;
    if calls != [] {
      HandleExact(s, calls[0]);
      CallWakesExactly(s, calls[0], p, due);
      StillAsleep(Handle(s, calls[0]).1, calls[1..], p, due);
    }
  }

  /** The call puts the caller to sleep with this timer. */
  predicate PutsToSleep(s: Sys, call: Call, timer: Timer)
    requires s.current.Some? && s.current.value in s.procs
  {
    || (call.WaitTimer? && call.timer == Some(timer))
    || (call.EnterSleep? && call.timer == Some(timer) && s.procs[s.current.value].wakeups == 0)
  }

  /** What that call leaves: the caller sleeps until the timer is due, or was woken at once by the pass of the call itself. */
  lemma FallsAsleep(s: Sys, call: Call, timer: Timer)
    requires Running(s) && Polite(s, call) && PutsToSleep(s, call, timer) && timer.frequency != 0
    ensures
      var t, c := Handle(s, call).1, s.current.value;
      if call.now < timer.ticks then SleepsUntil(t, c, timer.ticks) else Awake(t, c)
  {
    hide Inv, Handle, Schedule, Dequeue;
    var c := s.current.value;
    if call.WaitTimer? {
      WaitTimerEffect(s, call.timer, call.now);
    } else {
      EnterSleepEffect(s, call.timer, call.now);
    }
    SleepReady(s, c, call.timer, true);
    PassWakesExactly(AsleepWith(s, c, call.timer), c, timer.ticks, call.now);
  }

  /**
   A process that goes to sleep with a timer stays asleep through every run of calls that
   are not aimed at it as long as all scheduling passes come before the due tick, and the
   first pass at or after that tick makes it Ready and queues it.
   */
  lemma SleepsUntilDue(s: Sys, call: Call, timer: Timer, calls: seq<Call>, last: Call)
    requires Running(s) && Polite(s, call) && PutsToSleep(s, call, timer) && timer.frequency != 0
    requires call.now < timer.ticks
    requires Running(Handle(s, call).1) && PoliteRun(Handle(s, call).1, calls)
    requires Early(Handle(s, call).1, calls, s.current.value, timer.ticks)
    ensures
      var c, t := s.current.value, RunCalls(Handle(s, call).1, calls);
      && Running(t) && c in t.procs && t.procs[c].state == Sleeping
      && (Polite(t, last) && !Disturbs(t, last, c) && PassAt(t, last).Some? && PassAt(t, last).value >= timer.ticks ==>
            Awake(Handle(t, last).1, c))
  {
    hide Inv, Handle, HitsIdle, Disturbs, PassAt;
    var c := s.current.value;
    FallsAsleep(s, call, timer);
    StillAsleep(Handle(s, call).1, calls, c, timer.ticks);
    var t := RunCalls(Handle(s, call).1, calls);
    if Polite(t, last) && !Disturbs(t, last, c) {
      CallWakesExactly(t, last, c, timer.ticks);
    }
  }
}
