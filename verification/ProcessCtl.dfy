/** The system call handler of kernel/API/ProcessCtl.cpp as the step relation over the kernel state. */
module ProcessCtl {
  import opened Basics
  import opened ProcessModel
  import opened KernelSpec
  import opened KernelProofs

  /** A caller names itself as SELF or any process by number. */
  datatype Target = Self | Pid(pid: nat)

  /**
   `now` is the kernel timer when the call schedules. `peers` are the processes
   that share memory with a killed one; its teardown raises an event on each.
   */
  datatype Call =
    | Spawn
    | KillPID(target: Target, status: nat, peers: seq<nat>, now: nat)
    | ScheduleCall(now: nat)
    | StopCall(target: Target, now: nat)
    | ResumeCall(target: Target)
    | WakeupCall(target: Target)
    | WatchIRQ(target: Target, vec: nat)
    | WaitPID(target: Target, now: nat)
    | WaitTimer(timer: Option<Timer>, now: nat)
    | EnterSleep(timer: Option<Timer>, now: nat)
    | Interrupt(vec: nat)

  /** `Halted` is a FATAL report or an access behind the notify table. */
  datatype Reply = Ok | NotFound | Failed | Halted

  function Resolve(s: Sys, t: Target): Option<nat> {
    match t
    case Self => s.current
    case Pid(p) => if p in s.procs then Some(p) else None
  }

  function ThenSchedule(s: Sys, now: nat): (Reply, Sys) {
    var (o, t) := Schedule(s, now);
    if o == Fatal then (Halted, t) else (Ok, t)
  }

  function FromOutcome(r: (Outcome, Sys)): (Reply, Sys) {
    match r.0
    case Done => (Ok, r.1)
    case Fatal => (Halted, r.1)
    case _ => (Failed, r.1)
  }

  function Handle(s: Sys, call: Call): (Reply, Sys)
    requires s.current.Some? && s.current.value in s.procs
  {
    var c := s.current.value;
    match call
    case Spawn =>
      var (r, t) := Create(s, false);
      (if r.Some? then Ok else Failed, t)
    case ScheduleCall(now) => ThenSchedule(s, now)
    case KillPID(target, status, peers, now) =>
      (match Resolve(s, target)
       case None => (NotFound, s)
       case Some(p) =>
         if p !in s.procs then (NotFound, s)
         else
           var (o, t) := Remove(s, p, status);
           if o == Fatal then (Halted, t)
           else
             var u := RaiseAll(t, peers);
             if target.Self? then ThenSchedule(u, now) else (Ok, u))
    case StopCall(target, now) =>
      (match Resolve(s, target)
       case None => (NotFound, s)
       case Some(p) =>
         if p !in s.procs then (NotFound, s)
         else
           var (r, t) := FromOutcome(Stop(s, p));
           if r == Ok && target.Self? then ThenSchedule(t, now) else (r, t))
    case ResumeCall(target) =>
      (match Resolve(s, target)
       case None => (NotFound, s)
       case Some(p) => if p !in s.procs then (NotFound, s) else FromOutcome(Resume(s, p)))
    case WakeupCall(target) =>
      (match Resolve(s, target)
       case None => (NotFound, s)
       case Some(p) => if p !in s.procs then (NotFound, s) else FromOutcome(Wakeup(s, p)))
    case WatchIRQ(target, vec) =>
      (match Resolve(s, target)
       case None => (NotFound, s)
       case Some(p) => if vec >= NOTIFY_VECTORS then (Halted, s) else FromOutcome(Register(s, p, vec)))
    case WaitPID(target, now) =>
      (match Resolve(s, target)
       case None => (NotFound, s)
       case Some(p) =>
         var (r, t) := FromOutcome(Wait(s, c, p));
         if r == Ok then ThenSchedule(t, now) else (r, t))
    case WaitTimer(timer, now) =>
      var (r, t) := FromOutcome(Sleep(s, c, timer, true));
      if r == Ok then ThenSchedule(t, now) else (r, t)
    case EnterSleep(timer, now) =>
      var (o, t) := Sleep(s, c, timer, false);
      if o == Fatal then (Halted, t) else if o == Done then ThenSchedule(t, now) else (Ok, t)
    case Interrupt(vec) =>
      (Ok, if vec in s.notify then RaiseAll(s, s.notify[vec]) else s)
  }

  /** Between calls: the invariant holds, a Ready process is current and an idle process is installed. */
  ghost predicate Running(s: Sys) {
    && Inv(s)
    && s.current.Some? && s.current.value in s.procs && s.procs[s.current.value].state == Ready
    && s.idle.Some?
  }

  /** The call stops, removes or puts to sleep the idle process. */
  predicate HitsIdle(s: Sys, call: Call)
    requires s.current.Some? && s.current.value in s.procs
  {
    match call
    case KillPID(t, _, _, _) => s.idle.Some? && Resolve(s, t) == s.idle
    case StopCall(t, _) => s.idle.Some? && Resolve(s, t) == s.idle
    case WaitPID(t, _) => Resolve(s, t).Some? && s.idle == s.current
    case WaitTimer(_, _) => s.idle == s.current
    case EnterSleep(_, _) => s.idle == s.current && s.procs[s.current.value].wakeups == 0
    case _ => false
  }

  predicate BadVector(s: Sys, call: Call) {
    call.WatchIRQ? && Resolve(s, call.target).Some? && call.vec >= NOTIFY_VECTORS
  }

  /** The caller kills or stops itself by number instead of as SELF, so that no other process is scheduled. */
  predicate NamesItself(s: Sys, call: Call) {
    (call.KillPID? || call.StopCall?) && call.target.Pid? && s.current == Some(call.target.pid)
  }

  lemma ThenScheduleRuns(s: Sys, now: nat)
    requires Inv(s) && s.idle.Some?
    ensures
      var (r, t) := ThenSchedule(s, now);
      && r == Ok && Running(t) && t.idle == s.idle && t.procs.Keys == s.procs.Keys
      && (forall p :: p in s.procs && s.procs[p].state != Sleeping && s.procs[p].state != Stopped ==>
            t.procs[p] == s.procs[p])
  {
    ScheduleInv(s, now);
  }

  lemma KillStep(s: Sys, call: Call)
    requires Running(s) && call.KillPID?
    ensures
      var (r, t) := Handle(s, call);
      && (r == Halted <==> HitsIdle(s, call))
      && (r != Halted ==> (Running(t) <==> !NamesItself(s, call)) && Inv(t) && t.idle == s.idle)
  {
    hide Inv, Remove, RaiseAll, Schedule;
    var target := Resolve(s, call.target);
    if target.Some? {
      CurrentLives(s);
      var p := target.value;
      RemoveInv(s, p, call.status);
      var (o, t) := Remove(s, p, call.status);
      if o != Fatal {
        RaiseAllInv(t, call.peers);
        ThenScheduleRuns(RaiseAll(t, call.peers), call.now);
      }
    }
  }

  /** Waiters hold no queue place, so the caller is none of them. */
  lemma CurrentLives(s: Sys)
    requires Running(s)
    ensures forall t :: Resolve(s, t).Some? ==> Resolve(s, t).value in s.procs
    ensures forall p :: !WaitsOn(s.procs, s.current.value, p)
  {
  }

  lemma StopStep(s: Sys, call: Call)
    requires Running(s) && call.StopCall?
    ensures
      var (r, t) := Handle(s, call);
      && (r == Halted <==> HitsIdle(s, call))
      && (r != Halted ==> (Running(t) <==> !NamesItself(s, call)) && Inv(t) && t.idle == s.idle)
  {
    hide Inv, Stop, Schedule;
    var target := Resolve(s, call.target);
    if target.Some? {
      CurrentLives(s);
      StopInv(s, target.value);
      var (o, t) := Stop(s, target.value);
      if o == Done && call.target.Self? {
        ThenScheduleRuns(t, call.now);
      }
    }
  }

  lemma BlockStep(s: Sys, call: Call)
    requires Running(s) && (call.WaitPID? || call.WaitTimer? || call.EnterSleep?)
    ensures
      var (r, t) := Handle(s, call);
      && (r == Halted <==> HitsIdle(s, call))
      && (r != Halted ==> Running(t) && t.idle == s.idle)
  {
    hide Inv, Wait, Sleep, Schedule;
    CurrentLives(s);
    var c := s.current.value;
    match call
    case WaitPID(target, now) =>
      if Resolve(s, target).Some? {
        WaitOpInv(s, c, Resolve(s, target).value);
        var (o, t) := Wait(s, c, Resolve(s, target).value);
        if o == Done { ThenScheduleRuns(t, now); }
      }
    case WaitTimer(timer, now) =>
      SleepOpInv(s, c, timer, true);
      var (o, t) := Sleep(s, c, timer, true);
      if o == Done { ThenScheduleRuns(t, now); }
    case EnterSleep(timer, now) =>
      SleepOpInv(s, c, timer, false);
      var (o, t) := Sleep(s, c, timer, false);
      if o == Done { ThenScheduleRuns(t, now); }
  }

  lemma OtherStep(s: Sys, call: Call)
    requires Running(s)
    requires !call.KillPID? && !call.StopCall? && !call.WaitPID? && !call.WaitTimer? && !call.EnterSleep?
    ensures
      var (r, t) := Handle(s, call);
      && (r == Halted <==> BadVector(s, call))
      && Running(t) && t.idle == s.idle
  {
    hide Inv, Create, Resume, Wakeup, Register, RaiseAll, Schedule;
    CurrentLives(s);
    match call
    case Spawn =>
      CreateInv(s, false);
      var (r, t) := Create(s, false);
      assert t.idle == s.idle;
    case ScheduleCall(now) => ThenScheduleRuns(s, now);
    case ResumeCall(target) =>
      if Resolve(s, target).Some? { ResumeInv(s, Resolve(s, target).value); }
    case WakeupCall(target) =>
      if Resolve(s, target).Some? { WakeupInv(s, Resolve(s, target).value); }
    case WatchIRQ(target, vec) =>
      if Resolve(s, target).Some? { RegisterInv(s, Resolve(s, target).value, vec); }
    case Interrupt(vec) =>
      if vec in s.notify { RaiseAllInv(s, s.notify[vec]); }
  }

  /**
   One call from a running system: it halts the kernel exactly when it hits the
   idle process or names a vector behind the notify table, and otherwise leaves
   a running system exactly when the caller did not kill or stop itself by number.
   */
  lemma HandleExact(s: Sys, call: Call)
    requires Running(s)
    ensures
      var (r, t) := Handle(s, call);
      && (r == Halted <==> HitsIdle(s, call) || BadVector(s, call))
      && (r != Halted ==> (Running(t) <==> !NamesItself(s, call)) && t.idle == s.idle)
  {
    hide Inv, Handle, HitsIdle;
    match call
    case KillPID(_, _, _, _) => KillStep(s, call);
    case StopCall(_, _) => StopStep(s, call);
    case WaitPID(_, _) => BlockStep(s, call);
    case WaitTimer(_, _) => BlockStep(s, call);
    case EnterSleep(_, _) => BlockStep(s, call);
    case _ => OtherStep(s, call); NoIdleHit(s, call);
  }

  lemma NoIdleHit(s: Sys, call: Call)
    requires Running(s)
    requires !call.KillPID? && !call.StopCall? && !call.WaitPID? && !call.WaitTimer? && !call.EnterSleep?
    ensures !HitsIdle(s, call)
  {
  }

  // --------------------------------------------------------------- whole runs

  /** A call that respects the idle process, the notify table and SELF. */
  predicate Polite(s: Sys, call: Call)
    requires s.current.Some? && s.current.value in s.procs
  {
    !HitsIdle(s, call) && !BadVector(s, call) && !NamesItself(s, call)
  }

  /** Every call of the run is polite in the state it is made in. */
  ghost predicate PoliteRun(s: Sys, calls: seq<Call>)
    requires Running(s)
    decreases |calls|
  {
    if calls == [] then true
    else
      Polite(s, calls[0]) &&
      (HandleExact(s, calls[0]); PoliteRun(Handle(s, calls[0]).1, calls[1..]))
  }

  ghost function RunCalls(s: Sys, calls: seq<Call>): Sys
    requires Running(s) && PoliteRun(s, calls)
    decreases |calls|
  {
    if calls == [] then s
    else
      HandleExact(s, calls[0]);
      RunCalls(Handle(s, calls[0]).1, calls[1..])
  }

  /** No polite run of system calls ever halts the kernel, and the invariant holds after each. */
  lemma {:induction false} PoliteRunsKeepRunning(s: Sys, calls: seq<Call>)
    requires Running(s) && PoliteRun(s, calls)
    ensures Running(RunCalls(s, calls))
    ensures calls != [] ==> Handle(s, calls[0]).0 != Halted
    decreases |calls|
  {
    hide Inv, Handle, HitsIdle;
    if calls != [] {
      HandleExact(s, calls[0]);
      PoliteRunsKeepRunning(Handle(s, calls[0]).1, calls[1..]);
    }
  }

  // ------------------------------------------------------------ wait and exit

  predicate Kills(s: Sys, call: Call, p: nat) {
    call.KillPID? && Resolve(s, call.target) == Some(p)
  }

  lemma WaiterKillStep(s: Sys, call: Call, p: nat, q: nat)
    requires Running(s) && Polite(s, call) && call.KillPID? && WaitsOn(s.procs, p, q) && q in s.procs
    ensures
      var t := Handle(s, call).1;
      if Kills(s, call, p) then p !in t.procs
      else if Kills(s, call, q) then
        p in t.procs && t.procs[p].state == Ready && t.procs[p].waitResult == call.status
      else WaitsOn(t.procs, p, q) && q in t.procs
  {
    hide Inv, Remove, RaiseAll, Schedule;
    var target := Resolve(s, call.target);
    if target.Some? {
      CurrentLives(s);
      RemoveInv(s, target.value, call.status);
      var t := Remove(s, target.value, call.status).1;
      RaiseAllInv(t, call.peers);
      ThenScheduleRuns(RaiseAll(t, call.peers), call.now);
    }
  }

  lemma WaiterBlockStep(s: Sys, call: Call, p: nat, q: nat)
    requires Running(s) && Polite(s, call) && WaitsOn(s.procs, p, q) && q in s.procs
    requires call.StopCall? || call.WaitPID? || call.WaitTimer? || call.EnterSleep?
    ensures var t := Handle(s, call).1; WaitsOn(t.procs, p, q) && q in t.procs
  {
    hide Inv, Stop, Wait, Sleep, Schedule;
    CurrentLives(s);
    var c := s.current.value;
    match call
    case StopCall(target, now) =>
      if Resolve(s, target).Some? {
        StopInv(s, Resolve(s, target).value);
        var (o, t) := Stop(s, Resolve(s, target).value);
        if o == Done && target.Self? { ThenScheduleRuns(t, now); }
      }
    case WaitPID(target, now) =>
      if Resolve(s, target).Some? {
        WaitOpInv(s, c, Resolve(s, target).value);
        ThenScheduleRuns(Wait(s, c, Resolve(s, target).value).1, now);
      }
    case WaitTimer(timer, now) =>
      SleepOpInv(s, c, timer, true);
      ThenScheduleRuns(Sleep(s, c, timer, true).1, now);
    case EnterSleep(timer, now) =>
      SleepOpInv(s, c, timer, false);
      var (o, t) := Sleep(s, c, timer, false);
      if o == Done { ThenScheduleRuns(t, now); }
  }

  lemma WaiterOtherStep(s: Sys, call: Call, p: nat, q: nat)
    requires Running(s) && Polite(s, call) && WaitsOn(s.procs, p, q) && q in s.procs
    requires call.Spawn? || call.ScheduleCall? || call.ResumeCall? || call.WakeupCall? || call.WatchIRQ? || call.Interrupt?
    ensures var t := Handle(s, call).1; WaitsOn(t.procs, p, q) && q in t.procs
  {
    hide Inv, Create, Resume, Wakeup, Register, RaiseAll, Schedule;
    CurrentLives(s);
    match call
    case Spawn =>
      CreateInv(s, false);
      var t := Create(s, false).1;
      assert t.procs[p] == s.procs[p];
    case ScheduleCall(now) => ThenScheduleRuns(s, now);
    case ResumeCall(target) =>
      if Resolve(s, target).Some? { ResumeInv(s, Resolve(s, target).value); }
    case WakeupCall(target) =>
      if Resolve(s, target).Some? { WakeupInv(s, Resolve(s, target).value); }
    case WatchIRQ(target, vec) =>
      if Resolve(s, target).Some? { RegisterInv(s, Resolve(s, target).value, vec); }
    case Interrupt(vec) =>
      if vec in s.notify { RaiseAllInv(s, s.notify[vec]); }
  }

  /**
   A process waiting for `q` leaves that state only when `q` itself is removed,
   and then with the exit status of that removal.
   */
  lemma WaiterStep(s: Sys, call: Call, p: nat, q: nat)
    requires Running(s) && Polite(s, call) && WaitsOn(s.procs, p, q)
    ensures q in s.procs
    ensures
      var t := Handle(s, call).1;
      if Kills(s, call, p) then p !in t.procs
      else if Kills(s, call, q) then
        p in t.procs && t.procs[p].state == Ready && t.procs[p].waitResult == call.status
      else WaitsOn(t.procs, p, q) && q in t.procs
  {
    hide Handle, HitsIdle;
    assert q in s.procs;
    match call
    case KillPID(_, _, _, _) => WaiterKillStep(s, call, p, q);
    case StopCall(_, _) => WaiterBlockStep(s, call, p, q);
    case WaitPID(_, _) => WaiterBlockStep(s, call, p, q);
    case WaitTimer(_, _) => WaiterBlockStep(s, call, p, q);
    case EnterSleep(_, _) => WaiterBlockStep(s, call, p, q);
    case _ => WaiterOtherStep(s, call, p, q);
  }

  /** No call of the run removes `p` or `q`. */
  ghost predicate Spares(s: Sys, calls: seq<Call>, p: nat, q: nat)
    requires Running(s) && PoliteRun(s, calls)
    decreases |calls|
  {
    if calls == [] then true
    else
      && !Kills(s, calls[0], p) && !Kills(s, calls[0], q)
      && (HandleExact(s, calls[0]); Spares(Handle(s, calls[0]).1, calls[1..], p, q))
  }

  /**
   Across any run, however process IDs are reused in it: as long as neither is
   removed the waiter waits for the same live process, and the call that
   finally removes `q` delivers its own exit status.
   */
  lemma {:induction false} WaitUntilExit(s: Sys, calls: seq<Call>, p: nat, q: nat)
    requires Running(s) && PoliteRun(s, calls) && WaitsOn(s.procs, p, q)
    requires Spares(s, calls, p, q)
    ensures
      var t := RunCalls(s, calls);
      && Running(t) && WaitsOn(t.procs, p, q) && q in t.procs
      && (forall call :: Polite(t, call) && Kills(t, call, q) && !Kills(t, call, p) ==>
            var u := Handle(t, call).1;
            p in u.procs && u.procs[p].state == Ready && u.procs[p].waitResult == call.status)
    decreases |calls|
  {
    hide Inv, Handle, HitsIdle;
    if calls == [] {
      assert q in s.procs by {
        WaiterLives(s, p, q);
      }
      forall call | Polite(s, call) && Kills(s, call, q) && !Kills(s, call, p)
        ensures
          var u := Handle(s, call).1;
          p in u.procs && u.procs[p].state == Ready && u.procs[p].waitResult == call.status
      {
        WaiterStep(s, call, p, q);
      }
    } else {
      HandleExact(s, calls[0]);
      WaiterStep(s, calls[0], p, q);
      WaitUntilExit(Handle(s, calls[0]).1, calls[1..], p, q);
    }
  }

  lemma WaiterLives(s: Sys, p: nat, q: nat)
    requires Running(s) && WaitsOn(s.procs, p, q)
    ensures q in s.procs
  {
  }

  // ------------------------------------------------------------- round robin

  /** One scheduling pass per clock value. */
  ghost function SchedulePasses(s: Sys, nows: seq<nat>): (t: Sys)
    requires Inv(s) && s.idle.Some?
    ensures Inv(t) && t.idle == s.idle
    decreases |nows|
  {
    if nows == [] then s
    else
      ScheduleInv(s, nows[0]);
      SchedulePasses(Schedule(s, nows[0]).1, nows[1..])
  }

  /** The process at place k of the run queue runs at the (k+1)-th scheduling pass, whatever wakes up meanwhile. */
  lemma {:induction false} RoundRobin(s: Sys, nows: seq<nat>)
    requires Inv(s) && s.idle.Some? && 0 < |nows| <= |s.queue|
    ensures SchedulePasses(s, nows).current == Some(s.queue[|nows| - 1])
    decreases |nows|
  {
    hide Inv, Schedule;
    ScheduleInv(s, nows[0]);
    var t := Schedule(s, nows[0]).1;
    if |nows| == 1 {
      assert SchedulePasses(t, nows[1..]) == t;
    } else {
      assert t.queue[|nows| - 2] == s.queue[|nows| - 1];
      RoundRobin(t, nows[1..]);
    }
  }
}
