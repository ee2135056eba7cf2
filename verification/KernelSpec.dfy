/**
 What every operation of kernel/ProcessManager.cpp and kernel/Scheduler.cpp
 does to the process table, the run queue, the sleep queue and the notify
 lists, as functions on values. Processes appear by process ID.
 */
module KernelSpec {
  import opened Basics
  import opened ProcessModel

  const MAX_PROCS: nat := 1024
  const NOTIFY_VECTORS: nat := 256

  /** `Fatal` stands for the FATAL reports that halt the kernel. */
  datatype Outcome = Done | Pending | IOError | AlreadyExists | Fatal

  datatype Sys = Sys(
    procs: map<nat, Proc>,
    queue: seq<nat>,
    sleepq: seq<nat>,
    current: Option<nat>,
    idle: Option<nat>,
    notify: map<nat, seq<nat>>)

  // ------------------------------------------------------------------ queues

  /** Queue::push, which drops the item when all MAX_PROCS places are taken. */
  function Push(q: seq<nat>, p: nat): seq<nat> {
    if |q| >= MAX_PROCS then q else q + [p]
  }

  function IndexOf(q: seq<nat>, p: nat): (i: nat)
    requires p in q
    ensures i < |q| && q[i] == p && p !in q[..i]
  {
    if q[0] == p then 0 else 1 + IndexOf(q[1..], p)
  }

  /** Scheduler::dequeue: pops and pushes back until `p` comes up, which leaves the rest rotated. */
  function Dequeue(q: seq<nat>, p: nat): Option<seq<nat>> {
    if p in q then Some(q[IndexOf(q, p) + 1..] + q[..IndexOf(q, p)]) else None
  }

  /** Scheduler::select on a non-empty queue. */
  function Rotate(q: seq<nat>): seq<nat> {
    if q == [] then [] else q[1..] + [q[0]]
  }

  // -------------------------------------------------------------- operations

  function SetProc(s: Sys, p: nat, v: Proc): Sys {
    s.(procs := s.procs[p := v])
  }

  /** ProcessManager::enqueueProcess */
  function EnqueueProcess(s: Sys, p: nat): (Outcome, Sys)
    requires p in s.procs
  {
    if s.procs[p].state != Ready then (IOError, s)
    else (Done, s.(queue := Push(s.queue, p), sleepq := Without(s.sleepq, p)))
  }

  /** ProcessManager::dequeueProcess; `ready` is whether the process is still in the Ready state. */
  function DequeueProcess(s: Sys, p: nat, ready: bool, ignoreState: bool): (Outcome, Sys) {
    if ready && !ignoreState then (IOError, s)
    else
      match Dequeue(s.queue, p)
      case None => (Fatal, s)
      case Some(q) => (Done, s.(queue := q))
  }

  /** The lowest free process ID at or above `i`, as Index::insert finds it. */
  function FirstFree(procs: map<nat, Proc>, i: nat): (r: Option<nat>)
    ensures r.Some? ==> i <= r.value < MAX_PROCS && r.value !in procs
    ensures r.Some? ==> forall k :: i <= k < r.value ==> k in procs
    ensures r.None? ==> forall k :: i <= k < MAX_PROCS ==> k in procs
    decreases MAX_PROCS - i
  {
    if i >= MAX_PROCS then None
    else if i !in procs then Some(i)
    else FirstFree(procs, i + 1)
  }

  function Create(s: Sys, readyToRun: bool): (Option<nat>, Sys) {
    match FirstFree(s.procs, 0)
    case None => (None, s)
    case Some(p) =>
      var s1 := SetProc(s, p, NewProc(0));
      var s2 := if readyToRun then Resume(s1, p).1 else s1;
      var s3 := if s.current.Some? then SetProc(s2, p, s2.procs[p].(parent := s.current.value)) else s2;
      (Some(p), s3)
  }

  function Resume(s: Sys, p: nat): (r: (Outcome, Sys))
    requires p in s.procs
    ensures r.1.procs.Keys == s.procs.Keys
  {
    var (r, v) := s.procs[p].Resume();
    if r != Success then (IOError, s)
    else EnqueueProcess(SetProc(s, p, v), p)
  }

  function Stop(s: Sys, p: nat): (Outcome, Sys)
    requires p in s.procs
  {
    var (r, v) := s.procs[p].Stop();
    if r != Success then (IOError, s)
    else if s.procs[p].state == Ready then DequeueProcess(SetProc(s, p, v), p, false, false)
    else (Done, SetProc(s, p, v))
  }

  /** ProcessManager::wait for the current process `c`. */
  function Wait(s: Sys, c: nat, p: nat): (Outcome, Sys)
    requires c in s.procs
  {
    var (r, v) := s.procs[c].Wait(p);
    if r != Success then (IOError, s)
    else DequeueProcess(SetProc(s, c, v), c, false, false)
  }

  /** ProcessManager::sleep for the current process `c`. */
  function Sleep(s: Sys, c: nat, timer: Option<Timer>, ignoreWakeups: bool): (Outcome, Sys)
    requires c in s.procs
  {
    var (r, v) := s.procs[c].Sleep(timer, ignoreWakeups);
    match r
    case WakeupPending => (Pending, SetProc(s, c, v))
    case InvalidArgument => (IOError, s)
    case Success =>
      var (o, s1) := DequeueProcess(SetProc(s, c, v), c, false, false);
      if o != Done then (Fatal, s1)
      else if timer.Some? then (Done, s1.(sleepq := Push(s1.sleepq, c)))
      else (Done, s1)
  }

  /** ProcessManager::wakeup, and raiseEvent apart from the message it writes. */
  function Wakeup(s: Sys, p: nat): (r: (Outcome, Sys))
    requires p in s.procs
    ensures r.1.procs.Keys == s.procs.Keys
  {
    var (r, v) := s.procs[p].Wakeup();
    if r == Success then EnqueueProcess(SetProc(s, p, v), p) else (Done, SetProc(s, p, v))
  }

  /** The loop of ProcessManager::remove over table slots `i` and up that releases the waiters on `p`. */
  function JoinFrom(s: Sys, p: nat, status: nat, i: nat): (r: Sys)
    ensures r.procs.Keys == s.procs.Keys
    decreases MAX_PROCS - i
  {
    if i >= MAX_PROCS then s else JoinFrom(JoinOne(s, p, status, i), p, status, i + 1)
  }

  function JoinOne(s: Sys, p: nat, status: nat, i: nat): (r: Sys)
    ensures r.procs.Keys == s.procs.Keys
  {
    if i in s.procs && s.procs[i].state == Waiting && s.procs[i].waitId == p then
      EnqueueProcess(SetProc(s, i, s.procs[i].Join(status).1), i).1
    else s
  }

  function Unregister(notify: map<nat, seq<nat>>, p: nat): map<nat, seq<nat>> {
    map v | v in notify :: Without(notify[v], p)
  }

  function Remove(s: Sys, p: nat, status: nat): (Outcome, Sys)
    requires p in s.procs
  {
    var s1 := s.(idle := if s.idle == Some(p) then None else s.idle,
                 current := if s.current == Some(p) then None else s.current);
    var s2 := JoinFrom(s1, p, status, 0);
    Erase(s2, p)
  }

  /** The second half of remove: takes the process out of the table and out of every list. */
  function Erase(s: Sys, p: nat): (Outcome, Sys)
    requires p in s.procs
  {
    var ready := s.procs[p].state == Ready;
    var s1 := s.(notify := Unregister(s.notify, p), procs := s.procs - {p});
    var (o, s2) := if ready then DequeueProcess(s1, p, ready, true) else (Done, s1);
    if o != Done then (Fatal, s2) else (Done, s2.(sleepq := Without(s2.sleepq, p)))
  }

  /** One turn of the sleep queue loop of ProcessManager::schedule. */
  function TimerTurn(s: Sys, now: nat): (r: Sys)
    requires s.sleepq != [] && s.sleepq[0] in s.procs
    ensures r.procs.Keys == s.procs.Keys
  {
    var p := s.sleepq[0];
    var s1 := s.(sleepq := s.sleepq[1..]);
    if IsExpired(s.procs[p].sleepTimer, now) then Wakeup(s1, p).1
    else s1.(sleepq := Push(s1.sleepq, p))
  }

  /** The whole loop: `n` turns. A queue that runs dry early ends it. */
  function TimerLoop(s: Sys, now: nat, n: nat): (r: Sys)
    ensures r.procs.Keys == s.procs.Keys
    decreases n
  {
    if n == 0 || s.sleepq == [] || s.sleepq[0] !in s.procs then s
    else TimerLoop(TimerTurn(s, now), now, n - 1)
  }

  function Schedule(s: Sys, now: nat): (Outcome, Sys) {
    var chosen := if s.queue != [] then Some(s.queue[0]) else s.idle;
    if chosen.None? then (Fatal, s)
    else
      var s1 := TimerLoop(s.(queue := Rotate(s.queue)), now, |s.sleepq|);
      (Done, s1.(current := chosen))
  }

  function SetIdle(s: Sys, p: nat): (Outcome, Sys)
    requires p in s.procs
  {
    var (o, s1) := DequeueProcess(s, p, s.procs[p].state == Ready, true);
    if o != Done then (Fatal, s1) else (Done, s1.(idle := Some(p)))
  }

  function Register(s: Sys, p: nat, vec: nat): (Outcome, Sys) {
    var lst := if vec in s.notify then s.notify[vec] else [];
    if p in lst then (AlreadyExists, s)
    else (Done, s.(notify := s.notify[vec := lst + [p]]))
  }

  /** Raises an event on each process of `lst` that is in the table, in order. */
  function RaiseAll(s: Sys, lst: seq<nat>): (r: Sys)
    ensures r.procs.Keys == s.procs.Keys
    decreases |lst|
  {
    if lst == [] then s
    else if lst[0] in s.procs then RaiseAll(Wakeup(s, lst[0]).1, lst[1..])
    else RaiseAll(s, lst[1..])
  }

  // --------------------------------------------------------------- invariant

  /** The run queue is exactly the live Ready processes other than idle, once each. */
  ghost predicate QueueInv(s: Sys) {
    && NoDuplicates(s.queue)
    && forall p :: p in s.queue <==> p in s.procs && s.procs[p].state == Ready && s.idle != Some(p)
  }

  /** The sleep queue holds live processes that sleep or were stopped asleep, once each. */
  ghost predicate SleepInv(s: Sys) {
    && NoDuplicates(s.sleepq)
    && forall p :: p in s.sleepq ==>
         p in s.procs && (s.procs[p].state == Sleeping || s.procs[p].state == Stopped)
  }

  /** Every waiter waits for a live process. */
  ghost predicate WaitInv(s: Sys) {
    forall p :: p in s.procs && s.procs[p].state == Waiting ==> s.procs[p].waitId in s.procs
  }

  /** Nothing refers to a process that is not in the table. */
  ghost predicate RefInv(s: Sys) {
    && (forall p :: p in s.procs ==> p < MAX_PROCS)
    && (s.current.Some? ==> s.current.value in s.procs)
    && (s.idle.Some? ==> s.idle.value in s.procs && s.procs[s.idle.value].state == Ready)
    && (forall v, p :: v in s.notify && p in s.notify[v] ==> p in s.procs)
    && (forall v :: v in s.notify ==> NoDuplicates(s.notify[v]))
  }

  ghost predicate Inv(s: Sys) {
    QueueInv(s) && SleepInv(s) && WaitInv(s) && RefInv(s)
  }
}
