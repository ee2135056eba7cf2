/**
 How long a Ready process waits for its turn. Taking a process off the run queue
 rotates the rest, so that a call can move a Ready process back.
 */
module Fairness {
  import opened Basics
  import opened ProcessModel
  import opened KernelSpec
  import opened KernelProofs
  import opened ProcessCtl

  // -------------------------------------------------------- what a call does

  /** The process that the call takes off the run queue. */
  function Leaves(s: Sys, call: Call): Option<nat>
    requires s.current.Some? && s.current.value in s.procs
  {
    match call
    case KillPID(target, _, _, _) => IfJoined(s, Resolve(s, target))
    case StopCall(target, _) => IfReady(s, Resolve(s, target))
    case WaitPID(target, _) => if Resolve(s, target).Some? then s.current else None
    case WaitTimer(_, _) => s.current
    case EnterSleep(_, _) => if s.procs[s.current.value].wakeups == 0 then s.current else None
    case _ => None
  }

  function IfReady(s: Sys, p: Option<nat>): Option<nat> {
    if p.Some? && p.value in s.procs && s.procs[p.value].state == Ready then p else None
  }

  /** A killed process is in the run queue after the join loop: it was Ready, or it waited for itself. */
  function IfJoined(s: Sys, p: Option<nat>): Option<nat> {
    if p.Some? && p.value in s.procs && (s.procs[p.value].state == Ready || WaitsOn(s.procs, p.value, p.value)) then p else None
  }

  /** Whether the call ends in a scheduling pass. */
  predicate Schedules(s: Sys, call: Call)
    requires s.current.Some? && s.current.value in s.procs
  {
    match call
    case ScheduleCall(_) => true
    case KillPID(target, _, _, _) => target.Self?
    case StopCall(target, _) => target.Self?
    case WaitPID(target, _) => Resolve(s, target).Some?
    case WaitTimer(_, _) => true
    case EnterSleep(_, _) => s.procs[s.current.value].wakeups == 0
    case _ => false
  }

  /** The run queue when that process is taken off: a killed process has its waiters queued first. */
  function Line(s: Sys, call: Call): seq<nat>
    requires s.current.Some? && s.current.value in s.procs
  {
    if call.KillPID? && Leaves(s, call).Some? then s.queue + Waiters(s.procs, Leaves(s, call).value, 0) else s.queue
  }

  /** The run queue behind that, before anything is added. */
  function Mid(s: Sys, call: Call): seq<nat>
    requires s.current.Some? && s.current.value in s.procs
  {
    var x := Leaves(s, call);
    if x.Some? && x.value in Line(s, call) then Dequeue(Line(s, call), x.value).value else Line(s, call)
  }

  /**
   What the call adds behind: a process that it makes Ready, the waiters of a killed one that
   is not queued itself, the sleepers that get an event.
   */
  function Added(s: Sys, call: Call): seq<nat>
    requires s.current.Some? && s.current.value in s.procs
  {
    match call
    case ResumeCall(target) => IfState(s, Resolve(s, target), Stopped)
    case WakeupCall(target) => IfState(s, Resolve(s, target), Sleeping)
    case Interrupt(vec) => if vec in s.notify then Asleep(s.procs, s.notify[vec]) else []
    case KillPID(target, _, peers, _) =>
      var p := Resolve(s, target);
      if p.None? then []
      else (if Leaves(s, call).None? then Waiters(s.procs, p.value, 0) else []) + Asleep(s.procs - {p.value}, peers)
    case _ => []
  }

  function IfState(s: Sys, p: Option<nat>, state: State): seq<nat> {
    if p.Some? && p.value in s.procs && s.procs[p.value].state == state then [p.value] else []
  }

  /** The peers of a killed process are listed once each, as the teardown of the shares collects them. */
  predicate OncePerPeer(call: Call) {
    call.KillPID? ==> NoDuplicates(call.peers)
  }

  lemma {:induction false} SleepersSame(a: map<nat, Proc>, b: map<nat, Proc>, lst: seq<nat>)
    requires a.Keys == b.Keys && forall p :: p in a ==> (a[p].state == Sleeping <==> b[p].state == Sleeping)
    ensures Asleep(a, lst) == Asleep(b, lst)
    decreases |lst|
  {
    if lst != [] {
      SleepersSame(a, b, lst[1..]);
    }
  }

  lemma ReadyInQueue(s: Sys, p: nat)
    requires Inv(s) && p in s.procs && s.procs[p].state == Ready && s.idle != Some(p)
    ensures p in s.queue && NoDuplicates(s.queue) && Dequeue(s.queue, p).Some?
  {
    DequeueMembers(s.queue, p);
  }

  lemma StopQueue(s: Sys, p: nat)
    requires Inv(s) && p in s.procs && s.idle != Some(p)
    ensures Stop(s, p).1.queue == if s.procs[p].state == Ready then Dequeue(s.queue, p).value else s.queue
    ensures s.procs[p].state == Ready ==> p in s.queue && Dequeue(s.queue, p).Some?
  {
    hide Inv;
    if s.procs[p].state == Ready {
      ReadyInQueue(s, p);
    }
  }

  lemma BlockQueue(s: Sys, c: nat, p: nat, timer: Option<Timer>, ignoreWakeups: bool)
    requires Inv(s) && c in s.procs && s.idle != Some(c) && s.procs[c].state == Ready
    ensures c in s.queue && Dequeue(s.queue, c).Some?
    ensures Wait(s, c, p).1.queue == Dequeue(s.queue, c).value
    ensures s.procs[c].wakeups == 0 || ignoreWakeups ==>
      Sleep(s, c, timer, ignoreWakeups).1.queue == Dequeue(s.queue, c).value
  {
    hide Inv;
    ReadyInQueue(s, c);
  }

  /** The state after the join loop of remove. */
  ghost function Joined(s: Sys, p: nat, status: nat): Sys {
    JoinFrom(s.(current := if s.current == Some(p) then None else s.current), p, status, 0)
  }

  lemma JoinedIs(s: Sys, p: nat, status: nat)
    requires Inv(s) && p in s.procs && s.idle != Some(p)
    ensures
      var t := Joined(s, p, status);
      && Inv(t) && p in t.procs && t.idle == s.idle && Remove(s, p, status) == Erase(t, p)
      && t.queue == s.queue + Waiters(s.procs, p, 0)
      && (t.procs[p].state == Ready <==> IfJoined(s, Some(p)).Some?)
  {
    hide Inv, JoinFrom, Waiters, Erase;
    var current := if s.current == Some(p) then None else s.current;
    CurrentKnown(s);
    WithCurrent(s, current);
    var s1 := s.(current := current);
    assert s.(idle := s.idle, current := current) == s1;
    JoinFromEffect(s1, p, status);
  }

  lemma CurrentKnown(s: Sys)
    requires Inv(s)
    ensures s.current.Some? ==> s.current.value in s.procs
  {
  }

  lemma ErasedLine(t: Sys, p: nat)
    requires Inv(t) && p in t.procs && t.idle != Some(p)
    ensures t.procs[p].state == Ready ==> p in t.queue && Dequeue(t.queue, p).Some?
    ensures Erase(t, p).1.queue == if t.procs[p].state == Ready then Dequeue(t.queue, p).value else t.queue
    ensures NoDuplicates(t.queue)
  {
    hide Inv, Unregister, Without, Dequeue;
    QueueOnce(t);
    if t.procs[p].state == Ready {
      ReadyInQueue(t, p);
    }
  }

  lemma QueueOnce(s: Sys)
    requires Inv(s)
    ensures NoDuplicates(s.queue)
  {
  }

  lemma RemoveQueue(s: Sys, p: nat, status: nat)
    requires Inv(s) && p in s.procs && s.idle != Some(p)
    ensures
      var line := s.queue + Waiters(s.procs, p, 0);
      var leaves := IfJoined(s, Some(p)).Some?;
      && NoDuplicates(line) && (leaves ==> p in line && Dequeue(line, p).Some?)
      && Remove(s, p, status).1.queue == if leaves then Dequeue(line, p).value else line
  {
    hide Inv, Joined, Waiters, Erase, Dequeue, IfJoined, Remove;
    JoinedIs(s, p, status);
    ErasedLine(Joined(s, p, status), p);
  }

  // ----------------------------------------------------- the queue after a call

  /** A scheduling pass: the head runs and goes to the tail; what wakes up comes behind. */
  lemma PassQueue(s: Sys, now: nat)
    requires Inv(s) && s.idle.Some?
    ensures
      var t := ThenSchedule(s, now).1;
      Rotate(s.queue) <= t.queue && (s.queue != [] ==> t.current == Some(s.queue[0]))
  {
    hide Inv, Schedule, Rotate, Due, Unexpired;
    ScheduleInv(s, now);
  }

  /** `t` follows from the run queue `m`: unchanged, or after one scheduling pass. */
  ghost predicate Follows(s: Sys, call: Call, m: seq<nat>, t: Sys)
    requires s.current.Some? && s.current.value in s.procs
  {
    if Schedules(s, call) then Rotate(m) <= t.queue && (m != [] ==> t.current == Some(m[0]))
    else t.queue == m && t.current == s.current
  }

  lemma PeersQueued(s: Sys, p: nat, status: nat, peers: seq<nat>)
    requires Inv(s) && p in s.procs && s.idle != Some(p) && NoDuplicates(peers)
    ensures
      var t := Remove(s, p, status).1;
      RaiseAll(t, peers).queue == t.queue + Asleep(s.procs - {p}, peers)
  {
    hide Inv, Remove, RaiseAll, Asleep, Forgotten, Unregister, Without;
    RemoveInv(s, p, status);
    var t := Remove(s, p, status).1;
    NotifyEffect(t, peers);
    SleepersSame(t.procs, s.procs - {p}, peers);
  }

  lemma KillQueue(s: Sys, call: Call) returns (m: seq<nat>)
    requires Running(s) && Polite(s, call) && call.KillPID?
    ensures Mid(s, call) <= m && Follows(s, call, m, Handle(s, call).1)
    ensures OncePerPeer(call) ==> m == Mid(s, call) + Added(s, call)
  {
    hide Inv, Remove, RaiseAll, ThenSchedule, Dequeue, Waiters, Asleep, Forgotten, Unregister, Without;
    CurrentLives(s);
    var target := Resolve(s, call.target);
    m := s.queue;
    if target.Some? {
      var p := target.value;
      RemoveInv(s, p, call.status);
      RemoveQueue(s, p, call.status);
      var t := Remove(s, p, call.status).1;
      RaiseAllInv(t, call.peers);
      var u := RaiseAll(t, call.peers);
      m := u.queue;
      assert s.queue <= s.queue + Waiters(s.procs, p, 0);
      if NoDuplicates(call.peers) {
        PeersQueued(s, p, call.status, call.peers);
      }
      if call.target.Self? {
        PassQueue(u, call.now);
      }
    }
  }

  lemma StopQueueAfter(s: Sys, call: Call) returns (m: seq<nat>)
    requires Running(s) && Polite(s, call) && call.StopCall?
    ensures Mid(s, call) <= m && Follows(s, call, m, Handle(s, call).1)
    ensures OncePerPeer(call) ==> m == Mid(s, call) + Added(s, call)
  {
    hide Inv, Stop, ThenSchedule, Dequeue;
    CurrentLives(s);
    var target := Resolve(s, call.target);
    m := s.queue;
    if target.Some? {
      var p := target.value;
      StopInv(s, p);
      StopQueue(s, p);
      var t := Stop(s, p).1;
      m := t.queue;
      if call.target.Self? {
        PassQueue(t, call.now);
      }
    }
  }

  lemma BlockQueueAfter(s: Sys, call: Call) returns (m: seq<nat>)
    requires Running(s) && Polite(s, call) && (call.WaitPID? || call.WaitTimer? || call.EnterSleep?)
    ensures Mid(s, call) <= m && Follows(s, call, m, Handle(s, call).1)
    ensures OncePerPeer(call) ==> m == Mid(s, call) + Added(s, call)
  {
    hide Inv, Wait, Sleep, ThenSchedule, Dequeue;
    CurrentLives(s);
    var c := s.current.value;
    m := s.queue;
    match call
    case WaitPID(target, now) =>
      if Resolve(s, target).Some? {
        var p := Resolve(s, target).value;
        WaitOpInv(s, c, p);
        BlockQueue(s, c, p, None, true);
        m := Wait(s, c, p).1.queue;
        PassQueue(Wait(s, c, p).1, now);
      }
    case WaitTimer(timer, now) =>
      SleepOpInv(s, c, timer, true);
      BlockQueue(s, c, c, timer, true);
      m := Sleep(s, c, timer, true).1.queue;
      PassQueue(Sleep(s, c, timer, true).1, now);
    case EnterSleep(timer, now) =>
      SleepOpInv(s, c, timer, false);
      if s.procs[c].wakeups == 0 {
        BlockQueue(s, c, c, timer, false);
        m := Sleep(s, c, timer, false).1.queue;
        PassQueue(Sleep(s, c, timer, false).1, now);
      }
  }

  lemma ResumeQueue(s: Sys, p: nat)
    requires Inv(s) && p in s.procs
    ensures s.queue <= Resume(s, p).1.queue
  {
  }

  lemma OtherQueueAfter(s: Sys, call: Call) returns (m: seq<nat>)
    requires Running(s) && Polite(s, call)
    requires !call.KillPID? && !call.StopCall? && !call.WaitPID? && !call.WaitTimer? && !call.EnterSleep?
    ensures Mid(s, call) <= m && Follows(s, call, m, Handle(s, call).1)
    ensures OncePerPeer(call) ==> m == Mid(s, call) + Added(s, call)
  {
    hide Inv, Create, Resume, Wakeup, Register, RaiseAll, ThenSchedule, Asleep;
    CurrentLives(s);
    m := Handle(s, call).1.queue;
    match call
    case Spawn =>
      CreateInv(s, false);
      var (r, t) := Create(s, false);
      assert t.queue == s.queue && t.current == s.current;
    case ScheduleCall(now) =>
      m := s.queue;
      PassQueue(s, now);
    case ResumeCall(target) =>
      if Resolve(s, target).Some? {
        ResumeInv(s, Resolve(s, target).value);
        ResumeQueue(s, Resolve(s, target).value);
      }
    case WakeupCall(target) =>
      if Resolve(s, target).Some? { WakeupInv(s, Resolve(s, target).value); }
    case WatchIRQ(target, vec) =>
      if Resolve(s, target).Some? { RegisterInv(s, Resolve(s, target).value, vec); }
    case Interrupt(vec) =>
      if vec in s.notify {
        RaiseAllInv(s, s.notify[vec]);
        NotifyOnce(s, vec);
        NotifyEffect(s, s.notify[vec]);
      }
  }

  /**
   The run queue after a call, in the order of what happens: what is left when the call takes
   a process off, then what it adds, then a scheduling pass if the call makes one.
   */
  lemma QueueAfter(s: Sys, call: Call) returns (m: seq<nat>)
    requires Running(s) && Polite(s, call)
    ensures Mid(s, call) <= m && Follows(s, call, m, Handle(s, call).1)
    ensures OncePerPeer(call) ==> m == Mid(s, call) + Added(s, call)
  {
    hide Inv, HitsIdle, Mid, Follows, Handle, Added;
    match call
    case KillPID(_, _, _, _) => m := KillQueue(s, call);
    case StopCall(_, _) => m := StopQueueAfter(s, call);
    case WaitPID(_, _) => m := BlockQueueAfter(s, call);
    case WaitTimer(_, _) => m := BlockQueueAfter(s, call);
    case EnterSleep(_, _) => m := BlockQueueAfter(s, call);
    case _ => m := OtherQueueAfter(s, call);
  }

  // -------------------------------------------------------------- places

  /** Taking `x` off the queue brings `p` forward when `p` was behind it, and else puts all behind `x` in front of `p`. */
  lemma PlaceDequeue(q: seq<nat>, x: nat, p: nat)
    requires NoDuplicates(q) && x in q && p in q && x != p
    ensures
      var i, at, r := IndexOf(q, p), IndexOf(q, x), Dequeue(q, x).value;
      p in r && IndexOf(r, p) == if i < at then i + (|q| - 1 - at) else i - at - 1
  {
    var i, at := IndexOf(q, p), IndexOf(q, x);
    var r := q[at + 1..] + q[..at];
    DequeueMembers(q, x);
    var k := if i < at then i + (|q| - 1 - at) else i - at - 1;
    assert r[k] == p;
    PlaceUnique(r, p, k);
  }

  lemma PlaceUnique(q: seq<nat>, p: nat, k: nat)
    requires NoDuplicates(q) && k < |q| && q[k] == p
    ensures p in q && IndexOf(q, p) == k
  {
  }

  /** Entries added behind do not change a place. */
  lemma {:induction false} PlacePrefix(q: seq<nat>, r: seq<nat>, p: nat)
    requires q <= r && p in q
    ensures p in r && IndexOf(r, p) == IndexOf(q, p)
  {
    assert r[0] == q[0];
    if q[0] != p {
      assert q[1..] <= r[1..];
      PlacePrefix(q[1..], r[1..], p);
    }
  }

  /**
   The call moves `p` back: it takes a process off the run queue that stands behind
   `p` and is not the last one.
   */
  ghost predicate MovesBack(s: Sys, call: Call, p: nat)
    requires s.current.Some? && s.current.value in s.procs && p in s.queue
  {
    var x, line := Leaves(s, call), Line(s, call);
    x.Some? && x.value in line && IndexOf(s.queue, p) < IndexOf(line, x.value) < |line| - 1
  }

  lemma LineFacts(s: Sys, call: Call)
    requires Running(s) && Polite(s, call)
    ensures NoDuplicates(Line(s, call)) && s.queue <= Line(s, call)
    ensures Leaves(s, call).Some? ==> Leaves(s, call).value in Line(s, call)
  {
    hide Inv, Waiters, Dequeue;
    CurrentLives(s);
    QueueOnce(s);
    var x := Leaves(s, call);
    if x.Some? {
      if call.KillPID? {
        RemoveQueue(s, x.value, 0);
      } else {
        ReadyInQueue(s, x.value);
      }
    }
  }

  /** The place of a process that stays, behind the removal. */
  lemma MidPlace(s: Sys, call: Call, p: nat)
    requires Running(s) && Polite(s, call) && p in s.queue && Leaves(s, call) != Some(p)
    ensures p in Mid(s, call)
    ensures MovesBack(s, call, p) <==> IndexOf(Mid(s, call), p) > IndexOf(s.queue, p)
  {
    hide Inv, HitsIdle, Leaves, Line, IndexOf, Dequeue;
    LineFacts(s, call);
    var line := Line(s, call);
    PlacePrefix(s.queue, line, p);
    var x := Leaves(s, call);
    if x.Some? {
      PlaceDequeue(line, x.value, p);
    }
  }

  /** A call without a scheduling pass moves a process back exactly when it takes one off that stands behind it and is not the last. */
  lemma MovedBackExactly(s: Sys, call: Call, p: nat)
    requires Running(s) && Polite(s, call) && !Schedules(s, call)
    requires p in s.queue && Leaves(s, call) != Some(p)
    ensures
      var t := Handle(s, call).1;
      p in t.queue && (IndexOf(t.queue, p) > IndexOf(s.queue, p) <==> MovesBack(s, call, p))
  {
    hide Inv, HitsIdle, Leaves, Mid, MovesBack, IndexOf, Handle;
    var m := QueueAfter(s, call);
    MidPlace(s, call, p);
    PlacePrefix(Mid(s, call), m, p);
  }

  /** Otherwise the process keeps its place or comes forward, and a scheduling pass brings it forward or makes it run. */
  lemma Advances(s: Sys, call: Call, p: nat)
    requires Running(s) && Polite(s, call)
    requires p in s.queue && Leaves(s, call) != Some(p) && !MovesBack(s, call, p)
    ensures
      var t := Handle(s, call).1;
      || (Schedules(s, call) && t.current == Some(p))
      || (p in t.queue && IndexOf(t.queue, p) + (if Schedules(s, call) then 1 else 0) <= IndexOf(s.queue, p))
  {
    hide Inv, HitsIdle, Leaves, Mid, MovesBack, Handle;
    var m := QueueAfter(s, call);
    MidPlace(s, call, p);
    PlacePrefix(Mid(s, call), m, p);
    if Schedules(s, call) && m[0] != p {
      assert m[1..] <= Rotate(m);
      PlacePrefix(m[1..], Handle(s, call).1.queue, p);
    }
  }

  // ------------------------------------------------------------------ whole runs

  /** No call of the run takes `p` off the run queue or moves it back while it waits for its turn. */
  ghost predicate Undisturbed(s: Sys, calls: seq<Call>, p: nat)
    requires Running(s) && PoliteRun(s, calls)
    decreases |calls|
  {
    if calls == [] || s.current == Some(p) || p !in s.queue then true
    else
      && Leaves(s, calls[0]) != Some(p) && !MovesBack(s, calls[0], p)
      && (HandleExact(s, calls[0]); Undisturbed(Handle(s, calls[0]).1, calls[1..], p))
  }

  /** The number of scheduling passes of the run. */
  ghost function Passes(s: Sys, calls: seq<Call>): nat
    requires Running(s) && PoliteRun(s, calls)
    decreases |calls|
  {
    if calls == [] then 0
    else
      HandleExact(s, calls[0]);
      (if Schedules(s, calls[0]) then 1 else 0) + Passes(Handle(s, calls[0]).1, calls[1..])
  }

  /** `p` is the current process at some point of the run. */
  ghost predicate GetsTurn(s: Sys, calls: seq<Call>, p: nat)
    requires Running(s) && PoliteRun(s, calls)
    decreases |calls|
  {
    s.current == Some(p) ||
    (calls != [] && (HandleExact(s, calls[0]); GetsTurn(Handle(s, calls[0]).1, calls[1..], p)))
  }

  /**
   Bounded waiting, over whole runs of all system calls: a Ready process at place k of
   the run queue gets its turn within k + 1 scheduling passes, as long as no call takes
   it off the queue or moves it back.
   */
  lemma {:induction false} BoundedWait(s: Sys, calls: seq<Call>, p: nat)
    requires Running(s) && PoliteRun(s, calls) && Undisturbed(s, calls, p)
    requires p in s.queue && Passes(s, calls) > IndexOf(s.queue, p)
    ensures GetsTurn(s, calls, p)
    decreases |calls|
  {
    hide Inv, HitsIdle, Leaves, MovesBack, Handle, IndexOf;
    if s.current != Some(p) {
      HandleExact(s, calls[0]);
      Advances(s, calls[0], p);
      var t := Handle(s, calls[0]).1;
      if t.current != Some(p) {
        BoundedWait(t, calls[1..], p);
      }
    }
  }

  // ------------------------------------------------------------------ starvation

  /** Stop and resume the process in the middle, then yield. */
  function Cycle(b: nat, now: nat): seq<Call> {
    [StopCall(Pid(b), now), ResumeCall(Pid(b)), ScheduleCall(now)]
  }

  function Cycles(b: nat, now: nat, n: nat): seq<Call> {
    if n == 0 then [] else Cycle(b, now) + Cycles(b, now, n - 1)
  }

  ghost predicate ThreeReady(s: Sys, a: nat, b: nat, c: nat) {
    Running(s) && s.queue == [a, b, c] && s.current == Some(c) && s.sleepq == []
  }

  lemma ThreeFacts(s: Sys, a: nat, b: nat, c: nat)
    requires ThreeReady(s, a, b, c)
    ensures a != b && b != c && a != c && c in s.procs
    ensures b in s.procs && s.procs[b].state == Ready && s.idle != Some(b)
    ensures Dequeue(s.queue, b) == Some([c, a])
  {
    var q := s.queue;
    assert q[0] != q[1] && q[1] != q[2] && q[0] != q[2];
    assert q[1] in q && q[2] in q;
    PlaceUnique(q, b, 1);
    assert q[2..] + q[..1] == [c, a];
  }

  lemma StopMiddle(s: Sys, a: nat, b: nat, c: nat, now: nat)
    requires ThreeReady(s, a, b, c)
    ensures Polite(s, StopCall(Pid(b), now)) && b in s.procs
    ensures Handle(s, StopCall(Pid(b), now)).1 ==
      s.(procs := s.procs[b := s.procs[b].(state := Stopped)], queue := [c, a])
  {
    hide Inv, Dequeue;
    ThreeFacts(s, a, b, c);
  }

  lemma ResumeMiddle(s: Sys, t: Sys, a: nat, b: nat, c: nat)
    requires ThreeReady(s, a, b, c) && b in s.procs
    requires t == s.(procs := s.procs[b := s.procs[b].(state := Stopped)], queue := [c, a])
    ensures c in t.procs && Polite(t, ResumeCall(Pid(b)))
    ensures Handle(t, ResumeCall(Pid(b))).1 == s.(queue := [c, a, b])
  {
    hide Inv;
    ThreeFacts(s, a, b, c);
    assert t.procs[b := s.procs[b]] == s.procs;
    assert [c, a] + [b] == [c, a, b];
  }

  lemma YieldBack(s: Sys, u: Sys, a: nat, b: nat, c: nat, now: nat)
    requires ThreeReady(s, a, b, c) && u == s.(queue := [c, a, b])
    ensures c in u.procs && Polite(u, ScheduleCall(now)) && Handle(u, ScheduleCall(now)).1 == s
  {
    hide Inv;
    ThreeFacts(s, a, b, c);
    assert [c, a, b][1..] + [c] == [a, b, c];
  }

  /** One call in front of a run. */
  lemma OneCall(s: Sys, calls: seq<Call>, t: Sys, p: nat)
    requires Running(s) && calls != [] && Polite(s, calls[0]) && t == Handle(s, calls[0]).1 && Running(t)
    requires PoliteRun(t, calls[1..])
    ensures PoliteRun(s, calls) && RunCalls(s, calls) == RunCalls(t, calls[1..])
    ensures Passes(s, calls) == (if Schedules(s, calls[0]) then 1 else 0) + Passes(t, calls[1..])
    ensures GetsTurn(s, calls, p) <==> s.current == Some(p) || GetsTurn(t, calls[1..], p)
  {
    hide Inv, Handle, HitsIdle;
    HandleExact(s, calls[0]);
  }

  /**
   From three Ready processes with the last one current, two of them can keep the third
   from ever running: c stops and resumes b and yields, which leads back to the same
   state. Every call is polite, and the first one moves a back.
   */
  lemma {:induction false} Starves(s: Sys, a: nat, b: nat, c: nat, now: nat, n: nat)
    requires ThreeReady(s, a, b, c)
    ensures PoliteRun(s, Cycles(b, now, n)) && RunCalls(s, Cycles(b, now, n)) == s
    ensures Passes(s, Cycles(b, now, n)) == n && !GetsTurn(s, Cycles(b, now, n), a)
  {
    hide Inv, Handle, HitsIdle, RunCalls, Passes, GetsTurn, PoliteRun;
    ThreeFacts(s, a, b, c);
    if n == 0 {
      NoCalls(s, a);
    } else {
      Starves(s, a, b, c, now, n - 1);
      var rest := Cycles(b, now, n - 1);
      var stop, resume, yield' := StopCall(Pid(b), now), ResumeCall(Pid(b)), ScheduleCall(now);
      StopMiddle(s, a, b, c, now);
      var t := Handle(s, stop).1;
      HandleExact(s, stop);
      ResumeMiddle(s, t, a, b, c);
      var u := Handle(t, resume).1;
      HandleExact(t, resume);
      YieldBack(s, u, a, b, c, now);
      assert ([yield'] + rest)[1..] == rest;
      OneCall(u, [yield'] + rest, s, a);
      assert ([resume, yield'] + rest)[1..] == [yield'] + rest;
      OneCall(t, [resume, yield'] + rest, u, a);
      assert (Cycle(b, now) + rest)[1..] == [resume, yield'] + rest;
      OneCall(s, Cycle(b, now) + rest, t, a);
    }
  }

  lemma NoCalls(s: Sys, p: nat)
    requires Running(s)
    ensures PoliteRun(s, []) && RunCalls(s, []) == s && Passes(s, []) == 0
    ensures GetsTurn(s, [], p) <==> s.current == Some(p)
  {
  }
}
