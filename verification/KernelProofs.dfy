/** Every operation of the process manager keeps the invariant; when it reports FATAL is characterised exactly. */
module KernelProofs {
  import opened Basics
  import opened ProcessModel
  import opened KernelSpec

  // ------------------------------------------------------------------ queues

  function Elements(q: seq<nat>): (r: set<nat>)
    ensures forall x :: x in r <==> x in q
  {
    if q == [] then {}
    else
      assert q == [q[0]] + q[1..];
      {q[0]} + Elements(q[1..])
  }

  lemma {:induction false} ElementCount(q: seq<nat>)
    requires NoDuplicates(q)
    ensures |Elements(q)| == |q|
  {
    if q != [] {
      ElementCount(q[1..]);
      assert q[0] !in q[1..];
    }
  }

  /** A queue of distinct process IDs that misses one has room for it. */
  lemma PushHasRoom(q: seq<nat>, p: nat)
    requires NoDuplicates(q) && (forall x :: x in q ==> x < MAX_PROCS)
    requires p < MAX_PROCS && p !in q
    ensures Push(q, p) == q + [p] && NoDuplicates(q + [p])
  {
    RoomBelow(q, p, MAX_PROCS);
  }

  lemma RoomBelow(q: seq<nat>, p: nat, n: nat)
    requires NoDuplicates(q) && (forall x :: x in q ==> x < n)
    requires p < n && p !in q
    ensures |q| < n
  {
    ElementCount(q);
    SubsetSize(Elements(q), Below(n) - {p});
  }

  /** Dequeue removes exactly `p` and keeps the others' cyclic order. */
  lemma DequeueMembers(q: seq<nat>, p: nat)
    requires NoDuplicates(q)
    ensures Dequeue(q, p).Some? <==> p in q
    ensures p in q ==>
      var r := Dequeue(q, p).value;
      && NoDuplicates(r)
      && |r| == |q| - 1
      && (forall x :: x in r <==> x in q && x != p)
  {
    if p in q {
      var i := IndexOf(q, p);
      var r := q[i + 1..] + q[..i];
      assert Dequeue(q, p) == Some(r);
      forall x ensures x in r <==> x in q && x != p {
        if x in q && x != p {
          var k :| 0 <= k < |q| && q[k] == x;
          if k < i { assert q[..i][k] == x; } else { assert q[i + 1..][k - i - 1] == x; }
        }
      }
      forall a, b | 0 <= a < b < |r| ensures r[a] != r[b] {
        var m := |q| - i - 1;
        var ka := if a < m then i + 1 + a else a - m;
        var kb := if b < m then i + 1 + b else b - m;
        assert r[a] == q[ka] && r[b] == q[kb] && ka != kb;
      }
    }
  }

  // ------------------------------------------------- the two ways a state changes

  /** A process that becomes Ready is queued and leaves the sleep queue; all else stays. */
  lemma MakeReady(s: Sys, p: nat, v: Proc)
    requires Inv(s) && p in s.procs && s.procs[p].state != Ready && v.state == Ready
    ensures
      var (o, t) := EnqueueProcess(SetProc(s, p, v), p);
      && o == Done && Inv(t)
      && t == s.(procs := s.procs[p := v], queue := s.queue + [p], sleepq := Without(s.sleepq, p))
  {
    PushHasRoom(s.queue, p);
    WithoutMembers(s.sleepq, p);
    var t := EnqueueProcess(SetProc(s, p, v), p).1;
    assert forall x :: x in t.queue <==> x in s.queue || x == p;
    assert t.procs.Keys == s.procs.Keys;
  }

  /** A queued process that stops being Ready is dequeued without FATAL. */
  lemma TakeOff(s: Sys, p: nat, v: Proc)
    requires Inv(s) && p in s.queue && v.state != Ready
    requires v.state == Waiting ==> v.waitId in s.procs
    ensures
      var (o, t) := DequeueProcess(SetProc(s, p, v), p, false, false);
      && o == Done && Inv(t)
      && t.procs == s.procs[p := v] && t == s.(procs := t.procs, queue := t.queue)
      && |t.queue| == |s.queue| - 1
  {
    DequeueMembers(s.queue, p);
    var t := DequeueProcess(SetProc(s, p, v), p, false, false).1;
    assert t.procs.Keys == s.procs.Keys;
    assert p !in s.sleepq;
  }

  /** A change of bookkeeping fields that leaves the state alone keeps the invariant. */
  lemma TouchInv(s: Sys, p: nat, v: Proc)
    requires Inv(s) && p in s.procs
    requires v.state == s.procs[p].state && v.waitId == s.procs[p].waitId
    ensures Inv(SetProc(s, p, v))
  {
    var t := SetProc(s, p, v);
    assert t.procs.Keys == s.procs.Keys;
  }

  // -------------------------------------------------------------- operations

  /** A free slot filled with a stopped process. */
  lemma AddStopped(s: Sys, p: nat, v: Proc)
    requires Inv(s) && p !in s.procs && p < MAX_PROCS && v.state == Stopped
    ensures Inv(SetProc(s, p, v))
  {
    var t := SetProc(s, p, v);
    assert forall q :: q in s.procs ==> t.procs[q] == s.procs[q];
    assert p !in s.queue;
  }

  /** A new process: the child of the current one, with nothing counted, awaited or set. */
  function Newborn(s: Sys, ready: bool): Proc {
    Proc(if ready then Ready else Stopped, if s.current.Some? then s.current.value else 0, 0, 0, 0, Timer(0, 0))
  }

  /** Who is not in the table is not in the sleep queue. */
  lemma NotAsleep(s: Sys, p: nat)
    requires Inv(s) && p !in s.procs
    ensures Without(s.sleepq, p) == s.sleepq
  {
    assert p !in s.sleepq;
    WithoutAbsent(s.sleepq, p);
  }

  lemma CreateInv(s: Sys, ready: bool)
    requires Inv(s)
    ensures
      var (r, t) := Create(s, ready);
      && Inv(t)
      && (r.None? <==> forall p :: 0 <= p < MAX_PROCS ==> p in s.procs)
      && (r.None? ==> t == s)
      && (r.Some? ==>
            && r.value < MAX_PROCS && r.value !in s.procs && (forall k :: 0 <= k < r.value ==> k in s.procs)
            && t.procs == s.procs[r.value := Newborn(s, ready)]
            && t.queue == (if ready then s.queue + [r.value] else s.queue)
            && t == s.(procs := t.procs, queue := t.queue))
  {
    hide Inv;
    var r := FirstFree(s.procs, 0);
    if r.Some? {
      CreateAt(s, ready, r.value);
    }
  }

  lemma CreateAt(s: Sys, ready: bool, p: nat)
    requires Inv(s) && FirstFree(s.procs, 0) == Some(p)
    ensures
      var t := Create(s, ready).1;
      && Inv(t)
      && t.procs == s.procs[p := Newborn(s, ready)]
      && t.queue == (if ready then s.queue + [p] else s.queue)
      && t == s.(procs := t.procs, queue := t.queue)
  {
    hide Inv, FirstFree, Push, Without;
    var s1 := SetProc(s, p, NewProc(0));
    AddStopped(s, p, NewProc(0));
    NotAsleep(s, p);
    if ready {
      MakeReady(s1, p, s1.procs[p].(state := Ready));
    }
    var s2 := if ready then Resume(s1, p).1 else s1;
    if s.current.Some? {
      TouchInv(s2, p, s2.procs[p].(parent := s.current.value));
    }
  }

  lemma ResumeInv(s: Sys, p: nat)
    requires Inv(s) && p in s.procs
    ensures
      var (o, t) := Resume(s, p);
      && Inv(t)
      && (o == Done <==> s.procs[p].state == Stopped)
      && (o == Done ==>
            t == s.(procs := s.procs[p := s.procs[p].(state := Ready)], queue := s.queue + [p], sleepq := Without(s.sleepq, p)))
      && (o != Done ==> o == IOError && t == s)
      && t.current == s.current && t.idle == s.idle
  {
    if s.procs[p].state == Stopped {
      MakeReady(s, p, s.procs[p].(state := Ready));
    }
  }

  /** Stopping reports FATAL exactly for the idle process; a Waiting process refuses. */
  lemma StopInv(s: Sys, p: nat)
    requires Inv(s) && p in s.procs
    ensures
      var (o, t) := Stop(s, p);
      && (o == Fatal <==> s.idle == Some(p))
      && (o == IOError <==> s.procs[p].state == Waiting)
      && (o == Done || o == IOError || o == Fatal)
      && (o != Fatal ==> Inv(t))
      && (o == Done ==>
            && t == s.(procs := s.procs[p := s.procs[p].(state := Stopped)], queue := t.queue)
            && (s.procs[p].state == Ready ==> Dequeue(s.queue, p) == Some(t.queue))
            && (s.procs[p].state != Ready ==> t.queue == s.queue))
      && (o == IOError ==> t == s)
      && t.current == s.current && t.idle == s.idle
  {
    var v := s.procs[p].(state := Stopped);
    if s.procs[p].state == Ready {
      if s.idle != Some(p) {
        TakeOff(s, p, v);
      }
    } else if s.procs[p].state != Waiting {
      var t := SetProc(s, p, v);
      assert t.procs.Keys == s.procs.Keys;
      assert Inv(t);
    }
  }

  lemma WaitOpInv(s: Sys, c: nat, p: nat)
    requires Inv(s) && c in s.procs && p in s.procs && s.procs[c].state == Ready
    ensures
      var (o, t) := Wait(s, c, p);
      && (o == Fatal <==> s.idle == Some(c))
      && (o != Fatal ==>
            && o == Done && Inv(t) && Dequeue(s.queue, c) == Some(t.queue)
            && t == s.(procs := s.procs[c := s.procs[c].(state := Waiting, waitId := p)], queue := t.queue))
      && t.current == s.current && t.idle == s.idle
  {
    if s.idle != Some(c) {
      TakeOff(s, c, s.procs[c].(state := Waiting, waitId := p));
    }
  }

  /** Sleeping never finds the caller already in the sleep queue, and is FATAL exactly for the idle process. */
  lemma SleepOpInv(s: Sys, c: nat, timer: Option<Timer>, ignoreWakeups: bool)
    requires Inv(s) && c in s.procs && s.procs[c].state == Ready
    ensures c !in s.sleepq
    ensures
      var (o, t) := Sleep(s, c, timer, ignoreWakeups);
      && (o == Pending <==> s.procs[c].wakeups > 0 && !ignoreWakeups)
      && (o == Fatal <==> o != Pending && s.idle == Some(c))
      && (o != Fatal ==> Inv(t) && (o == Done || o == Pending))
      && (o == Pending ==> t == SetProc(s, c, s.procs[c].(wakeups := 0)))
      && (o == Done ==>
            && t.procs == s.procs[c := s.procs[c].(state := Sleeping,
                                                   sleepTimer := if timer.Some? then timer.value else s.procs[c].sleepTimer)]
            && t.sleepq == (if timer.Some? then s.sleepq + [c] else s.sleepq)
            && Dequeue(s.queue, c) == Some(t.queue)
            && t == s.(procs := t.procs, queue := t.queue, sleepq := t.sleepq))
      && t.current == s.current && t.idle == s.idle
  {
    var (r, v) := s.procs[c].Sleep(timer, ignoreWakeups);
    if r == WakeupPending {
      TouchInv(s, c, v);
    } else if s.idle != Some(c) {
      TakeOff(s, c, v);
      PushHasRoom(s.sleepq, c);
      var t := Sleep(s, c, timer, ignoreWakeups).1;
      assert t.procs.Keys == s.procs.Keys;
    }
  }

  lemma WakeupInv(s: Sys, p: nat)
    requires Inv(s) && p in s.procs
    ensures
      var (o, t) := Wakeup(s, p);
      && o == Done && Inv(t)
      && t.procs == s.procs[p := s.procs[p].Wakeup().1]
      && t.procs[p] == (if s.procs[p].state == Sleeping
                        then s.procs[p].(state := Ready, wakeups := s.procs[p].wakeups + 1, sleepTimer := Timer(0, 0))
                        else s.procs[p].(wakeups := s.procs[p].wakeups + 1))
      && t.queue == (if s.procs[p].state == Sleeping then s.queue + [p] else s.queue)
      && t.sleepq == (if s.procs[p].state == Sleeping then Without(s.sleepq, p) else s.sleepq)
      && t == s.(procs := t.procs, queue := t.queue, sleepq := t.sleepq)
  {
    var v := s.procs[p].Wakeup().1;
    if s.procs[p].state == Sleeping {
      MakeReady(s, p, v);
    } else {
      TouchInv(s, p, v);
    }
  }

  lemma {:induction false} RaiseAllInv(s: Sys, lst: seq<nat>)
    requires Inv(s)
    ensures
      var t := RaiseAll(s, lst);
      && Inv(t)
      && t.current == s.current && t.idle == s.idle && t.notify == s.notify
      && s.queue <= t.queue
      && (forall p :: p in s.procs && s.procs[p].state != Sleeping ==>
            t.procs[p] == s.procs[p].(wakeups := t.procs[p].wakeups))
    decreases |lst|
  {
    hide Inv, Wakeup, RaiseAll;
    RaiseStep(s, lst);
    if lst != [] {
      if lst[0] in s.procs {
        WakeupInv(s, lst[0]);
        RaiseAllInv(Wakeup(s, lst[0]).1, lst[1..]);
      } else {
        RaiseAllInv(s, lst[1..]);
      }
    }
  }

  /** The sleeping processes of a list, in its order. */
  function Asleep(procs: map<nat, Proc>, lst: seq<nat>): seq<nat> {
    if lst == [] then []
    else (if lst[0] in procs && procs[lst[0]].state == Sleeping then [lst[0]] else []) + Asleep(procs, lst[1..])
  }

  lemma {:induction false} AsleepSame(a: map<nat, Proc>, b: map<nat, Proc>, lst: seq<nat>)
    requires a.Keys == b.Keys && forall p :: p in lst && p in a ==> a[p] == b[p]
    ensures Asleep(a, lst) == Asleep(b, lst)
    decreases |lst|
  {
    if lst != [] {
      AsleepSame(a, b, lst[1..]);
    }
  }

  /** One event: its effect on the three parts that an interrupt touches. */
  lemma WakeOne(s: Sys, p: nat)
    requires Inv(s) && p in s.procs
    ensures
      var m := Wakeup(s, p).1;
      && Inv(m) && m.procs == s.procs[p := m.procs[p]]
      && m.procs[p] == (if s.procs[p].state == Sleeping
                        then s.procs[p].(state := Ready, wakeups := s.procs[p].wakeups + 1, sleepTimer := Timer(0, 0))
                        else s.procs[p].(wakeups := s.procs[p].wakeups + 1))
      && m.queue == (if s.procs[p].state == Sleeping then s.queue + [p] else s.queue)
      && forall x :: x in m.sleepq <==> x in s.sleepq && !(x == p && s.procs[p].state == Sleeping)
  {
    hide Inv;
    WakeupInv(s, p);
    WithoutMembers(s.sleepq, p);
  }

  lemma RaiseStep(s: Sys, lst: seq<nat>)
    ensures RaiseAll(s, lst) ==
      if lst == [] then s
      else if lst[0] in s.procs then RaiseAll(Wakeup(s, lst[0]).1, lst[1..])
      else RaiseAll(s, lst[1..])
  {
  }

  lemma NotifyOnce(s: Sys, vec: nat)
    requires Inv(s) && vec in s.notify
    ensures NoDuplicates(s.notify[vec])
  {
  }

  /**
   An interrupt counts one wakeup for every process of its notify list, makes the
   sleepers among them Ready and queues them in the order of the list.
   */
  lemma {:induction false} NotifyEffect(s: Sys, lst: seq<nat>)
    requires Inv(s) && NoDuplicates(lst)
    ensures
      var t := RaiseAll(s, lst);
      && t.queue == s.queue + Asleep(s.procs, lst)
      && (forall p :: p in s.procs ==>
            t.procs[p] ==
              if p !in lst then s.procs[p]
              else if s.procs[p].state == Sleeping
              then s.procs[p].(state := Ready, wakeups := s.procs[p].wakeups + 1, sleepTimer := Timer(0, 0))
              else s.procs[p].(wakeups := s.procs[p].wakeups + 1))
      && (forall p :: p in t.sleepq <==> p in s.sleepq && p !in Asleep(s.procs, lst))
    decreases |lst|
  {
    hide Inv, Wakeup, RaiseAll, Proc.Wakeup;
    RaiseStep(s, lst);
    if lst != [] {
      var p, rest := lst[0], lst[1..];
      assert p !in rest && NoDuplicates(rest);
      assert forall x :: x in lst <==> x == p || x in rest;
      if p in s.procs {
        WakeOne(s, p);
        var m := Wakeup(s, p).1;
        NotifyEffect(m, rest);
        AsleepSame(s.procs, m.procs, rest);
      } else {
        NotifyEffect(s, rest);
      }
    }
  }

  lemma RegisterInv(s: Sys, p: nat, vec: nat)
    requires Inv(s) && p in s.procs
    ensures
      var (o, t) := Register(s, p, vec);
      && Inv(t)
      && (o == AlreadyExists <==> vec in s.notify && p in s.notify[vec])
      && (o == AlreadyExists || o == Done)
      && (o == AlreadyExists ==> t == s)
      && (o == Done ==>
            t == s.(notify := s.notify[vec := (if vec in s.notify then s.notify[vec] else []) + [p]]))
  {
    var lst := if vec in s.notify then s.notify[vec] else [];
    if p !in lst {
      assert NoDuplicates(lst + [p]);
    }
  }

  lemma WithCurrent(s: Sys, c: Option<nat>)
    requires Inv(s) && (c.Some? ==> c.value in s.procs)
    ensures Inv(s.(current := c))
  {
  }

  lemma DropSleeper(s: Sys)
    requires Inv(s) && s.sleepq != []
    ensures Inv(s.(sleepq := s.sleepq[1..])) && s.sleepq[0] in s.procs
  {
  }

  lemma RotatedInv(s: Sys)
    requires Inv(s)
    ensures Inv(s.(queue := Rotate(s.queue)))
  {
    var q := Rotate(s.queue);
    if s.queue != [] {
      assert s.queue == [s.queue[0]] + s.queue[1..];
    }
    assert forall p :: p in q <==> p in s.queue;
    assert NoDuplicates(q);
  }

  // ------------------------------------------------------------------ remove

  predicate WaitsOn(procs: map<nat, Proc>, q: nat, p: nat) {
    q in procs && procs[q].state == Waiting && procs[q].waitId == p
  }

  /** The waiters on `p` with ID at or above `i`, in table order. */
  function Waiters(procs: map<nat, Proc>, p: nat, i: nat): seq<nat>
    decreases MAX_PROCS - i
  {
    if i >= MAX_PROCS then []
    else (if WaitsOn(procs, i, p) then [i] else []) + Waiters(procs, p, i + 1)
  }

  lemma {:induction false} WaitersSame(a: map<nat, Proc>, b: map<nat, Proc>, p: nat, i: nat)
    requires forall q: nat :: q >= i ==> (WaitsOn(a, q, p) <==> WaitsOn(b, q, p))
    ensures Waiters(a, p, i) == Waiters(b, p, i)
    decreases MAX_PROCS - i
  {
    if i < MAX_PROCS {
      WaitersSame(a, b, p, i + 1);
    }
  }

  /** A waiting process is not in the sleep queue. */
  lemma WaiterNotAsleep(s: Sys, i: nat)
    requires Inv(s) && i in s.procs && s.procs[i].state == Waiting
    ensures Without(s.sleepq, i) == s.sleepq
  {
    assert i !in s.sleepq;
    WithoutAbsent(s.sleepq, i);
  }

  lemma JoinOneEffect(s: Sys, p: nat, status: nat, i: nat)
    requires Inv(s) && p in s.procs
    requires forall q: nat :: q < i ==> !WaitsOn(s.procs, q, p)
    ensures
      var t := JoinOne(s, p, status, i);
      && Inv(t)
      && (forall q: nat :: q < i + 1 ==> !WaitsOn(t.procs, q, p))
      && (forall q: nat :: q >= i + 1 ==> (WaitsOn(t.procs, q, p) <==> WaitsOn(s.procs, q, p)))
      && (forall q :: q in s.procs ==>
            t.procs[q] == if q == i && WaitsOn(s.procs, q, p) then s.procs[q].Join(status).1 else s.procs[q])
      && t.queue == s.queue + (if WaitsOn(s.procs, i, p) then [i] else [])
      && t == s.(procs := t.procs, queue := t.queue)
  {
    hide Inv, Push, Without;
    var t := JoinOne(s, p, status, i);
    if WaitsOn(s.procs, i, p) {
      MakeReady(s, i, s.procs[i].Join(status).1);
      WaiterNotAsleep(s, i);
    }
    forall q: nat | q < i + 1 ensures !WaitsOn(t.procs, q, p) {
      assert q < i ==> !WaitsOn(s.procs, q, p);
    }
  }

  lemma JoinFromStep(s: Sys, p: nat, status: nat, i: nat)
    ensures JoinFrom(s, p, status, i) ==
      if i >= MAX_PROCS then s else JoinFrom(JoinOne(s, p, status, i), p, status, i + 1)
  {
  }

  lemma {:induction false} JoinFromInv(s: Sys, p: nat, status: nat, i: nat)
    requires Inv(s) && p in s.procs
    requires forall q: nat :: q < i ==> !WaitsOn(s.procs, q, p)
    ensures
      var t := JoinFrom(s, p, status, i);
      Inv(t) && t == s.(procs := t.procs, queue := t.queue)
    decreases MAX_PROCS - i
  {
    hide Inv, JoinOne;
    if i < MAX_PROCS {
      JoinOneEffect(s, p, status, i);
      JoinFromInv(JoinOne(s, p, status, i), p, status, i + 1);
    }
  }

  lemma LiveBelowMax(s: Sys, p: nat)
    requires Inv(s) && p in s.procs
    ensures p < MAX_PROCS
  {
  }

  /** The join loop releases exactly the waiters on `p`, each with the exit status. */
  lemma {:induction false} JoinFromProc(s: Sys, p: nat, status: nat, i: nat, x: nat)
    requires Inv(s) && p in s.procs && x in s.procs
    requires forall q: nat :: q < i ==> !WaitsOn(s.procs, q, p)
    ensures JoinFrom(s, p, status, i).procs[x] ==
      if WaitsOn(s.procs, x, p) then s.procs[x].Join(status).1 else s.procs[x]
    decreases MAX_PROCS - i
  {
    hide Inv, JoinOne;
    LiveBelowMax(s, x);
    if i < MAX_PROCS {
      JoinOneEffect(s, p, status, i);
      JoinFromProc(JoinOne(s, p, status, i), p, status, i + 1, x);
    }
  }

  /** The join loop queues each waiter once, in table order. */
  lemma {:induction false} JoinFromQueue(s: Sys, p: nat, status: nat, i: nat)
    requires Inv(s) && p in s.procs
    requires forall q: nat :: q < i ==> !WaitsOn(s.procs, q, p)
    ensures JoinFrom(s, p, status, i).queue == s.queue + Waiters(s.procs, p, i)
    decreases MAX_PROCS - i
  {
    hide Inv, JoinOne;
    if i < MAX_PROCS {
      var s1 := JoinOne(s, p, status, i);
      JoinOneEffect(s, p, status, i);
      WaitersSame(s.procs, s1.procs, p, i + 1);
      JoinFromQueue(s1, p, status, i + 1);
    }
  }

  lemma JoinFromEffect(s: Sys, p: nat, status: nat)
    requires Inv(s) && p in s.procs
    ensures
      var t := JoinFrom(s, p, status, 0);
      && Inv(t)
      && (forall q :: q in s.procs ==>
            t.procs[q] == if WaitsOn(s.procs, q, p) then s.procs[q].(state := Ready, waitResult := status) else s.procs[q])
      && t.queue == s.queue + Waiters(s.procs, p, 0)
      && t == s.(procs := t.procs, queue := t.queue)
  {
    JoinFromInv(s, p, status, 0);
    JoinFromQueue(s, p, status, 0);
    forall q | q in s.procs
      ensures JoinFrom(s, p, status, 0).procs[q] ==
        if WaitsOn(s.procs, q, p) then s.procs[q].Join(status).1 else s.procs[q]
    {
      JoinFromProc(s, p, status, 0, q);
    }
  }

  /** Nothing in the kernel state still names process `p`. */
  ghost predicate Forgotten(s: Sys, p: nat) {
    && p !in s.procs && p !in s.queue && p !in s.sleepq
    && s.current != Some(p) && s.idle != Some(p)
    && (forall v :: v in s.notify ==> p !in s.notify[v])
    && (forall q :: q in s.procs ==> !WaitsOn(s.procs, q, p))
  }

  /**
   Removing a process is FATAL exactly for the idle process. Otherwise nothing
   refers to it any more, every waiter is Ready with the exit status, and all
   other processes are untouched.
   */
  lemma RemoveInv(s: Sys, p: nat, status: nat)
    requires Inv(s) && p in s.procs
    ensures
      var (o, t) := Remove(s, p, status);
      && (o == Fatal <==> s.idle == Some(p))
      && (o != Fatal ==>
            && o == Done && Inv(t) && Forgotten(t, p)
            && t.procs.Keys == s.procs.Keys - {p}
            && (forall q :: q in t.procs ==>
                  t.procs[q] == if WaitsOn(s.procs, q, p) then s.procs[q].(state := Ready, waitResult := status) else s.procs[q])
            && t.sleepq == Without(s.sleepq, p) && t.notify == Unregister(s.notify, p)
            && t.idle == s.idle
            && t.current == (if s.current == Some(p) then None else s.current))
  {
    hide Inv, JoinFrom, Erase;
    if s.idle == Some(p) {
      RemoveIdleFatal(s, p, status);
    } else {
      var s1 := s.(current := if s.current == Some(p) then None else s.current);
      ChosenReady(s);
      WithCurrent(s, s1.current);
      JoinFromEffect(s1, p, status);
      var s2 := JoinFrom(s1, p, status, 0);
      RemoveJoined(s2, p);
    }
  }

  lemma RemoveJoined(s: Sys, p: nat)
    requires Inv(s) && p in s.procs && s.idle != Some(p) && s.current != Some(p)
    requires forall q :: q in s.procs ==> !WaitsOn(s.procs, q, p)
    ensures
      var (o, t) := Erase(s, p);
      o == Done && Inv(t) && Forgotten(t, p) && t.procs == s.procs - {p}
      && t.idle == s.idle && t.current == s.current
      && t.sleepq == Without(s.sleepq, p) && t.notify == Unregister(s.notify, p)
  {
    hide Dequeue, Without, Unregister, Inv, NoDuplicates;
    var (o, t) := Erase(s, p);
    ErasedQueue(s, p);
    ErasedSleepers(s, p);
    ErasedRest(s, p);
    InvFrom(t);
  }

  lemma InvFrom(t: Sys)
    requires QueueInv(t) && SleepInv(t) && WaitInv(t) && RefInv(t)
    ensures Inv(t)
  {
  }

  lemma ErasedQueue(s: Sys, p: nat)
    requires Inv(s) && p in s.procs && s.idle != Some(p)
    ensures
      var (o, t) := Erase(s, p);
      o == Done && QueueInv(t) && p !in t.queue && t.procs == s.procs - {p}
      && t.idle == s.idle && t.current == s.current && t.notify == Unregister(s.notify, p) && t.sleepq == Without(s.sleepq, p)
  {
    hide Without, Unregister, SleepInv, WaitInv, RefInv, Dequeue;
    DequeueMembers(s.queue, p);
    assert p in s.queue <==> s.procs[p].state == Ready;
  }

  lemma ErasedSleepers(s: Sys, p: nat)
    requires Inv(s) && p in s.procs && s.idle != Some(p)
    ensures var t := Erase(s, p).1; SleepInv(t) && p !in t.sleepq
  {
    hide Without, QueueInv, WaitInv, RefInv, Dequeue, Unregister;
    assert SleepInv(s);
    ErasedQueue(s, p);
    WithoutMembers(s.sleepq, p);
  }

  lemma ErasedRest(s: Sys, p: nat)
    requires Inv(s) && p in s.procs && s.idle != Some(p) && s.current != Some(p)
    requires forall q :: q in s.procs ==> !WaitsOn(s.procs, q, p)
    ensures var t := Erase(s, p).1; WaitInv(t) && RefInv(t) && Forgotten(t, p)
  {
    hide Without, QueueInv, SleepInv, Dequeue;
    ErasedQueue(s, p);
    ErasedSleepers(s, p);
    UnregisterMembers(s.notify, p);
  }

  lemma UnregisterMembers(notify: map<nat, seq<nat>>, p: nat)
    ensures forall v :: v in notify ==>
      (forall q :: q in Unregister(notify, p)[v] <==> q in notify[v] && q != p)
    ensures forall v :: v in notify && NoDuplicates(notify[v]) ==> NoDuplicates(Unregister(notify, p)[v])
  {
    forall v | v in notify
      ensures forall q :: q in Unregister(notify, p)[v] <==> q in notify[v] && q != p
      ensures NoDuplicates(notify[v]) ==> NoDuplicates(Unregister(notify, p)[v])
    {
      WithoutMembers(notify[v], p);
    }
  }

  /** Joining never queues a process that was not waiting. */
  lemma {:induction false} JoinQueues(s: Sys, p: nat, status: nat, i: nat, q: nat)
    requires q in s.procs && s.procs[q].state == Ready && q !in s.queue
    ensures var t := JoinFrom(s, p, status, i); t.procs[q] == s.procs[q] && q !in t.queue
    ensures q !in s.sleepq ==> q !in JoinFrom(s, p, status, i).sleepq
    decreases MAX_PROCS - i
  {
    if i < MAX_PROCS {
      WithoutMembers(s.sleepq, i);
      JoinQueues(JoinOne(s, p, status, i), p, status, i + 1, q);
    }
  }

  lemma RemoveIdleFatal(s: Sys, p: nat, status: nat)
    requires Inv(s) && s.idle == Some(p)
    ensures Remove(s, p, status).0 == Fatal
    ensures
      var s1 := s.(idle := None, current := if s.current == Some(p) then None else s.current);
      var t := JoinFrom(s1, p, status, 0);
      t.procs[p].state == Ready && p !in t.queue && p !in t.sleepq
  {
    var s1 := s.(idle := None, current := if s.current == Some(p) then None else s.current);
    JoinQueues(s1, p, status, 0, p);
  }

  // ---------------------------------------------------------------- schedule

  /** The entries of `q` whose timers have not expired, in order. */
  function Unexpired(q: seq<nat>, procs: map<nat, Proc>, now: nat): seq<nat> {
    if q == [] then []
    else (if q[0] in procs && IsExpired(procs[q[0]].sleepTimer, now) then [] else [q[0]])
         + Unexpired(q[1..], procs, now)
  }

  /** The entries of `q` that sleep and whose timers have expired, in order. */
  function Due(q: seq<nat>, procs: map<nat, Proc>, now: nat): seq<nat> {
    if q == [] then []
    else (if q[0] in procs && IsExpired(procs[q[0]].sleepTimer, now) && procs[q[0]].state == Sleeping then [q[0]] else [])
         + Due(q[1..], procs, now)
  }

  lemma {:induction false} FiltersSame(q: seq<nat>, a: map<nat, Proc>, b: map<nat, Proc>, now: nat)
    requires forall p :: p in q ==> (p in a <==> p in b) && (p in a ==> a[p] == b[p])
    ensures Unexpired(q, a, now) == Unexpired(q, b, now)
    ensures Due(q, a, now) == Due(q, b, now)
  {
    if q != [] {
      FiltersSame(q[1..], a, b, now);
    }
  }

  /** A process after one turn of the timer loop has looked at it. */
  function AfterTimer(v: Proc, now: nat): Proc {
    if IsExpired(v.sleepTimer, now) then v.Wakeup().1 else v
  }

  lemma TimerTurnEffect(s: Sys, now: nat)
    requires Inv(s) && s.sleepq != []
    ensures
      var p, t := s.sleepq[0], TimerTurn(s, now);
      var late := IsExpired(s.procs[p].sleepTimer, now);
      && Inv(t)
      && t.procs == s.procs[p := AfterTimer(s.procs[p], now)]
      && t.sleepq == s.sleepq[1..] + (if late then [] else [p])
      && t.queue == s.queue + (if late && s.procs[p].state == Sleeping then [p] else [])
      && t == s.(procs := t.procs, queue := t.queue, sleepq := t.sleepq)
  {
    var p := s.sleepq[0];
    var rest := s.sleepq[1..];
    var s1 := s.(sleepq := rest);
    assert s.sleepq == [p] + rest;
    assert p !in rest;
    assert Inv(s1);
    WithoutAbsent(rest, p);
    if IsExpired(s.procs[p].sleepTimer, now) {
      WakeupInv(s1, p);
    } else {
      PushHasRoom(rest, p);
      assert s.procs[p := s.procs[p]] == s.procs;
    }
  }

  lemma TimerLoopStep(s: Sys, now: nat, n: nat)
    requires Inv(s)
    ensures TimerLoop(s, now, n) ==
      if n == 0 || s.sleepq == [] then s else TimerLoop(TimerTurn(s, now), now, n - 1)
  {
    hide TimerTurn;
    assert s.sleepq != [] ==> s.sleepq[0] in s.sleepq;
  }

  lemma HeadOnce(q: seq<nat>, n: nat)
    requires NoDuplicates(q) && 0 < n <= |q|
    ensures q[0] !in q[1..n] && q[..n] == [q[0]] + q[1..n] && q[..n][1..] == q[1..n]
  {
    forall i | 0 <= i < n - 1 ensures q[1..n][i] != q[0] {
      assert q[1..n][i] == q[i + 1];
    }
  }

  lemma SleepHead(s: Sys, n: nat)
    requires Inv(s) && 0 < n <= |s.sleepq|
    ensures
      var q := s.sleepq;
      && q[0] in s.procs && q[0] !in q[1..n]
      && q[..n] == [q[0]] + q[1..n] && q[..n][1..] == q[1..n]
  {
    HeadOnce(s.sleepq, n);
  }

  lemma {:induction false} TimerLoopInv(s: Sys, now: nat, n: nat)
    requires Inv(s) && n <= |s.sleepq|
    ensures
      var t := TimerLoop(s, now, n);
      Inv(t) && t == s.(procs := t.procs, queue := t.queue, sleepq := t.sleepq)
    decreases n
  {
    hide Inv, TimerTurn;
    if n > 0 {
      TimerTurnEffect(s, now);
      TimerLoopInv(TimerTurn(s, now), now, n - 1);
    }
  }

  /** How the filters see the first `n` entries after one turn. */
  lemma FiltersTurn(s: Sys, now: nat, n: nat)
    requires Inv(s) && 0 < n <= |s.sleepq|
    ensures
      var p, u, seen := s.sleepq[0], TimerTurn(s, now), s.sleepq[..n];
      var late := IsExpired(s.procs[p].sleepTimer, now);
      && |u.sleepq| >= n - 1
      && u.sleepq[..n - 1] == s.sleepq[1..n]
      && u.sleepq[n - 1..] == s.sleepq[n..] + (if late then [] else [p])
      && Unexpired(seen, s.procs, now) == (if late then [] else [p]) + Unexpired(u.sleepq[..n - 1], u.procs, now)
      && Due(seen, s.procs, now) ==
           (if late && s.procs[p].state == Sleeping then [p] else []) + Due(u.sleepq[..n - 1], u.procs, now)
  {
    hide Inv, TimerTurn;
    SleepHead(s, n);
    TimerTurnEffect(s, now);
    var u := TimerTurn(s, now);
    assert u.sleepq[..n - 1] == s.sleepq[1..n];
    FiltersSame(s.sleepq[1..n], s.procs, u.procs, now);
  }

  /** After `n` turns the first `n` sleepers have been dealt with, the rest wait their turn. */
  lemma {:induction false} TimerLoopSleepq(s: Sys, now: nat, n: nat)
    requires Inv(s) && n <= |s.sleepq|
    ensures TimerLoop(s, now, n).sleepq == s.sleepq[n..] + Unexpired(s.sleepq[..n], s.procs, now)
    decreases n
  {
    hide Inv, TimerTurn;
    if n == 0 {
      assert s.sleepq[0..] == s.sleepq;
    } else {
      TimerTurnEffect(s, now);
      FiltersTurn(s, now, n);
      TimerLoopSleepq(TimerTurn(s, now), now, n - 1);
    }
  }

  lemma {:induction false} TimerLoopQueue(s: Sys, now: nat, n: nat)
    requires Inv(s) && n <= |s.sleepq|
    ensures TimerLoop(s, now, n).queue == s.queue + Due(s.sleepq[..n], s.procs, now)
    decreases n
  {
    hide Inv, TimerTurn;
    if n > 0 {
      TimerTurnEffect(s, now);
      FiltersTurn(s, now, n);
      TimerLoopQueue(TimerTurn(s, now), now, n - 1);
    }
  }

  lemma {:induction false} TimerLoopProc(s: Sys, now: nat, n: nat, x: nat)
    requires Inv(s) && n <= |s.sleepq| && x in s.procs
    ensures TimerLoop(s, now, n).procs[x] ==
      if x in s.sleepq[..n] then AfterTimer(s.procs[x], now) else s.procs[x]
    decreases n
  {
    hide Inv, TimerTurn;
    if n > 0 {
      SleepHead(s, n);
      var u := TimerTurn(s, now);
      TimerTurnEffect(s, now);
      TimerLoopProc(u, now, n - 1, x);
      assert u.sleepq[..n - 1] == s.sleepq[1..n];
    }
  }

  lemma ChosenReady(s: Sys)
    requires Inv(s)
    ensures s.queue != [] ==> s.queue[0] in s.procs && s.procs[s.queue[0]].state == Ready && s.queue[0] !in s.sleepq
    ensures s.idle.Some? ==>
      s.idle.value in s.procs && s.procs[s.idle.value].state == Ready && s.idle.value !in s.sleepq
    ensures s.current.Some? ==> s.current.value in s.procs
  {
  }

  /**
   Scheduling: FATAL exactly when nothing is Ready and there is no idle process.
   Otherwise the longest waiting Ready process (or idle) runs next, the sleep
   queue is its unexpired entries in their old order, the expired sleepers are
   appended to the run queue once each, and stopped entries stay stopped.
   */
  lemma ScheduleInv(s: Sys, now: nat)
    requires Inv(s)
    ensures
      var (o, t) := Schedule(s, now);
      && (o == Fatal <==> s.queue == [] && s.idle.None?)
      && (o != Fatal ==>
            && o == Done && Inv(t)
            && t.current == (if s.queue != [] then Some(s.queue[0]) else s.idle)
            && t.procs[t.current.value].state == Ready
            && t.sleepq == Unexpired(s.sleepq, s.procs, now)
            && t.queue == Rotate(s.queue) + Due(s.sleepq, s.procs, now)
            && t.procs.Keys == s.procs.Keys
            && (forall p :: p in s.procs ==>
                  t.procs[p] == if p in s.sleepq then AfterTimer(s.procs[p], now) else s.procs[p])
            && t.idle == s.idle && t.notify == s.notify)
  {
    hide Inv, TimerLoop, Unexpired, Due;
    var s1 := s.(queue := Rotate(s.queue));
    RotatedInv(s);
    ChosenReady(s);
    var n := |s.sleepq|;
    TimerLoopInv(s1, now, n);
    TimerLoopSleepq(s1, now, n);
    TimerLoopQueue(s1, now, n);
    forall p | p in s.procs
      ensures TimerLoop(s1, now, n).procs[p] == if p in s.sleepq[..n] then AfterTimer(s.procs[p], now) else s.procs[p]
    {
      TimerLoopProc(s1, now, n, p);
    }
    assert s.sleepq[..|s.sleepq|] == s.sleepq;
    assert s.sleepq[|s.sleepq|..] == [];
    var (o, t) := Schedule(s, now);
    if o != Fatal {
      WithCurrent(t.(current := s.current), t.current);
    }
  }

  /** Installing the current process as idle succeeds exactly when it is queued, and keeps the invariant when there was no idle. */
  lemma SetIdleInv(s: Sys, p: nat)
    requires Inv(s) && p in s.procs
    ensures
      var (o, t) := SetIdle(s, p);
      && (o == Fatal <==> p !in s.queue)
      && (o != Fatal ==> (Inv(t) <==> s.idle.None?) && t.idle == Some(p) && t == s.(queue := t.queue, idle := t.idle))
  {
    DequeueMembers(s.queue, p);
    var (o, t) := SetIdle(s, p);
    if o != Fatal && s.idle.Some? {
      assert s.idle.value !in t.queue;
      assert !QueueInv(t);
    }
  }
}
