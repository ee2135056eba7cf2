/**
 The sleep/wakeup handshake on top of the rings: senders write a message and
 then make a Wakeup call, the receiver reads its channels one after the other
 until each is empty and then makes an EnterSleep call. After each message it runs a
 handler, which may itself wait for a message on some channel. Ring accesses
 interleave freely as in module Ring; each kernel call is one step on the process.
 */
module Handshake {
  import opened Basics
  import opened ProcessModel
  import Ring

  /**
   Where the receiver is. Its loop is about to read channel `i` (or to sleep, past the
   last one), inside that read, or in the handler of the message it read. In a handler
   it may wait for channel `k`: about to read it, inside that read, or about to sleep
   because it was empty.
   */
  datatype Pc =
    | Scan(i: nat)
    | Reading(i: nat)
    | Handling(i: nat)
    | Await(i: nat, k: nat)
    | Fetching(i: nat, k: nat)
    | Doze(i: nat, k: nat)

  /** `pending[j]`: sender j has published a message and not yet made its Wakeup call. */
  datatype World = World(rings: seq<Ring.State>, pending: seq<bool>, pc: Pc, proc: Proc)

  datatype Action =
    | BeginWrite(j: nat, msg: Ring.Msg)
    | WriteStep(j: nat)
    | SenderWakeup(j: nat)
    | SenderRestarts(j: nat)
    | SenderDies(j: nat)
    | KernelEvent(j: nat, msg: Ring.Msg)
    | Receive(timer: Option<Timer>)
    | Nested(k: nat)
    | TimerExpires
    | StopReceiver
    | ResumeReceiver
    | ReceiverRestarts

  type Configs = cs: seq<Ring.Config> | forall c :: c in cs ==> c.Valid()

  function Init(cs: Configs): World {
    World(seq(|cs|, _ => Ring.Init()), seq(|cs|, _ => false), Scan(0), Proc(Ready, 0, 0, 0, 0, Timer(0, 0)))
  }

  predicate Shape(cs: Configs, w: World) {
    |w.rings| == |w.pending| == |cs|
  }

  function RingStep(cs: Configs, w: World, j: nat, a: Ring.Action): (r: World)
    requires Shape(cs, w) && j < |cs|
    ensures Shape(cs, r)
  {
    w.(rings := w.rings[j := Ring.Step(cs[j], w.rings[j], a)])
  }

  /** A step of sender j; publishing makes its Wakeup call due. */
  function SenderStep(cs: Configs, w: World, j: nat, a: Ring.Action): (r: World)
    requires Shape(cs, w) && j < |cs|
    ensures Shape(cs, r)
  {
    var t := RingStep(cs, w, j, a);
    if t.rings[j].written != w.rings[j].written then t.(pending := t.pending[j := true]) else t
  }

  function WakeReceiver(w: World): World {
    w.(proc := w.proc.Wakeup().1)
  }

  /** One step of the receiver. */
  function ReceiverStep(cs: Configs, w: World, timer: Option<Timer>): (r: World)
    requires Shape(cs, w)
    ensures Shape(cs, r)
  {
    if w.proc.state != Ready then w
    else
      match w.pc
      case Scan(i) =>
        if i >= |cs| then
          w.(proc := w.proc.Sleep(timer, false).1, pc := Scan(0))
        else
          ReadHead(cs, w, i, Scan(i + 1), Reading(i))
      case Reading(i) => ReadOn(cs, w, i, i)
      case Handling(i) => w.(pc := Scan(i))
      case Await(i, k) => ReadHead(cs, w, k, Doze(i, k), Fetching(i, k))
      case Fetching(i, k) => ReadOn(cs, w, i, k)
      case Doze(i, k) => w.(proc := w.proc.Sleep(None, false).1, pc := Await(i, k))
  }

  /** The start of a read of channel `k`: to `empty` when it holds no message, else into the read. */
  function ReadHead(cs: Configs, w: World, k: nat, empty: Pc, busy: Pc): (r: World)
    requires Shape(cs, w)
    ensures Shape(cs, r)
  {
    if k >= |cs| then w
    else if w.rings[k].dataHead == w.rings[k].rhead then w.(pc := empty)
    else RingStep(cs, w, k, Ring.BeginRead).(pc := busy)
  }

  /** One step inside a read of channel `k`; the message then goes to the handler. */
  function ReadOn(cs: Configs, w: World, i: nat, k: nat): (r: World)
    requires Shape(cs, w)
    ensures Shape(cs, r)
  {
    if k >= |cs| then w
    else
      var t := RingStep(cs, w, k, Ring.ReadStep);
      if t.rings[k].reader.RIdle? then t.(pc := Handling(i)) else t
  }

  function Step(cs: Configs, w: World, a: Action): (r: World)
    requires Shape(cs, w)
    ensures Shape(cs, r)
  {
    match a
    case BeginWrite(j, msg) =>
      if j < |cs| && !w.pending[j] then SenderStep(cs, w, j, Ring.BeginWrite(msg)) else w
    case WriteStep(j) =>
      if j < |cs| && !w.pending[j] then SenderStep(cs, w, j, Ring.WriteStep) else w
    case SenderWakeup(j) =>
      WakeReceiver(if j < |cs| then w.(pending := w.pending[j := false]) else w)
    case SenderRestarts(j) =>
      // the restarted program attaches to its rings again and knows of no call it owes
      if j < |cs| then RingStep(cs, w, j, Ring.RestartWriter).(pending := w.pending[j := false]) else w
    case SenderDies(j) =>
      // the teardown of its shares raises an event on the receiver
      if j < |cs| then WakeReceiver(RingStep(cs, w, j, Ring.RestartWriter).(pending := w.pending[j := false])) else w
    case KernelEvent(j, msg) =>
      // raiseEvent writes and wakes within one kernel call
      if j < |cs| then
        WakeReceiver(w.(rings := w.rings[j := Ring.Run(cs[j], w.rings[j], Ring.WriteCall(cs[j], msg))]))
      else w
    case Receive(timer) => ReceiverStep(cs, w, timer)
    case Nested(k) =>
      // a handler, or a retry of requests behind the scan, waits for channel k
      if w.proc.state == Ready && k < |cs| && (w.pc.Handling? || w.pc == Scan(|cs|)) then
        w.(pc := Await(w.pc.i, k))
      else w
    case TimerExpires => WakeReceiver(w)
    case StopReceiver => w.(proc := w.proc.Stop().1)
    case ResumeReceiver => w.(proc := w.proc.Resume().1)
    case ReceiverRestarts =>
      if w.proc.state != Stopped then w
      else
        w.(rings := seq(|cs|, k requires 0 <= k < |cs| => Ring.Step(cs[k], w.rings[k], Ring.RestartReader)),
           pc := Scan(0))
  }

  function Run(cs: Configs, w: World, acts: seq<Action>): (r: World)
    requires Shape(cs, w)
    ensures Shape(cs, r)
    decreases |acts|
  {
    if acts == [] then w else Run(cs, Step(cs, w, acts[0]), acts[1..])
  }

  // --------------------------------------------------------------- invariant

  predicate NonEmpty(w: World, k: nat)
    requires k < |w.rings|
  {
    Ring.InFlight(w.rings[k]) > 0
  }

  /** The channel whose read is under way. */
  function Busy(pc: Pc): Option<nat> {
    match pc
    case Reading(i) => Some(i)
    case Fetching(_, k) => Some(k)
    case _ => None
  }

  /** The ring invariants, and the consumer sides are where the receiver says. */
  ghost predicate RingsInv(cs: Configs, w: World)
    requires Shape(cs, w)
  {
    && (forall k :: 0 <= k < |cs| ==> Ring.Inv(cs[k], w.rings[k]))
    && w.pc.i <= |cs| && (w.pc.Reading? ==> w.pc.i < |cs|)
    && (w.pc.Await? || w.pc.Fetching? || w.pc.Doze? ==> w.pc.k < |cs|)
    && (forall k :: 0 <= k < |cs| ==> (w.rings[k].reader.RIdle? <==> Busy(w.pc) != Some(k)))
    && (w.proc.state == Sleeping ==> w.pc == Scan(0) || w.pc.Await?)
  }

  /** Channel `k` is empty, or a Wakeup call for it is due, or one has been counted since. */
  predicate Covered(w: World, k: nat)
    requires k < |w.rings| == |w.pending|
  {
    NonEmpty(w, k) ==> w.pending[k] || (w.proc.wakeups > 0 && w.proc.state != Sleeping)
  }

  /**
   The receiver relies on a wakeup for channel `k`: it has passed `k` in its scan, or
   has found `k` empty and is about to sleep, or sleeps (for `k`, or for all of them).
   */
  predicate Watched(w: World, k: nat) {
    || k < w.pc.i
    || w.pc == Doze(w.pc.i, k)
    || (w.proc.state == Sleeping && (w.pc == Scan(0) || w.pc == Await(w.pc.i, k)))
  }

  ghost predicate WakeInv(cs: Configs, w: World)
    requires Shape(cs, w)
  {
    forall k :: 0 <= k < |cs| && Watched(w, k) ==> Covered(w, k)
  }

  /**
   The steps that lose a wakeup. A sender is restarted between publishing and its
   Wakeup call while the receiver relies on that call; or the EnterSleep call inside
   a handler takes the counted wakeups of channels that the scan has passed already.
   */
  predicate Loses(cs: Configs, w: World, a: Action)
    requires Shape(cs, w)
  {
    match a
    case SenderRestarts(j) =>
      && j < |cs| && w.pending[j] && NonEmpty(w, j) && Watched(w, j)
      && (w.proc.wakeups == 0 || w.proc.state == Sleeping)
    case Receive(_) =>
      && w.proc.state == Ready && w.pc.Doze? && w.proc.wakeups > 0
      && exists j :: 0 <= j < |cs| && j < w.pc.i && NonEmpty(w, j) && !w.pending[j]
    case _ => false
  }

  /** A producer step of ring `s` leaves its consumer side alone and publishes at most one message. */
  lemma WriterEffect(c: Ring.Config, s: Ring.State, a: Ring.Action)
    requires c.Valid() && Ring.Inv(c, s)
    requires a.BeginWrite? || a.WriteStep? || a.RestartWriter?
    ensures var t := Ring.Step(c, s, a); Ring.Inv(c, t) && t.reader == s.reader && t.read == s.read
  {
    Ring.StepInv(c, s, a);
  }

  lemma SenderStepInv(cs: Configs, w: World, j: nat, a: Ring.Action)
    requires Shape(cs, w) && RingsInv(cs, w) && j < |cs|
    requires a.BeginWrite? || a.WriteStep?
    ensures RingsInv(cs, SenderStep(cs, w, j, a))
    ensures WakeInv(cs, w) ==> WakeInv(cs, SenderStep(cs, w, j, a))
  {
    hide Ring.Step, Ring.Inv;
    WriterEffect(cs[j], w.rings[j], a);
    var t := SenderStep(cs, w, j, a);
    forall k | 0 <= k < |cs| && Covered(w, k) ensures Covered(t, k) {
    }
  }

  /** A Wakeup call, with or without clearing what sender j owed, keeps the invariant. */
  lemma WakeReceiverInv(cs: Configs, w: World, pending: seq<bool>)
    requires Shape(cs, w) && RingsInv(cs, w) && |pending| == |cs|
    ensures RingsInv(cs, WakeReceiver(w.(pending := pending)))
    ensures WakeInv(cs, w) ==> WakeInv(cs, WakeReceiver(w.(pending := pending)))
    ensures WakeReceiver(w).proc.state != Sleeping
  {
    hide Ring.Inv;
  }

  lemma RestartWriterInv(cs: Configs, w: World, j: nat)
    requires Shape(cs, w) && RingsInv(cs, w) && j < |cs|
    ensures RingsInv(cs, RingStep(cs, w, j, Ring.RestartWriter))
    ensures WakeInv(cs, w) ==> WakeInv(cs, RingStep(cs, w, j, Ring.RestartWriter))
    ensures forall k :: 0 <= k < |cs| ==> (NonEmpty(RingStep(cs, w, j, Ring.RestartWriter), k) <==> NonEmpty(w, k))
  {
    hide Ring.Inv;
    WriterEffect(cs[j], w.rings[j], Ring.RestartWriter);
    var t := RingStep(cs, w, j, Ring.RestartWriter);
    forall k | 0 <= k < |cs| && Covered(w, k) ensures Covered(t, k) {
    }
  }

  /** A sender restart keeps the invariant exactly when no wakeup hangs on the call it forgets. */
  lemma SenderRestartExactly(cs: Configs, w: World, j: nat)
    requires Shape(cs, w) && RingsInv(cs, w)
    ensures RingsInv(cs, Step(cs, w, SenderRestarts(j)))
    ensures WakeInv(cs, w) ==> (WakeInv(cs, Step(cs, w, SenderRestarts(j))) <==> !Loses(cs, w, SenderRestarts(j)))
  {
    hide Ring.Inv, Ring.Step, NonEmpty, RingStep;
    if j < |cs| {
      RestartWriterInv(cs, w, j);
      var m := RingStep(cs, w, j, Ring.RestartWriter);
      var t := Step(cs, w, SenderRestarts(j));
      assert t == m.(pending := w.pending[j := false]) && m.pc == w.pc && m.proc == w.proc && m.pending == w.pending by {
        RestartWriterKeeps(cs, w, j);
      }
      SameRings(m, t);
      if !Loses(cs, w, SenderRestarts(j)) {
        forall k | WakeInv(cs, w) && 0 <= k < |cs| && Watched(t, k) ensures Covered(t, k) {
          assert Covered(m, k);
        }
      } else {
        assert Watched(t, j) && !Covered(t, j);
      }
    }
  }

  lemma RestartWriterKeeps(cs: Configs, w: World, j: nat)
    requires Shape(cs, w) && j < |cs|
    ensures
      var m := RingStep(cs, w, j, Ring.RestartWriter);
      && m.pc == w.pc && m.proc == w.proc && m.pending == w.pending
      && Step(cs, w, SenderRestarts(j)) == m.(pending := w.pending[j := false])
  {
  }

  lemma SameRings(m: World, t: World)
    requires m.rings == t.rings
    ensures forall k :: 0 <= k < |m.rings| ==> (NonEmpty(m, k) <==> NonEmpty(t, k))
  {
  }

  /** A whole kernel-side write of a ring leaves its consumer side alone. */
  lemma {:induction false} WriterRun(c: Ring.Config, s: Ring.State, acts: seq<Ring.Action>)
    requires c.Valid() && Ring.Inv(c, s)
    requires forall a :: a in acts ==> a.BeginWrite? || a.WriteStep?
    ensures var t := Ring.Run(c, s, acts); Ring.Inv(c, t) && t.reader == s.reader
    decreases |acts|
  {
    hide Ring.Inv, Ring.Step;
    if acts != [] {
      WriterEffect(c, s, acts[0]);
      WriterRun(c, Ring.Step(c, s, acts[0]), acts[1..]);
    }
  }

  lemma KernelEventInv(cs: Configs, w: World, j: nat, msg: Ring.Msg)
    requires Shape(cs, w) && RingsInv(cs, w) && j < |cs|
    ensures RingsInv(cs, Step(cs, w, KernelEvent(j, msg)))
    ensures WakeInv(cs, w) ==> WakeInv(cs, Step(cs, w, KernelEvent(j, msg)))
  {
    hide Ring.Inv, Ring.Run;
    WriterRun(cs[j], w.rings[j], Ring.WriteCall(cs[j], msg));
  }

  lemma ReadHeadInv(cs: Configs, w: World, k: nat, empty: Pc, busy: Pc)
    requires Shape(cs, w) && RingsInv(cs, w) && w.proc.state == Ready && Busy(w.pc).None? && k < |cs|
    requires (w.pc == Scan(k) && empty == Scan(k + 1) && busy == Reading(k)) ||
      (w.pc == Await(w.pc.i, k) && empty == Doze(w.pc.i, k) && busy == Fetching(w.pc.i, k))
    ensures RingsInv(cs, ReadHead(cs, w, k, empty, busy))
    ensures WakeInv(cs, w) ==> WakeInv(cs, ReadHead(cs, w, k, empty, busy))
    ensures ReadHead(cs, w, k, empty, busy).pc == if NonEmpty(w, k) then busy else empty
  {
    hide Ring.Inv;
    Ring.EmptyExactly(cs[k], w.rings[k]);
    Ring.StepInv(cs[k], w.rings[k], Ring.BeginRead);
    var t := ReadHead(cs, w, k, empty, busy);
    forall j | 0 <= j < |cs| && Covered(w, j) ensures Covered(t, j) {
    }
  }

  /** A consumer step of ring `s` publishes nothing and never makes it non-empty. */
  lemma ReaderEffect(c: Ring.Config, s: Ring.State)
    requires c.Valid() && Ring.Inv(c, s)
    ensures
      var t := Ring.Step(c, s, Ring.ReadStep);
      Ring.Inv(c, t) && Ring.InFlight(t) <= Ring.InFlight(s)
  {
    Ring.StepInv(c, s, Ring.ReadStep);
  }

  lemma ReadOnInv(cs: Configs, w: World, k: nat)
    requires Shape(cs, w) && RingsInv(cs, w) && w.proc.state == Ready && Busy(w.pc) == Some(k)
    ensures RingsInv(cs, ReadOn(cs, w, w.pc.i, k))
    ensures WakeInv(cs, w) ==> WakeInv(cs, ReadOn(cs, w, w.pc.i, k))
  {
    hide Ring.Inv, Ring.Step;
    ReaderEffect(cs[k], w.rings[k]);
    var t := ReadOn(cs, w, w.pc.i, k);
    forall j | 0 <= j < |cs| && Covered(w, j) ensures Covered(t, j) {
    }
  }

  lemma LoopSleepInv(cs: Configs, w: World, timer: Option<Timer>)
    requires Shape(cs, w) && RingsInv(cs, w) && w.proc.state == Ready && w.pc == Scan(|cs|)
    ensures RingsInv(cs, w.(proc := w.proc.Sleep(timer, false).1, pc := Scan(0)))
    ensures WakeInv(cs, w) ==> WakeInv(cs, w.(proc := w.proc.Sleep(timer, false).1, pc := Scan(0)))
  {
    hide Ring.Inv, NonEmpty;
    var t := w.(proc := w.proc.Sleep(timer, false).1, pc := Scan(0));
    SameRings(w, t);
    forall k | WakeInv(cs, w) && 0 <= k < |cs| && Watched(t, k) ensures Covered(t, k) {
      assert Covered(w, k);
    }
  }

  /** The EnterSleep call of a handler keeps the invariant exactly when it takes no wakeup that the scan relies on. */
  lemma NestedSleepExactly(cs: Configs, w: World, timer: Option<Timer>)
    requires Shape(cs, w) && RingsInv(cs, w) && w.proc.state == Ready && w.pc.Doze?
    ensures RingsInv(cs, ReceiverStep(cs, w, timer))
    ensures WakeInv(cs, w) ==> (WakeInv(cs, ReceiverStep(cs, w, timer)) <==> !Loses(cs, w, Receive(timer)))
  {
    hide Ring.Inv, NonEmpty;
    var t := ReceiverStep(cs, w, timer);
    SameRings(w, t);
    if !Loses(cs, w, Receive(timer)) {
      forall k | WakeInv(cs, w) && 0 <= k < |cs| && Watched(t, k) ensures Covered(t, k) {
        assert Covered(w, k);
      }
    } else {
      var j :| 0 <= j < |cs| && j < w.pc.i && NonEmpty(w, j) && !w.pending[j];
      assert Watched(t, j) && !Covered(t, j);
    }
  }

  lemma RestartInv(cs: Configs, w: World)
    requires Shape(cs, w) && RingsInv(cs, w)
    ensures RingsInv(cs, Step(cs, w, ReceiverRestarts))
    ensures WakeInv(cs, w) ==> WakeInv(cs, Step(cs, w, ReceiverRestarts))
  {
    hide Ring.Inv;
    forall k | 0 <= k < |cs| ensures Ring.Inv(cs[k], Ring.Step(cs[k], w.rings[k], Ring.RestartReader)) {
      Ring.StepInv(cs[k], w.rings[k], Ring.RestartReader);
    }
  }

  lemma StopResumeInv(cs: Configs, w: World, a: Action)
    requires Shape(cs, w) && RingsInv(cs, w) && (a.StopReceiver? || a.ResumeReceiver?)
    ensures RingsInv(cs, Step(cs, w, a))
    ensures WakeInv(cs, w) ==> WakeInv(cs, Step(cs, w, a))
  {
    hide Ring.Inv;
    var t := Step(cs, w, a);
    forall k | 0 <= k < |cs| && Covered(w, k) ensures Covered(t, k) {
    }
  }

  /** Being stopped, resumed or reached by a timer changes nothing but the state of the process and its count of wakeups. */
  lemma OutsideEvents(cs: Configs, w: World, a: Action)
    requires Shape(cs, w) && (a.StopReceiver? || a.ResumeReceiver? || a.TimerExpires?)
    ensures
      var t := Step(cs, w, a);
      && t == w.(proc := t.proc)
      && t.proc == w.proc.(state := t.proc.state, wakeups := t.proc.wakeups, sleepTimer := t.proc.sleepTimer)
      && t.proc.wakeups == w.proc.wakeups + (if a.TimerExpires? then 1 else 0)
      && (a.StopReceiver? ==> t.proc.state == if w.proc.state == Waiting then Waiting else Stopped)
      && (a.ResumeReceiver? ==> t.proc.state == if w.proc.state == Stopped then Ready else w.proc.state)
      && (a.TimerExpires? ==> t.proc.state == if w.proc.state == Sleeping then Ready else w.proc.state)
  {
  }

  /** At the end of its scan a receiver that was woken meanwhile scans again; otherwise it sleeps, with the timer it was given. */
  lemma EndOfScan(cs: Configs, w: World, timer: Option<Timer>)
    requires Shape(cs, w) && w.proc.state == Ready && w.pc == Scan(|cs|)
    ensures
      var t := Step(cs, w, Receive(timer));
      && t.rings == w.rings && t.pending == w.pending && t.pc == Scan(0)
      && (w.proc.wakeups > 0 ==> t.proc == w.proc.(wakeups := 0))
      && (w.proc.wakeups == 0 ==>
            t.proc == w.proc.(state := Sleeping, sleepTimer := if timer.Some? then timer.value else w.proc.sleepTimer))
  {
  }

  lemma ReceiveExactly(cs: Configs, w: World, timer: Option<Timer>)
    requires Shape(cs, w) && RingsInv(cs, w)
    ensures RingsInv(cs, ReceiverStep(cs, w, timer))
    ensures WakeInv(cs, w) ==> (WakeInv(cs, ReceiverStep(cs, w, timer)) <==> !Loses(cs, w, Receive(timer)))
  {
    hide Ring.Inv, NonEmpty, ReadHead, ReadOn;
    if w.proc.state == Ready {
      match w.pc
      case Scan(i) =>
        if i < |cs| { ReadHeadInv(cs, w, i, Scan(i + 1), Reading(i)); } else { LoopSleepInv(cs, w, timer); }
      case Reading(i) => ReadOnInv(cs, w, i);
      case Handling(i) => MoveInv(cs, w, Scan(i));
      case Await(i, k) => ReadHeadInv(cs, w, k, Doze(i, k), Fetching(i, k));
      case Fetching(i, k) => ReadOnInv(cs, w, k);
      case Doze(i, k) => NestedSleepExactly(cs, w, timer);
    }
  }

  /** Going on in the same place of the scan without touching a ring. */
  lemma MoveInv(cs: Configs, w: World, pc: Pc)
    requires Shape(cs, w) && RingsInv(cs, w) && w.proc.state == Ready && Busy(w.pc).None? && pc.i == w.pc.i
    requires pc.Scan? || (pc.Await? && pc.k < |cs|)
    ensures RingsInv(cs, w.(pc := pc))
    ensures WakeInv(cs, w) ==> WakeInv(cs, w.(pc := pc))
  {
    hide Ring.Inv, NonEmpty;
    var t := w.(pc := pc);
    SameRings(w, t);
    forall k | WakeInv(cs, w) && 0 <= k < |cs| && Watched(t, k) ensures Covered(t, k) {
      assert Covered(w, k);
    }
  }

  /** Every step keeps the invariant, except exactly the two that lose a wakeup. */
  lemma StepExactly(cs: Configs, w: World, a: Action)
    requires Shape(cs, w) && RingsInv(cs, w)
    ensures RingsInv(cs, Step(cs, w, a))
    ensures WakeInv(cs, w) ==> (WakeInv(cs, Step(cs, w, a)) <==> !Loses(cs, w, a))
  {
    hide RingsInv, WakeInv, SenderStep, RingStep, WakeReceiver, ReceiverStep, NonEmpty, Watched;
    match a
    case BeginWrite(j, msg) =>
      if j < |cs| { SenderStepInv(cs, w, j, Ring.BeginWrite(msg)); }
    case WriteStep(j) =>
      if j < |cs| { SenderStepInv(cs, w, j, Ring.WriteStep); }
    case SenderWakeup(j) =>
      WakeReceiverInv(cs, w, if j < |cs| then w.pending[j := false] else w.pending);
    case SenderRestarts(j) => SenderRestartExactly(cs, w, j);
    case SenderDies(j) =>
      if j < |cs| {
        RestartWriterInv(cs, w, j);
        WakeReceiverInv(cs, RingStep(cs, w, j, Ring.RestartWriter), w.pending[j := false]);
      }
    case KernelEvent(j, msg) =>
      if j < |cs| { KernelEventInv(cs, w, j, msg); }
    case Receive(timer) => ReceiveExactly(cs, w, timer);
    case Nested(k) => NestedInv(cs, w, k);
    case TimerExpires => WakeReceiverInv(cs, w, w.pending);
    case StopReceiver => StopResumeInv(cs, w, a);
    case ResumeReceiver => StopResumeInv(cs, w, a);
    case ReceiverRestarts => RestartInv(cs, w);
  }

  lemma NestedInv(cs: Configs, w: World, k: nat)
    requires Shape(cs, w) && RingsInv(cs, w)
    ensures RingsInv(cs, Step(cs, w, Nested(k)))
    ensures WakeInv(cs, w) ==> WakeInv(cs, Step(cs, w, Nested(k)))
  {
    hide RingsInv, WakeInv;
    if w.proc.state == Ready && k < |cs| && (w.pc.Handling? || w.pc == Scan(|cs|)) {
      MoveInv(cs, w, Await(w.pc.i, k));
    }
  }

  /** No step of the run is one that loses a wakeup. */
  predicate Careful(cs: Configs, w: World, acts: seq<Action>)
    requires Shape(cs, w)
    decreases |acts|
  {
    acts == [] || (!Loses(cs, w, acts[0]) && Careful(cs, Step(cs, w, acts[0]), acts[1..]))
  }

  lemma {:induction false} RunInv(cs: Configs, w: World, acts: seq<Action>)
    requires Shape(cs, w) && RingsInv(cs, w)
    ensures RingsInv(cs, Run(cs, w, acts))
    ensures WakeInv(cs, w) && Careful(cs, w, acts) ==> WakeInv(cs, Run(cs, w, acts))
    decreases |acts|
  {
    hide RingsInv, WakeInv, Step, Loses;
    if acts != [] {
      StepExactly(cs, w, acts[0]);
      RunInv(cs, Step(cs, w, acts[0]), acts[1..]);
    }
  }

  lemma InitInv(cs: Configs)
    ensures RingsInv(cs, Init(cs)) && WakeInv(cs, Init(cs))
  {
    forall k | 0 <= k < |cs| ensures Ring.Inv(cs[k], Ring.Init()) {
      Ring.InitInv(cs[k]);
    }
  }

  /**
   No lost wakeup, for any number of channels and senders and under every
   interleaving without a losing step: a receiver that sleeps, for all channels or in
   a handler for one, while a channel it relies on holds a message always has that
   channel's sender's Wakeup call still to come, and that call makes it Ready.
   */
  lemma NoLostWakeup(cs: Configs, acts: seq<Action>)
    requires Careful(cs, Init(cs), acts)
    ensures
      var w := Run(cs, Init(cs), acts);
      w.proc.state == Sleeping ==>
        && (w.pc == Scan(0) || w.pc.Await?)
        && forall k :: 0 <= k < |cs| && (w.pc == Scan(0) || k < w.pc.i || w.pc == Await(w.pc.i, k)) && NonEmpty(w, k) ==>
             && w.pending[k]
             && Step(cs, w, SenderWakeup(k)).proc.state == Ready
             && Step(cs, w, SenderWakeup(k)).pc == w.pc
  {
    hide Ring.Inv, NonEmpty;
    InitInv(cs);
    RunInv(cs, Init(cs), acts);
    var w := Run(cs, Init(cs), acts);
    if w.proc.state == Sleeping {
      forall k | 0 <= k < |cs| && (w.pc == Scan(0) || k < w.pc.i || w.pc == Await(w.pc.i, k)) && NonEmpty(w, k)
        ensures w.pending[k]
      {
        assert Watched(w, k);
        assert Covered(w, k);
      }
    }
  }

  /** No sender is restarted, and no handler waits. */
  predicate Plain(acts: seq<Action>) {
    forall i :: 0 <= i < |acts| ==> !acts[i].SenderRestarts? && !acts[i].Nested?
  }

  predicate InLoop(pc: Pc) {
    pc.Scan? || pc.Reading? || pc.Handling?
  }

  lemma {:induction false} PlainIsCareful(cs: Configs, w: World, acts: seq<Action>)
    requires Shape(cs, w) && InLoop(w.pc) && Plain(acts)
    ensures Careful(cs, w, acts) && InLoop(Run(cs, w, acts).pc)
    decreases |acts|
  {
    hide Ring.Step, Ring.Run;
    if acts != [] {
      assert !acts[0].SenderRestarts? && !acts[0].Nested?;
      assert forall i :: 0 <= i < |acts[1..]| ==> acts[1..][i] == acts[i + 1];
      PlainIsCareful(cs, Step(cs, w, acts[0]), acts[1..]);
    }
  }

  /**
   The plain handshake loses nothing under any interleaving: senders write and then make
   their Wakeup call, the receiver reads until all is empty and then makes its EnterSleep
   call. If it sleeps while any channel holds a message, that sender's call is still to come.
   */
  lemma PlainHandshake(cs: Configs, acts: seq<Action>)
    requires Plain(acts)
    ensures
      var w := Run(cs, Init(cs), acts);
      w.proc.state == Sleeping ==>
        && w.pc == Scan(0)
        && forall k :: 0 <= k < |cs| && NonEmpty(w, k) ==>
             w.pending[k] && Step(cs, w, SenderWakeup(k)).proc.state == Ready
  {
    hide Careful, NonEmpty, Step;
    PlainIsCareful(cs, Init(cs), acts);
    NoLostWakeup(cs, acts);
  }

  /**
   An event is delivered exactly when the kernel channel has room; either way the
   wakeup is counted. The kernel writes whole messages, so its side is always idle.
   */
  lemma EventDeliveredExactly(cs: Configs, w: World, j: nat, msg: Ring.Msg)
    requires Shape(cs, w) && RingsInv(cs, w) && j < |cs|
    requires w.rings[j].writer.WIdle? && |msg| == cs[j].messageSize
    ensures
      var t := Step(cs, w, KernelEvent(j, msg));
      && (t.rings[j].written == w.rings[j].written + [msg] <==> Ring.InFlight(w.rings[j]) < cs[j].Max() - 1)
      && (Ring.InFlight(w.rings[j]) >= cs[j].Max() - 1 ==> t.rings == w.rings)
      && t.proc == w.proc.Wakeup().1 && t.rings[j].writer.WIdle?
  {
    hide Ring.Inv, Ring.Run, Ring.Config.Max, Ring.Blit;
    Ring.WriteCallEffect(cs[j], w.rings[j], msg);
    Ring.InFlightBound(cs[j], w.rings[j]);
    if Ring.InFlight(w.rings[j]) == cs[j].Max() - 1 {
      assert w.rings[j := w.rings[j]] == w.rings;
    }
  }

  /** The receiver passes channel k in its scan, or sleeps for it in a handler, only when k is empty at that step. */
  lemma ScanPassesOnlyEmpty(cs: Configs, acts: seq<Action>, timer: Option<Timer>)
    ensures
      var w := Run(cs, Init(cs), acts);
      var t := ReceiverStep(cs, w, timer);
      w.proc.state == Ready ==>
        && (w.pc.Scan? && w.pc.i < |cs| ==> (t.pc == Scan(w.pc.i + 1) <==> !NonEmpty(w, w.pc.i)))
        && (w.pc.Await? ==> w.pc.k < |cs| && (t.pc == Doze(w.pc.i, w.pc.k) <==> !NonEmpty(w, w.pc.k)))
  {
    hide Ring.Inv, NonEmpty, ReadHead;
    InitInv(cs);
    RunInv(cs, Init(cs), acts);
    var w := Run(cs, Init(cs), acts);
    if w.proc.state == Ready {
      if w.pc.Scan? && w.pc.i < |cs| {
        ReadHeadInv(cs, w, w.pc.i, Scan(w.pc.i + 1), Reading(w.pc.i));
      }
      if w.pc.Await? {
        ReadHeadInv(cs, w, w.pc.k, Doze(w.pc.i, w.pc.k), Fetching(w.pc.i, w.pc.k));
      }
    }
  }
}
