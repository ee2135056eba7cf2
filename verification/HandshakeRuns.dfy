/**
 Runs of the handshake that lose a wakeup: for every ring that can carry a message
 there is one with a sender restart and one with a handler that waits.
 */
module HandshakeRuns {
  import opened Basics
  import opened ProcessModel
  import opened Handshake
  import Ring

  ghost predicate Reaches(cs: Configs, w: World, t: World)
    requires Shape(cs, w)
  {
    exists acts :: Run(cs, w, acts) == t
  }

  lemma {:induction false} RunAppend(cs: Configs, w: World, xs: seq<Action>, ys: seq<Action>)
    requires Shape(cs, w)
    ensures Run(cs, w, xs + ys) == Run(cs, Run(cs, w, xs), ys)
    decreases |xs|
  {
    if xs == [] {
      assert xs + ys == ys;
    } else {
      assert (xs + ys)[1..] == xs[1..] + ys;
      RunAppend(cs, Step(cs, w, xs[0]), xs[1..], ys);
    }
  }

  lemma ReachesTrans(cs: Configs, a: World, b: World, c: World)
    requires Shape(cs, a) && Shape(cs, b) && Reaches(cs, a, b) && Reaches(cs, b, c)
    ensures Reaches(cs, a, c)
  {
    var xs :| Run(cs, a, xs) == b;
    var ys :| Run(cs, b, ys) == c;
    RunAppend(cs, a, xs, ys);
  }

  lemma ReachesStep(cs: Configs, w: World, a: Action)
    requires Shape(cs, w)
    ensures Reaches(cs, w, Step(cs, w, a))
  {
    hide Step;
    var t := Step(cs, w, a);
    assert [a][1..] == [];
    assert Run(cs, t, []) == t;
    assert Run(cs, w, [a]) == t;
  }

  // ------------------------------------------------------------ whole messages

  /** `s` with one more message, or one less, as far as the handshake can tell. */
  ghost predicate Idle(c: Ring.Config, s: Ring.State, n: nat)
    requires c.Valid()
  {
    Ring.Inv(c, s) && s.writer.WIdle? && s.reader.RIdle? && Ring.InFlight(s) == n
  }

  /** Sender j writes on without interruption; the call becomes due with the publication. */
  lemma {:induction false} WriteOn(cs: Configs, w: World, j: nat, n: nat)
    requires Shape(cs, w) && j < |cs| && Ring.Inv(cs[j], w.rings[j]) && !w.pending[j] && w.rings[j].writer.WCopy?
    requires w.rings[j].writer.k + n == cs[j].messageSize
    ensures Reaches(cs, w,
      w.(rings := w.rings[j := Ring.Run(cs[j], w.rings[j], Ring.Repeat(Ring.WriteStep, n + 2))],
         pending := w.pending[j := true]))
    decreases n
  {
    hide Ring.Inv, Ring.Run, Ring.Repeat, Reaches;
    var c, s := cs[j], w.rings[j];
    var t := Step(cs, w, WriteStep(j));
    ReachesStep(cs, w, WriteStep(j));
    Ring.RunRepeat(c, s, Ring.WriteStep, n + 2);
    Ring.CopyFacts(c, s);
    if n == 0 {
      var u := Step(cs, t, WriteStep(j));
      ReachesStep(cs, t, WriteStep(j));
      ReachesTrans(cs, w, t, u);
      Ring.RunRepeat(c, t.rings[j], Ring.WriteStep, 1);
      Ring.RunNone(c, u.rings[j], Ring.WriteStep);
      assert u.rings == w.rings[j := u.rings[j]] && u.pending == w.pending[j := true];
    } else {
      Ring.StepInv(c, s, Ring.WriteStep);
      WriteOn(cs, t, j, n - 1);
      var r := Ring.Run(c, t.rings[j], Ring.Repeat(Ring.WriteStep, n + 1));
      assert t.rings[j := r] == w.rings[j := r];
      ReachesTrans(cs, w, t, t.(rings := t.rings[j := r], pending := t.pending[j := true]));
    }
  }

  /** Sender j sends a message to a ring with room; its Wakeup call is then due. */
  lemma Publish(cs: Configs, w: World, j: nat, msg: Ring.Msg, n: nat) returns (s: Ring.State)
    requires Shape(cs, w) && j < |cs| && !w.pending[j] && |msg| == cs[j].messageSize
    requires Idle(cs[j], w.rings[j], n) && n + 1 < cs[j].Max()
    ensures Idle(cs[j], s, n + 1)
    ensures Reaches(cs, w, w.(rings := w.rings[j := s], pending := w.pending[j := true]))
  {
    hide Ring.Inv, Ring.Run, Ring.Repeat, Reaches, Ring.Config.Max;
    var c := cs[j];
    Ring.FullExactly(c, w.rings[j]);
    Ring.StepInv(c, w.rings[j], Ring.BeginWrite(msg));
    var t := Step(cs, w, BeginWrite(j, msg));
    ReachesStep(cs, w, BeginWrite(j, msg));
    WriteOn(cs, t, j, c.messageSize);
    s := Ring.Run(c, t.rings[j], Ring.Repeat(Ring.WriteStep, c.messageSize + 2));
    Ring.RunInv(c, t.rings[j], Ring.Repeat(Ring.WriteStep, c.messageSize + 2));
    Ring.CopyLoop(c, t.rings[j], c.messageSize);
    assert t.rings[j := s] == w.rings[j := s];
    ReachesTrans(cs, w, t, t.(rings := t.rings[j := s], pending := t.pending[j := true]));
  }

  /** A whole message with its Wakeup call. */
  lemma Send(cs: Configs, w: World, j: nat, msg: Ring.Msg, n: nat) returns (s: Ring.State)
    requires Shape(cs, w) && j < |cs| && !w.pending[j] && |msg| == cs[j].messageSize
    requires Idle(cs[j], w.rings[j], n) && n + 1 < cs[j].Max()
    ensures Idle(cs[j], s, n + 1)
    ensures Reaches(cs, w, w.(rings := w.rings[j := s], proc := w.proc.Wakeup().1))
  {
    hide Idle, Reaches, Ring.Config.Max;
    s := Publish(cs, w, j, msg, n);
    var t := w.(rings := w.rings[j := s], pending := w.pending[j := true]);
    ReachesStep(cs, t, SenderWakeup(j));
    assert t.pending[j := false] == w.pending;
    ReachesTrans(cs, w, t, Step(cs, t, SenderWakeup(j)));
  }

  /** The receiver reads channel k on without interruption and hands the message to the handler. */
  lemma {:induction false} FetchOn(cs: Configs, w: World, k: nat, n: nat)
    requires Shape(cs, w) && k < |cs| && Ring.Inv(cs[k], w.rings[k]) && w.rings[k].reader.RCopy?
    requires w.proc.state == Ready && Busy(w.pc) == Some(k)
    requires |w.rings[k].reader.buf| + n == cs[k].messageSize
    ensures Reaches(cs, w,
      w.(rings := w.rings[k := Ring.Run(cs[k], w.rings[k], Ring.Repeat(Ring.ReadStep, n + 2))], pc := Handling(w.pc.i)))
    decreases n
  {
    hide Ring.Inv, Ring.Run, Ring.Repeat, Reaches;
    var c, s := cs[k], w.rings[k];
    var t := Step(cs, w, Receive(None));
    ReachesStep(cs, w, Receive(None));
    Ring.RunRepeat(c, s, Ring.ReadStep, n + 2);
    if n == 0 {
      var u := Step(cs, t, Receive(None));
      ReachesStep(cs, t, Receive(None));
      ReachesTrans(cs, w, t, u);
      Ring.RunRepeat(c, t.rings[k], Ring.ReadStep, 1);
      Ring.RunNone(c, u.rings[k], Ring.ReadStep);
      assert u.rings == w.rings[k := u.rings[k]];
    } else {
      Ring.StepInv(c, s, Ring.ReadStep);
      FetchOn(cs, t, k, n - 1);
      var r := Ring.Run(c, t.rings[k], Ring.Repeat(Ring.ReadStep, n + 1));
      assert t.rings[k := r] == w.rings[k := r];
      ReachesTrans(cs, w, t, t.(rings := t.rings[k := r], pc := Handling(w.pc.i)));
    }
  }

  /** A whole read of a channel that holds a message, by the scan or by a handler. */
  lemma Fetch(cs: Configs, w: World, k: nat, n: nat) returns (s: Ring.State)
    requires Shape(cs, w) && k < |cs| && w.proc.state == Ready && Idle(cs[k], w.rings[k], n + 1)
    requires w.pc == Scan(k) || w.pc == Await(w.pc.i, k)
    ensures Idle(cs[k], s, n)
    ensures Reaches(cs, w, w.(rings := w.rings[k := s], pc := Handling(w.pc.i)))
  {
    hide Ring.Inv, Ring.Run, Ring.Repeat, Reaches, Ring.Config.Max;
    var c := cs[k];
    Ring.EmptyExactly(c, w.rings[k]);
    Ring.StepInv(c, w.rings[k], Ring.BeginRead);
    var t := Step(cs, w, Receive(None));
    ReachesStep(cs, w, Receive(None));
    FetchOn(cs, t, k, c.messageSize);
    s := Ring.Run(c, t.rings[k], Ring.Repeat(Ring.ReadStep, c.messageSize + 2));
    Ring.RunInv(c, t.rings[k], Ring.Repeat(Ring.ReadStep, c.messageSize + 2));
    Ring.ReadLoop(c, t.rings[k], c.messageSize);
    assert t.rings[k := s] == w.rings[k := s];
    ReachesTrans(cs, w, t, t.(rings := t.rings[k := s], pc := Handling(w.pc.i)));
  }

  /** The receiver finds channel k empty. */
  lemma Pass(cs: Configs, w: World, k: nat)
    requires Shape(cs, w) && k < |cs| && w.proc.state == Ready && Idle(cs[k], w.rings[k], 0)
    requires w.pc == Scan(k) || w.pc == Await(w.pc.i, k)
    ensures Reaches(cs, w, w.(pc := if w.pc.Scan? then Scan(k + 1) else Doze(w.pc.i, k)))
  {
    hide Ring.Inv, Reaches;
    Ring.EmptyExactly(cs[k], w.rings[k]);
    ReachesStep(cs, w, Receive(None));
  }

  lemma InitIdle(c: Ring.Config)
    requires c.Valid()
    ensures Idle(c, Ring.Init(), 0)
  {
    Ring.InitInv(c);
  }

  // ------------------------------------------------------------ the lost wakeups

  /** The receiver sleeps for good: a channel it waits for holds a message and no Wakeup call is due. */
  ghost predicate Lost(cs: Configs, w: World)
    requires Shape(cs, w)
  {
    && w.proc.state == Sleeping && w.pc == Scan(0)
    && (forall k :: 0 <= k < |cs| ==> !w.pending[k])
    && exists k :: 0 <= k < |cs| && NonEmpty(w, k)
  }

  /** A sender restarted between publishing and its Wakeup call leaves the receiver asleep. */
  lemma RestartLosesWakeup(c: Ring.Config, msg: Ring.Msg) returns (acts: seq<Action>)
    requires c.Valid() && c.Max() >= 2 && |msg| == c.messageSize
    ensures Lost([c], Run([c], Init([c]), acts))
  {
    hide Idle, Reaches, Ring.Config.Max;
    var cs: Configs := [c];
    var w := Init(cs);
    InitIdle(c);
    Pass(cs, w, 0);
    var a := w.(pc := Scan(1));
    var b := Step(cs, a, Receive(None));
    ReachesStep(cs, a, Receive(None));
    ReachesTrans(cs, w, a, b);
    var s := Publish(cs, b, 0, msg, 0);
    var d := b.(rings := b.rings[0 := s], pending := b.pending[0 := true]);
    ReachesTrans(cs, w, b, d);
    var e := Step(cs, d, SenderRestarts(0));
    ReachesStep(cs, d, SenderRestarts(0));
    ReachesTrans(cs, w, d, e);
    assert NonEmpty(e, 0) by { FullRing(c, s); }
    acts := RunOf(cs, w, e);
  }

  lemma FullRing(c: Ring.Config, s: Ring.State)
    requires c.Valid() && Idle(c, s, 1)
    ensures Ring.InFlight(s) > 0 && Ring.InFlight(Ring.Step(c, s, Ring.RestartWriter)) > 0
  {
  }

  lemma RunOf(cs: Configs, w: World, t: World) returns (acts: seq<Action>)
    requires Shape(cs, w) && Reaches(cs, w, t)
    ensures Run(cs, w, acts) == t
  {
    acts :| Run(cs, w, acts) == t;
  }

  /** One wait inside a handler: channel 1 was read, channel 0 got a message behind the scan, channel 2 is awaited. */
  lemma WaitTakesWakeup(cs: Configs, w: World, msg: Ring.Msg) returns (s0: Ring.State, s2: Ring.State)
    requires |cs| == 3 && Shape(cs, w) && w.pc == Handling(1) && w.proc.state == Ready
    requires w.pending == [false, false, false]
    requires (forall k :: 0 <= k < 3 ==> cs[k] == cs[0] && Idle(cs[k], w.rings[k], 0)) && cs[0].Max() >= 2
    requires |msg| == cs[0].messageSize
    ensures Idle(cs[0], s0, 1) && Idle(cs[2], s2, 1)
    ensures Reaches(cs, w,
      w.(rings := [s0, w.rings[1], s2], proc := w.proc.(wakeups := 0), pc := Await(1, 2)))
  {
    hide Idle, Reaches, Ring.Config.Max;
    s0 := Send(cs, w, 0, msg, 0);
    var a := w.(rings := w.rings[0 := s0], proc := w.proc.Wakeup().1);
    var b := Step(cs, a, Nested(2));
    ReachesStep(cs, a, Nested(2));
    ReachesTrans(cs, w, a, b);
    Pass(cs, b, 2);
    var d := b.(pc := Doze(1, 2));
    ReachesTrans(cs, w, b, d);
    s2 := Send(cs, d, 2, msg, 0);
    var e := d.(rings := d.rings[2 := s2], proc := d.proc.Wakeup().1);
    ReachesTrans(cs, w, d, e);
    var f := Step(cs, e, Receive(None));
    ReachesStep(cs, e, Receive(None));
    ReachesTrans(cs, w, e, f);
    assert f.rings == [s0, w.rings[1], s2];
  }

  /** The rest of the scan and the sleep behind it. */
  lemma ScanThenSleep(cs: Configs, w: World)
    requires |cs| == 3 && Shape(cs, w) && w.pc == Handling(1) && w.proc.state == Ready && w.proc.wakeups == 0
    requires Idle(cs[1], w.rings[1], 0) && Idle(cs[2], w.rings[2], 0)
    ensures Reaches(cs, w, w.(proc := w.proc.(state := Sleeping), pc := Scan(0)))
  {
    hide Idle, Reaches;
    var a := Step(cs, w, Receive(None));
    ReachesStep(cs, w, Receive(None));
    Pass(cs, a, 1);
    var b := a.(pc := Scan(2));
    ReachesTrans(cs, w, a, b);
    Pass(cs, b, 2);
    var d := b.(pc := Scan(3));
    ReachesTrans(cs, w, b, d);
    ReachesStep(cs, d, Receive(None));
    ReachesTrans(cs, w, d, Step(cs, d, Receive(None)));
  }

  /**
   A handler that waits for a reply takes the wakeup of a channel behind the scan:
   the reply comes between its last empty read and its EnterSleep call.
   */
  lemma NestedLosesWakeup(c: Ring.Config, msg: Ring.Msg) returns (acts: seq<Action>)
    requires c.Valid() && c.Max() >= 2 && |msg| == c.messageSize
    ensures Lost([c, c, c], Run([c, c, c], Init([c, c, c]), acts))
  {
    hide Idle, Reaches, Ring.Config.Max;
    var cs: Configs := [c, c, c];
    var w := Init(cs);
    InitIdle(c);
    var s1 := Send(cs, w, 1, msg, 0);
    var a := w.(rings := w.rings[1 := s1], proc := w.proc.Wakeup().1);
    Pass(cs, a, 0);
    var b := a.(pc := Scan(1));
    ReachesTrans(cs, w, a, b);
    var r1 := Fetch(cs, b, 1, 0);
    var d := b.(rings := b.rings[1 := r1], pc := Handling(1));
    ReachesTrans(cs, w, b, d);
    var s0, s2 := WaitTakesWakeup(cs, d, msg);
    var e := d.(rings := [s0, r1, s2], proc := d.proc.(wakeups := 0), pc := Await(1, 2));
    ReachesTrans(cs, w, d, e);
    var r2 := Fetch(cs, e, 2, 0);
    var f := e.(rings := e.rings[2 := r2], pc := Handling(1));
    ReachesTrans(cs, w, e, f);
    ScanThenSleep(cs, f);
    var g := f.(proc := f.proc.(state := Sleeping), pc := Scan(0));
    ReachesTrans(cs, w, f, g);
    assert NonEmpty(g, 0) by { FullRing(c, s0); }
    acts := RunOf(cs, w, g);
  }
}
