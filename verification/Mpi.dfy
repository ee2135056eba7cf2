/** Message passing between cores over rings in one shared block (lib/libmpi/MpiTarget.cpp). */
module Mpi {
  import opened Basics
  import Ring

  /** One node's view: the shared block, its own core and the number of cores. */
  datatype Node = Node(phys: nat, coreId: nat, coreCount: nat) {

    /** getMemoryBaseRead */
    function ReadBase(core: nat): nat {
      var base := phys + PAGESIZE * 2 * core;
      if coreId == 0 then base else base + PAGESIZE * 2 * coreCount
    }

    /** getMemoryBaseWrite */
    function WriteBase(core: nat): nat {
      var base := phys + PAGESIZE * 2 * core;
      if coreId == 0 then base + PAGESIZE * 2 * coreCount else base
    }
  }

  /** A data page and a feedback page. */
  const WINDOW: nat := 2 * PAGESIZE

  predicate Apart(a: nat, b: nat) {
    a + WINDOW <= b || b + WINDOW <= a
  }

  /** Master and slave place each direction at the same pages: what the slaves write comes first, two pages for each core. */
  lemma WindowsAgree(phys: nat, coreCount: nat, i: nat)
    requires 1 <= i < coreCount
    ensures
      var master, slave := Node(phys, 0, coreCount), Node(phys, i, coreCount);
      && master.WriteBase(i) == slave.ReadBase(i) == phys + 0x2000 * (coreCount + i)
      && master.ReadBase(i) == slave.WriteBase(i) == phys + 0x2000 * i
  {
  }

  /** For any number of cores, no two windows overlap and all lie inside the block the master maps. */
  lemma WindowsDisjoint(phys: nat, coreCount: nat, i: nat, j: nat)
    requires 1 <= i < coreCount && 1 <= j < coreCount
    ensures
      var m := Node(phys, 0, coreCount);
      && Apart(m.ReadBase(i), m.WriteBase(j))
      && (i != j ==> Apart(m.ReadBase(i), m.ReadBase(j)) && Apart(m.WriteBase(i), m.WriteBase(j)))
      && phys <= m.ReadBase(i) && m.WriteBase(i) + WINDOW <= phys + PAGESIZE * 2 * coreCount * 2
  {
  }

  // ----------------------------------------------------------- send and receive

  /** Whose turn it is to make one memory step. */
  datatype Turn = Sender | Receiver

  /** The sender's next step inside send(buf): retry the write of the next element, or go on with the current one. */
  function SendAction(s: Ring.State, buf: seq<Ring.Msg>): Ring.Action {
    if s.writer.WIdle? && |s.written| < |buf| then Ring.BeginWrite(buf[|s.written|]) else Ring.WriteStep
  }

  /** The receiver's next step inside receive(count): retry the read, or go on with the current one. */
  function ReceiveAction(s: Ring.State): Ring.Action {
    if s.reader.RIdle? then Ring.BeginRead else Ring.ReadStep
  }

  function Exchange(c: Ring.Config, s: Ring.State, buf: seq<Ring.Msg>, turns: seq<Turn>): Ring.State
    requires c.Valid()
    decreases |turns|
  {
    if turns == [] then s
    else
      var a := if turns[0] == Sender then SendAction(s, buf) else ReceiveAction(s);
      Exchange(c, Ring.Step(c, s, a), buf, turns[1..])
  }

  /** Only elements of the buffer are sent, in order. */
  ghost predicate InOrder(s: Ring.State, buf: seq<Ring.Msg>) {
    && s.written <= buf
    && (!s.writer.WIdle? ==> |s.written| < |buf| && s.writer.msg == buf[|s.written|])
  }

  lemma {:induction false} ExchangeInv(c: Ring.Config, s: Ring.State, buf: seq<Ring.Msg>, turns: seq<Turn>)
    requires c.Valid() && Ring.Inv(c, s) && InOrder(s, buf)
    ensures var t := Exchange(c, s, buf, turns); Ring.Inv(c, t) && InOrder(t, buf)
    decreases |turns|
  {
    hide Ring.Inv;
    if turns != [] {
      var a := if turns[0] == Sender then SendAction(s, buf) else ReceiveAction(s);
      Ring.StepInv(c, s, a);
      ExchangeInv(c, Ring.Step(c, s, a), buf, turns[1..]);
    }
  }

  lemma ReadIsPrefix(c: Ring.Config, s: Ring.State)
    requires c.Valid() && Ring.Inv(c, s)
    ensures s.read <= s.written
  {
  }

  /**
   Under every interleaving of the memory steps of a send and a receive, what
   has been received is a prefix of what was given to send, in order; a receive
   of as many elements returns exactly the sent buffer.
   */
  lemma ReceivedIsSent(c: Ring.Config, buf: seq<Ring.Msg>, turns: seq<Turn>)
    requires c.Valid()
    ensures
      var s := Exchange(c, Ring.Init(), buf, turns);
      s.read <= buf && (|s.read| == |buf| ==> s.read == buf)
  {
    hide Ring.Inv;
    Ring.InitInv(c);
    ExchangeInv(c, Ring.Init(), buf, turns);
    ReadIsPrefix(c, Exchange(c, Ring.Init(), buf, turns));
  }

  // ------------------------------------------------------------------ progress

  /** The steps of `n` messages on one side: a begin, its bytes, moving on and publishing. */
  function Steps(n: int, messageSize: nat): int {
    n * (messageSize + 3)
  }

  lemma StepsLess(n: int, m: nat)
    ensures Steps(n - 1, m) == Steps(n, m) - (m + 3)
    ensures n > 0 ==> Steps(n, m) >= m + 3
    ensures n == 0 ==> Steps(n, m) == 0
  {
    if n > 0 {
      MulMono(1, n, m + 3);
    }
  }

  /** The steps that the sender and the receiver still have to make. */
  function Left(c: Ring.Config, s: Ring.State, buf: seq<Ring.Msg>): int {
    var m := c.messageSize;
    Steps(|buf| - |s.written|, m) + Steps(|buf| - |s.read|, m)
    - (match s.writer case WIdle => 0 case WCopy(_, k) => 1 + k case WPublish(_) => m + 2)
    - (match s.reader case RIdle => 0 case RCopy(b) => 1 + |b| case RPublish(_) => m + 2)
  }

  function Turned(c: Ring.Config, s: Ring.State, buf: seq<Ring.Msg>, turn: Turn): Ring.State
    requires c.Valid()
  {
    Ring.Step(c, s, if turn == Sender then SendAction(s, buf) else ReceiveAction(s))
  }

  /** What the invariant says about the places inside a write and a read. */
  lemma Places(c: Ring.Config, s: Ring.State)
    requires c.Valid() && Ring.Inv(c, s)
    ensures s.writer.WCopy? ==> |s.writer.msg| == c.messageSize && s.writer.k <= c.messageSize
    ensures s.reader.RCopy? ==> |s.reader.buf| <= c.messageSize
    ensures |s.read| <= |s.written| && (!s.reader.RIdle? ==> |s.read| < |s.written|)
  {
  }

  /** Every turn either changes nothing or leaves fewer steps to make. */
  lemma TurnProgress(c: Ring.Config, s: Ring.State, buf: seq<Ring.Msg>, turn: Turn)
    requires c.Valid() && Ring.Inv(c, s) && InOrder(s, buf)
    ensures
      var t := Turned(c, s, buf, turn);
      && Ring.Inv(c, t) && InOrder(t, buf)
      && (t == s || Left(c, t, buf) < Left(c, s, buf))
  {
    hide Ring.Inv, Ring.Config.Max, Ring.IsFull, Ring.Poke, Ring.Peek, Steps;
    Places(c, s);
    Ring.StepInv(c, s, if turn == Sender then SendAction(s, buf) else ReceiveAction(s));
    StepsLess(|buf| - |s.written|, c.messageSize);
    StepsLess(|buf| - |s.read|, c.messageSize);
  }

  /** While something is left to receive, the sender or the receiver can go on. */
  lemma NotStuck(c: Ring.Config, s: Ring.State, buf: seq<Ring.Msg>)
    requires c.Valid() && c.Max() >= 2 && Ring.Inv(c, s) && InOrder(s, buf) && |s.read| < |buf|
    requires forall msg :: msg in buf ==> |msg| == c.messageSize
    ensures Turned(c, s, buf, Sender) != s || Turned(c, s, buf, Receiver) != s
  {
    hide Ring.Inv, Ring.Config.Max, Ring.IsFull, Ring.Poke, Ring.Peek;
    Places(c, s);
    if s.reader.RIdle? && s.writer.WIdle? {
      Ring.EmptyExactly(c, s);
      Ring.FullExactly(c, s);
      if |s.written| < |buf| {
        assert buf[|s.written|] in buf;
      }
    } else if !s.reader.RIdle? {
      ReaderGoesOn(c, s, buf);
    } else {
      WriterGoesOn(c, s, buf);
    }
  }

  lemma ReaderGoesOn(c: Ring.Config, s: Ring.State, buf: seq<Ring.Msg>)
    requires c.Valid() && !s.reader.RIdle?
    ensures Turned(c, s, buf, Receiver) != s
  {
    assert Turned(c, s, buf, Receiver).reader != s.reader;
  }

  lemma WriterGoesOn(c: Ring.Config, s: Ring.State, buf: seq<Ring.Msg>)
    requires c.Valid() && !s.writer.WIdle?
    ensures Turned(c, s, buf, Sender) != s
  {
    assert Turned(c, s, buf, Sender).writer != s.writer;
  }

  lemma {:induction false} ExchangeLeft(c: Ring.Config, s: Ring.State, buf: seq<Ring.Msg>, turns: seq<Turn>)
    requires c.Valid() && Ring.Inv(c, s) && InOrder(s, buf)
    ensures Left(c, Exchange(c, s, buf, turns), buf) <= Left(c, s, buf)
    decreases |turns|
  {
    hide Ring.Inv, Left, Ring.Step, InOrder, SendAction, ReceiveAction;
    if turns != [] {
      TurnProgress(c, s, buf, turns[0]);
      ExchangeLeft(c, Turned(c, s, buf, turns[0]), buf, turns[1..]);
    }
  }

  /** A turn that can go on does so, unless another one went on before it. */
  lemma {:induction false} TurnCounts(c: Ring.Config, s: Ring.State, buf: seq<Ring.Msg>, turns: seq<Turn>, turn: Turn)
    requires c.Valid() && Ring.Inv(c, s) && InOrder(s, buf) && turn in turns && Turned(c, s, buf, turn) != s
    ensures Left(c, Exchange(c, s, buf, turns), buf) < Left(c, s, buf)
    decreases |turns|
  {
    hide Ring.Inv, Left, Ring.Step, InOrder, SendAction, ReceiveAction;
    var t := Turned(c, s, buf, turns[0]);
    TurnProgress(c, s, buf, turns[0]);
    if t == s {
      TurnCounts(c, s, buf, turns[1..], turn);
    } else {
      ExchangeLeft(c, t, buf, turns[1..]);
    }
  }

  /** Rounds of turns one after the other. */
  function Rounds(c: Ring.Config, s: Ring.State, buf: seq<Ring.Msg>, rounds: seq<seq<Turn>>): Ring.State
    requires c.Valid()
    decreases |rounds|
  {
    if rounds == [] then s else Rounds(c, Exchange(c, s, buf, rounds[0]), buf, rounds[1..])
  }

  predicate BothTurn(round: seq<Turn>) {
    Sender in round && Receiver in round
  }

  lemma LeftBound(c: Ring.Config, s: Ring.State, buf: seq<Ring.Msg>)
    requires c.Valid() && Ring.Inv(c, s) && InOrder(s, buf)
    ensures Left(c, s, buf) >= 0 && |s.read| <= |buf|
  {
    hide Ring.Inv, Steps;
    Places(c, s);
    StepsLess(|buf| - |s.written|, c.messageSize);
    StepsLess(|buf| - |s.read|, c.messageSize);
  }

  lemma {:induction false} RoundsArrive(c: Ring.Config, s: Ring.State, buf: seq<Ring.Msg>, rounds: seq<seq<Turn>>)
    requires c.Valid() && c.Max() >= 2 && Ring.Inv(c, s) && InOrder(s, buf)
    requires forall msg :: msg in buf ==> |msg| == c.messageSize
    requires (forall round :: round in rounds ==> BothTurn(round)) && |rounds| >= Left(c, s, buf)
    ensures Rounds(c, s, buf, rounds).read == buf
    decreases |rounds|
  {
    hide Ring.Inv, Left, Ring.Step, SendAction, ReceiveAction, Ring.Config.Max;
    LeftBound(c, s, buf);
    ReadIsPrefix(c, s);
    if |s.read| == |buf| {
      AllThere(c, s, buf, rounds);
    } else {
      NotStuck(c, s, buf);
      if rounds == [] {
        NothingLeft(c, s, buf);
        assert false;
      } else {
        assert BothTurn(rounds[0]);
        TurnCounts(c, s, buf, rounds[0], if Turned(c, s, buf, Sender) != s then Sender else Receiver);
        ExchangeInv(c, s, buf, rounds[0]);
        RoundsArrive(c, Exchange(c, s, buf, rounds[0]), buf, rounds[1..]);
      }
    }
  }

  lemma NothingLeft(c: Ring.Config, s: Ring.State, buf: seq<Ring.Msg>)
    requires c.Valid() && Ring.Inv(c, s) && InOrder(s, buf) && Left(c, s, buf) <= 0
    ensures |s.read| == |buf|
  {
    hide Ring.Inv, Steps;
    Places(c, s);
    StepsLess(|buf| - |s.written|, c.messageSize);
    StepsLess(|buf| - |s.read|, c.messageSize);
  }

  lemma {:induction false} AllThere(c: Ring.Config, s: Ring.State, buf: seq<Ring.Msg>, rounds: seq<seq<Turn>>)
    requires c.Valid() && Ring.Inv(c, s) && InOrder(s, buf) && |s.read| == |buf|
    ensures Rounds(c, s, buf, rounds).read == buf
    decreases |rounds|
  {
    hide Ring.Inv, Ring.Step;
    ReadIsPrefix(c, s);
    if rounds != [] {
      var t := Exchange(c, s, buf, rounds[0]);
      ExchangeInv(c, s, buf, rounds[0]);
      ReadIsPrefix(c, t);
      ReadKept(c, s, buf, rounds[0]);
      AllThere(c, t, buf, rounds[1..]);
    }
  }

  lemma {:induction false} ReadKept(c: Ring.Config, s: Ring.State, buf: seq<Ring.Msg>, turns: seq<Turn>)
    requires c.Valid()
    ensures |Exchange(c, s, buf, turns).read| >= |s.read|
    decreases |turns|
  {
    if turns != [] {
      ReadKept(c, Turned(c, s, buf, turns[0]), buf, turns[1..]);
    }
  }

  /**
   A send and a receive of the same buffer finish: on a usable ring, after as many rounds as
   each element takes twice its bytes and six steps, in each of which both sides make at
   least one step in any order, the whole buffer has arrived.
   */
  lemma EverythingArrives(c: Ring.Config, buf: seq<Ring.Msg>, rounds: seq<seq<Turn>>)
    requires c.Valid() && 3 * c.messageSize <= PAGESIZE
    requires forall msg :: msg in buf ==> |msg| == c.messageSize
    requires (forall round :: round in rounds ==> BothTurn(round)) && |rounds| >= 2 * |buf| * (c.messageSize + 3)
    ensures Rounds(c, Ring.Init(), buf, rounds).read == buf
  {
    hide Ring.Inv, Ring.Config.Max, Left, Rounds;
    Ring.InitInv(c);
    Ring.UsableSize(c);
    StartLeft(c, buf);
    RoundsArrive(c, Ring.Init(), buf, rounds);
  }

  lemma StartLeft(c: Ring.Config, buf: seq<Ring.Msg>)
    ensures Left(c, Ring.Init(), buf) == 2 * |buf| * (c.messageSize + 3)
    ensures InOrder(Ring.Init(), buf)
  {
  }
}
