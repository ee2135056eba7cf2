/**
 The message ring of lib/libipc/MemoryChannel.cpp as a state machine.

 One producer and one consumer share a data page (ring head word, then message
 slots) and a feedback page (the consumer's head word). Every access to shared
 memory is a separate step: reading a head word, copying one byte of a slot,
 publishing a head word. Either side may also restart at any point and
 re-attach with a soft reset. Memory is sequentially consistent and head words
 are read and written whole.
 */
module Ring {
  import opened Basics

  type Msg = seq<byte>

  /** `headSize` is sizeof(RingHead), which differs between 32-bit and 64-bit builds. */
  datatype Config = Config(messageSize: nat, headSize: nat) {

    /** What the constructor asserts about the message size. */
    predicate Valid() {
      0 < headSize <= messageSize < PAGESIZE / 2
    }

    /** m_maximumMessages */
    function Max(): (n: nat)
      requires Valid()
      ensures n >= 1
    {
      PAGESIZE / messageSize - 1
    }

    /** Byte offset of slot `i` in the data page. */
    function Offset(i: nat): nat {
      (i + 1) * messageSize
    }
  }

  /** Where the producer is inside MemoryChannel::write. */
  datatype Writer = WIdle | WCopy(msg: Msg, k: nat) | WPublish(msg: Msg)

  /** Where the consumer is inside MemoryChannel::read. */
  datatype Reader = RIdle | RCopy(buf: Msg) | RPublish(buf: Msg)

  /**
   `written` and `read` are the histories of published and returned messages,
   `seen` the numbers of the messages the consumer copied out completely.
   */
  datatype State = State(
    dataHead: nat, feedHead: nat, data: seq<byte>,
    whead: nat, writer: Writer,
    rhead: nat, reader: Reader,
    written: seq<Msg>, read: seq<Msg>, seen: seq<nat>, readerRestarts: nat)

  datatype Action =
    | BeginWrite(msg: Msg)
    | WriteStep
    | BeginRead
    | ReadStep
    | RestartWriter
    | RestartReader

  /** Both pages zeroed by the kernel, both endpoints hard reset. */
  function Init(): State {
    State(0, 0, seq(PAGESIZE, _ => 0), 0, WIdle, 0, RIdle, [], [], [], 0)
  }

  function Poke(data: seq<byte>, offset: nat, b: byte): (r: seq<byte>)
    ensures |r| == |data|
  {
    if offset < |data| then data[offset := b] else data
  }

  function Peek(data: seq<byte>, offset: nat): byte {
    if offset < |data| then data[offset] else 0
  }

  /** The test of MemoryChannel::write for a full ring. */
  predicate IsFull(c: Config, whead: nat, feedHead: nat)
    requires c.Valid()
  {
    (whead + 1) % c.Max() == feedHead
  }

  function Step(c: Config, s: State, a: Action): State
    requires c.Valid()
  {
    match a
    case BeginWrite(msg) =>
      if s.writer.WIdle? && |msg| == c.messageSize && !IsFull(c, s.whead, s.feedHead)
      then s.(writer := WCopy(msg, 0))
      else s
    case WriteStep =>
      (match s.writer
       case WIdle => s
       case WCopy(msg, k) =>
         if k < c.messageSize && k < |msg| then
           s.(data := Poke(s.data, c.Offset(s.whead) + k, msg[k]), writer := WCopy(msg, k + 1))
         else
           s.(whead := (s.whead + 1) % c.Max(), writer := WPublish(msg))
       case WPublish(msg) =>
         s.(dataHead := s.whead, written := s.written + [msg], writer := WIdle))
    case BeginRead =>
      if s.reader.RIdle? && s.dataHead != s.rhead then s.(reader := RCopy([])) else s
    case ReadStep =>
      (match s.reader
       case RIdle => s
       case RCopy(buf) =>
         if |buf| < c.messageSize then
           s.(reader := RCopy(buf + [Peek(s.data, c.Offset(s.rhead) + |buf|)]))
         else
           s.(rhead := (s.rhead + 1) % c.Max(), reader := RPublish(buf), seen := s.seen + [|s.read|])
       case RPublish(buf) =>
         s.(feedHead := s.rhead, read := s.read + [buf], reader := RIdle))
    case RestartWriter =>
      s.(whead := s.dataHead, writer := WIdle)
    case RestartReader =>
      s.(rhead := s.feedHead, reader := RIdle, readerRestarts := s.readerRestarts + 1)
  }

  function Run(c: Config, s: State, acts: seq<Action>): State
    requires c.Valid()
    decreases |acts|
  {
    if acts == [] then s else Run(c, Step(c, s, acts[0]), acts[1..])
  }

  /** The bytes of slot `i`. */
  function Slot(c: Config, data: seq<byte>, i: nat): seq<byte>
    requires c.Offset(i) + c.messageSize <= |data|
  {
    data[c.Offset(i)..c.Offset(i) + c.messageSize]
  }

  // ---------------------------------------------------------------- geometry

  /** Every slot lies inside the page and behind the head word. */
  lemma SlotInPage(c: Config, i: nat)
    requires c.Valid() && i < c.Max()
    ensures c.headSize <= c.Offset(i) && c.Offset(i) + c.messageSize <= PAGESIZE
  {
    var m := c.messageSize;
    var q := PAGESIZE / m;
    DivTimes(PAGESIZE, m);
    MulMono(i + 2, q, m);
    MulMono(1, i + 1, m);
    assert (i + 2) * m == (i + 1) * m + m;
  }

  /** Distinct slots do not overlap. */
  lemma SlotsApart(c: Config, i: nat, j: nat)
    requires c.Valid() && i < j
    ensures c.Offset(i) + c.messageSize <= c.Offset(j)
  {
    var m := c.messageSize;
    MulMono(i + 2, j + 1, m);
    assert (i + 2) * m == (i + 1) * m + m;
  }

  /** Writing a byte of one slot leaves every other slot alone. */
  lemma PokeKeepsOtherSlots(c: Config, data: seq<byte>, i: nat, k: nat, b: byte, j: nat)
    requires c.Valid() && |data| == PAGESIZE
    requires i < c.Max() && j < c.Max() && i != j && k < c.messageSize
    requires c.Offset(j) + c.messageSize <= PAGESIZE
    ensures Slot(c, Poke(data, c.Offset(i) + k, b), j) == Slot(c, data, j)
  {
    if i < j { SlotsApart(c, i, j); } else { SlotsApart(c, j, i); }
  }

  // --------------------------------------------------------------- invariant

  /** Messages published and not yet returned by read. */
  function InFlight(s: State): int {
    |s.written| - |s.read|
  }

  ghost predicate Indices(c: Config, s: State)
    requires c.Valid()
  {
    var n := c.Max();
    && |s.data| == PAGESIZE
    && s.dataHead == |s.written| % n
    && s.feedHead == |s.read| % n
    && 0 <= InFlight(s) < n
    && s.whead == (if s.writer.WPublish? then |s.written| + 1 else |s.written|) % n
    && s.rhead == (if s.reader.RPublish? then |s.read| + 1 else |s.read|) % n
    && (!s.writer.WIdle? ==> InFlight(s) + 1 < n)
    && (!s.reader.RIdle? ==> InFlight(s) > 0)
  }

  /** Message number `j` sits intact in its slot. */
  ghost predicate Holds(c: Config, data: seq<byte>, j: nat, msg: Msg)
    requires c.Valid() && |data| == PAGESIZE
  {
    var i := j % c.Max();
    && c.Offset(i) + c.messageSize <= PAGESIZE
    && Slot(c, data, i) == msg
  }

  ghost predicate Contents(c: Config, s: State)
    requires c.Valid() && Indices(c, s)
  {
    && (forall j :: 0 <= j < |s.written| ==> |s.written[j]| == c.messageSize)
    && (forall j :: |s.read| <= j < |s.written| ==> Holds(c, s.data, j, s.written[j]))
    && s.read == s.written[..|s.read|]
  }

  ghost predicate WriterInv(c: Config, s: State)
    requires c.Valid() && Indices(c, s)
  {
    match s.writer
    case WIdle => true
    case WCopy(msg, k) =>
      && |msg| == c.messageSize && k <= c.messageSize
      && c.Offset(s.whead) + c.messageSize <= PAGESIZE
      && s.data[c.Offset(s.whead)..c.Offset(s.whead) + k] == msg[..k]
    case WPublish(msg) =>
      && |msg| == c.messageSize
      && Holds(c, s.data, |s.written|, msg)
  }

  ghost predicate ReaderInv(c: Config, s: State)
    requires c.Valid() && Indices(c, s)
  {
    match s.reader
    case RIdle => true
    case RCopy(buf) =>
      |buf| <= |s.written[|s.read|]| && buf == s.written[|s.read|][..|buf|]
    case RPublish(buf) => buf == s.written[|s.read|]
  }

  /** `seen` counts up one by one, repeating a number only across a restart. */
  ghost predicate SeenInv(s: State) {
    var frontier := |s.read| + if s.reader.RPublish? then 1 else 0;
    && (s.seen == [] ==> frontier == 0)
    && (s.seen != [] ==> s.seen[0] == 0 && frontier - 1 <= s.seen[|s.seen| - 1] <= |s.read|)
    && (forall i :: 0 <= i < |s.seen| - 1 ==> s.seen[i] <= s.seen[i + 1] <= s.seen[i] + 1)
    && frontier <= |s.seen| <= frontier + s.readerRestarts
  }

  ghost predicate Inv(c: Config, s: State)
    requires c.Valid()
  {
    Indices(c, s) && Contents(c, s) && WriterInv(c, s) && ReaderInv(c, s) && SeenInv(s)
  }

  lemma InitInv(c: Config)
    requires c.Valid()
    ensures Inv(c, Init())
  {
  }

  /** A slot that already held message `j` still does after a step of the copy into slot |written|. */
  lemma CopyKeepsUnread(c: Config, s: State, j: nat)
    requires c.Valid() && Inv(c, s) && s.writer.WCopy? && s.writer.k < c.messageSize
    requires |s.read| <= j < |s.written|
    ensures Holds(c, Step(c, s, WriteStep).data, j, s.written[j])
  {
    var n := c.Max();
    var i := j % n;
    assert Holds(c, s.data, j, s.written[j]);
    assert i != s.whead by { ModDistinct(j, |s.written|, n); }
    assert i < n && s.whead < n;
    PokeKeepsOtherSlots(c, s.data, s.whead, s.writer.k, s.writer.msg[s.writer.k], i);
  }

  lemma CopyByteInv(c: Config, s: State)
    requires c.Valid() && Inv(c, s) && s.writer.WCopy? && s.writer.k < c.messageSize
    ensures Inv(c, Step(c, s, WriteStep))
  {
    var t := Step(c, s, WriteStep);
    forall j | |s.read| <= j < |s.written|
      ensures Holds(c, t.data, j, t.written[j])
    {
      CopyKeepsUnread(c, s, j);
    }
    var o, k, msg := c.Offset(s.whead), s.writer.k, s.writer.msg;
    assert t.data[o..o + k + 1] == s.data[o..o + k] + [msg[k]];
    assert msg[..k + 1] == msg[..k] + [msg[k]];
  }

  lemma PublishInv(c: Config, s: State)
    requires c.Valid() && Inv(c, s)
    requires s.writer.WPublish? || (s.writer.WCopy? && s.writer.k >= c.messageSize)
    ensures Inv(c, Step(c, s, WriteStep))
  {
    hide Config.Max;
    var t := Step(c, s, WriteStep);
    ModNext(|s.written|, c.Max());
    if s.writer.WCopy? {
      assert s.writer.msg[..c.messageSize] == s.writer.msg;
      assert Holds(c, t.data, |s.written|, s.writer.msg);
    } else {
      forall j | |t.read| <= j < |t.written|
        ensures Holds(c, t.data, j, t.written[j])
      {
        if j < |s.written| { assert Holds(c, s.data, j, s.written[j]); }
      }
      assert t.written[..|t.read|] == s.written[..|s.read|];
    }
  }

  lemma ReadStepInv(c: Config, s: State)
    requires c.Valid() && Inv(c, s) && !s.reader.RIdle?
    ensures Inv(c, Step(c, s, ReadStep))
  {
    hide Config.Max;
    var t := Step(c, s, ReadStep);
    var r := |s.read|;
    ModNext(r, c.Max());
    if s.reader.RCopy? {
      var msg, buf := s.written[r], s.reader.buf;
      assert Holds(c, s.data, r, msg);
      if |buf| < c.messageSize {
        assert Slot(c, s.data, r % c.Max())[|buf|] == s.data[c.Offset(s.rhead) + |buf|];
        assert msg[..|buf| + 1] == msg[..|buf|] + [msg[|buf|]];
      } else {
        assert buf == msg;
      }
    } else {
      assert s.written[..r + 1] == s.written[..r] + [s.written[r]];
    }
  }

  lemma BeginInv(c: Config, s: State, a: Action)
    requires c.Valid() && Inv(c, s) && (a.BeginWrite? || a.BeginRead?)
    ensures Inv(c, Step(c, s, a))
  {
    var n := c.Max();
    ModNext(|s.written|, n);
    if a.BeginWrite? && InFlight(s) + 1 == n {
      FullExactly(c, s);
    }
    if s.writer.WIdle? {
      assert s.whead < n;
      SlotInPage(c, s.whead);
      assert s.data[c.Offset(s.whead)..c.Offset(s.whead) + 0] == [];
    }
  }

  /** The producer's test is exact: with an idle producer the ring tests full iff all Max-1 usable slots are taken. */
  lemma FullExactly(c: Config, s: State)
    requires c.Valid() && Inv(c, s) && !s.writer.WPublish?
    ensures IsFull(c, s.whead, s.feedHead) <==> InFlight(s) == c.Max() - 1
  {
    hide Contents, WriterInv, ReaderInv, SeenInv, Config.Max;
    ModNext(|s.written|, c.Max());
    WrapsExactly(|s.written|, |s.read|, c.Max());
  }

  /** The next write index meets the read index exactly when all but one of `n` places are taken. */
  lemma WrapsExactly(w: nat, r: nat, n: nat)
    requires 0 <= w - r < n
    ensures (w + 1) % n == r % n <==> w - r == n - 1
  {
    if w + 1 - r < n {
      ModDistinct(r, w + 1, n);
    } else {
      var q := r / n;
      assert r == n * q + r % n;
      assert n * (q + 1) == n * q + n;
      ModUnique(w + 1, n, q + 1, r % n);
    }
  }

  /** The consumer's test is exact: with an idle consumer the heads agree iff nothing is in flight. */
  lemma EmptyExactly(c: Config, s: State)
    requires c.Valid() && Inv(c, s) && !s.reader.RPublish?
    ensures 0 <= InFlight(s)
    ensures s.dataHead == s.rhead <==> InFlight(s) == 0
  {
    if |s.read| < |s.written| {
      ModDistinct(|s.read|, |s.written|, c.Max());
    }
  }

  lemma StepInv(c: Config, s: State, a: Action)
    requires c.Valid() && Inv(c, s)
    ensures Inv(c, Step(c, s, a))
  {
    match a
    case BeginWrite(_) => BeginInv(c, s, a);
    case BeginRead => BeginInv(c, s, a);
    case WriteStep =>
      if s.writer.WCopy? && s.writer.k < c.messageSize {
        CopyByteInv(c, s);
      } else if !s.writer.WIdle? {
        PublishInv(c, s);
      }
    case ReadStep =>
      if !s.reader.RIdle? { ReadStepInv(c, s); }
    case RestartWriter =>
    case RestartReader =>
  }

  lemma {:induction false} RunInv(c: Config, s: State, acts: seq<Action>)
    requires c.Valid() && Inv(c, s)
    ensures Inv(c, Run(c, s, acts))
    decreases |acts|
  {
    hide Inv, Step;
    if acts != [] {
      StepInv(c, s, acts[0]);
      RunInv(c, Step(c, s, acts[0]), acts[1..]);
    }
  }

  // ------------------------------------------------------------ main results

  /**
   Safety under every interleaving of the two sides' memory steps, with any
   number of restarts: what was read is a prefix of what was written, at most
   Max-1 messages are in flight, a message being read is never half-written,
   and an unread slot is never overwritten.
   */
  lemma RingSafety(c: Config, acts: seq<Action>)
    requires c.Valid()
    ensures
      var s := Run(c, Init(), acts);
      && s.read <= s.written
      && |s.written| - |s.read| <= c.Max() - 1
      && (s.reader.RCopy? ==> |s.read| < |s.written| && s.reader.buf <= s.written[|s.read|])
      && (s.reader.RPublish? ==> |s.read| < |s.written| && s.reader.buf == s.written[|s.read|])
      && (forall j :: |s.read| <= j < |s.written| ==>
            |s.data| == PAGESIZE && Holds(c, s.data, j, s.written[j]))
  {
    InitInv(c);
    RunInv(c, Init(), acts);
  }

  /** Every byte the producer or the consumer touches is inside a slot: in the page and behind the head word. */
  lemma AccessesInPage(c: Config, acts: seq<Action>)
    requires c.Valid()
    ensures
      var s := Run(c, Init(), acts);
      && (s.writer.WCopy? && s.writer.k < c.messageSize ==>
            c.headSize <= c.Offset(s.whead) + s.writer.k < PAGESIZE == |s.data|)
      && (s.reader.RCopy? && |s.reader.buf| < c.messageSize ==>
            c.headSize <= c.Offset(s.rhead) + |s.reader.buf| < PAGESIZE == |s.data|)
  {
    InitInv(c);
    RunInv(c, Init(), acts);
    var s := Run(c, Init(), acts);
    assert s.whead < c.Max() && s.rhead < c.Max();
    SlotInPage(c, s.whead);
    SlotInPage(c, s.rhead);
  }

  /**
   Restarts: in every run the consumer copies the messages out in order without
   skipping one, repeats a message only because of a restart of its own, and
   each restart repeats at most one message.
   */
  lemma RestartsRepeatAtMostOne(c: Config, acts: seq<Action>)
    requires c.Valid()
    ensures
      var s := Run(c, Init(), acts);
      && (s.seen != [] ==> s.seen[0] == 0)
      && (forall i :: 0 <= i < |s.seen| - 1 ==> s.seen[i] <= s.seen[i + 1] <= s.seen[i] + 1)
      && |s.read| <= |s.seen| <= |s.read| + 1 + s.readerRestarts
      && (|s.read| > 0 ==> s.seen != [] && s.seen[|s.seen| - 1] >= |s.read| - 1)
  {
    InitInv(c);
    RunInv(c, Init(), acts);
  }

  /**
   A soft reset leaves both histories and the slots as they were. It puts the producer
   before the slot of the next message, the consumer before the first message not yet
   acknowledged, and touches nothing of the other side.
   */
  lemma RestartKeepsPublished(c: Config, acts: seq<Action>, a: Action)
    requires c.Valid() && (a.RestartWriter? || a.RestartReader?)
    ensures
      var s := Run(c, Init(), acts);
      var t := Step(c, s, a);
      && t.written == s.written && t.read == s.read && t.data == s.data
      && Inv(c, t)
      && (a.RestartWriter? ==> t == s.(whead := |s.written| % c.Max(), writer := WIdle))
      && (a.RestartReader? ==>
            && t == s.(rhead := |s.read| % c.Max(), reader := RIdle, readerRestarts := s.readerRestarts + 1)
            && (InFlight(t) > 0 <==> t.dataHead != t.rhead))
  {
    InitInv(c);
    RunInv(c, Init(), acts);
    var s := Run(c, Init(), acts);
    assert Indices(c, s);
    hide Inv;
    StepInv(c, s, a);
    if a.RestartReader? {
      EmptyExactly(c, Step(c, s, a));
    }
  }

  /** The slots are as many messages as fit in the page behind a first message-sized place. */
  lemma SlotCountExactly(c: Config, n: nat)
    requires c.Valid()
    ensures n <= c.Max() <==> (n + 1) * c.messageSize <= PAGESIZE
  {
    var m := c.messageSize;
    DivTimes(PAGESIZE, m);
    if n <= c.Max() {
      MulMono(n + 1, PAGESIZE / m, m);
    } else {
      MulMono(PAGESIZE / m + 1, n + 1, m);
      assert (PAGESIZE / m + 1) * m == PAGESIZE / m * m + m;
    }
  }

  lemma UsableSize(c: Config)
    requires c.Valid()
    ensures c.Max() >= 2 <==> 3 * c.messageSize <= PAGESIZE
  {
    SlotCountExactly(c, 2);
  }

  // ------------------------------------- whole calls as uninterrupted step runs

  /** `n` copies of one action. */
  function Repeat(a: Action, n: nat): seq<Action> {
    seq(n, _ => a)
  }

  /** The steps of one whole call of MemoryChannel::write. */
  function WriteCall(c: Config, msg: Msg): seq<Action> {
    [BeginWrite(msg)] + Repeat(WriteStep, c.messageSize + 2)
  }

  /** The steps of one whole call of MemoryChannel::read. */
  function ReadCall(c: Config): seq<Action> {
    [BeginRead] + Repeat(ReadStep, c.messageSize + 2)
  }

  /** `data` with `msg` placed at `offset`. */
  function Blit(data: seq<byte>, offset: nat, msg: Msg): seq<byte>
    requires offset + |msg| <= |data|
  {
    data[..offset] + msg + data[offset + |msg|..]
  }

  lemma {:induction false} RunAppend(c: Config, s: State, xs: seq<Action>, ys: seq<Action>)
    requires c.Valid()
    ensures Run(c, s, xs + ys) == Run(c, Run(c, s, xs), ys)
    decreases |xs|
  {
    if xs == [] {
      assert xs + ys == ys;
    } else {
      assert (xs + ys)[1..] == xs[1..] + ys;
      RunAppend(c, Step(c, s, xs[0]), xs[1..], ys);
    }
  }

  lemma RunRepeat(c: Config, s: State, a: Action, n: nat)
    requires c.Valid() && n > 0
    ensures Run(c, s, Repeat(a, n)) == Run(c, Step(c, s, a), Repeat(a, n - 1))
  {
    assert Repeat(a, n)[1..] == Repeat(a, n - 1);
  }

  lemma RunNone(c: Config, s: State, a: Action)
    requires c.Valid()
    ensures Run(c, s, Repeat(a, 0)) == s
  {
  }

  lemma CopyFacts(c: Config, s: State)
    requires c.Valid() && Inv(c, s) && s.writer.WCopy?
    ensures |s.writer.msg| == c.messageSize && s.writer.k <= c.messageSize
    ensures c.Offset(s.whead) + c.messageSize <= |s.data| == PAGESIZE
  {
  }

  lemma {:induction false} CopyLoop(c: Config, s: State, n: nat)
    requires c.Valid() && Inv(c, s) && s.writer.WCopy? && s.writer.k + n == c.messageSize
    ensures
      var o, k, msg := c.Offset(s.whead), s.writer.k, s.writer.msg;
      && |msg| == c.messageSize && o + c.messageSize <= |s.data|
      && Run(c, s, Repeat(WriteStep, n + 2)) ==
           var next := (s.whead + 1) % c.Max();
           s.(data := Blit(s.data, o + k, msg[k..]), whead := next, dataHead := next,
              written := s.written + [msg], writer := WIdle)
    decreases n
  {
    hide Inv, Config.Max, Run, Repeat;
    CopyFacts(c, s);
    var o, k, msg := c.Offset(s.whead), s.writer.k, s.writer.msg;
    var t := Step(c, s, WriteStep);
    RunRepeat(c, s, WriteStep, n + 2);
    if n == 0 {
      RunRepeat(c, t, WriteStep, 1);
      var u := Step(c, t, WriteStep);
      RunNone(c, u, WriteStep);
      assert Blit(s.data, o + k, msg[k..]) == s.data;
    } else {
      StepInv(c, s, WriteStep);
      CopyLoop(c, t, n - 1);
      assert Blit(t.data, o + k + 1, msg[k + 1..]) == Blit(s.data, o + k, msg[k..]);
    }
  }

  lemma InFlightBound(c: Config, s: State)
    requires c.Valid() && Inv(c, s)
    ensures 0 <= InFlight(s) <= c.Max() - 1
  {
  }

  lemma WriterPlace(c: Config, s: State)
    requires c.Valid() && Inv(c, s)
    ensures s.whead < c.Max() && |s.data| == PAGESIZE
  {
  }

  /** One uninterrupted write: refused exactly when the ring is full, else the message is in its slot and published. */
  lemma WriteCallEffect(c: Config, s: State, msg: Msg)
    requires c.Valid() && Inv(c, s) && s.writer.WIdle? && |msg| == c.messageSize
    ensures c.Offset(s.whead) + |msg| <= |s.data|
    ensures
      Run(c, s, WriteCall(c, msg)) ==
        if InFlight(s) == c.Max() - 1 then s
        else
          var next := (s.whead + 1) % c.Max();
          s.(data := Blit(s.data, c.Offset(s.whead), msg), whead := next, dataHead := next,
             written := s.written + [msg])
  {
    hide Inv, Config.Max, Repeat, Blit;
    WriterPlace(c, s);
    SlotInPage(c, s.whead);
    FullExactly(c, s);
    var t := Step(c, s, BeginWrite(msg));
    var rest := Repeat(WriteStep, c.messageSize + 2);
    assert WriteCall(c, msg)[1..] == rest;
    if InFlight(s) == c.Max() - 1 {
      IdleWriterStays(c, s, c.messageSize + 2);
    } else {
      StepInv(c, s, BeginWrite(msg));
      CopyLoop(c, t, c.messageSize);
      assert msg[0..] == msg;
    }
  }

  lemma {:induction false} IdleWriterStays(c: Config, s: State, n: nat)
    requires c.Valid() && s.writer.WIdle?
    ensures Run(c, s, Repeat(WriteStep, n)) == s
    decreases n
  {
    if n > 0 {
      RunRepeat(c, s, WriteStep, n);
      IdleWriterStays(c, s, n - 1);
    }
  }

  lemma {:induction false} IdleReaderStays(c: Config, s: State, n: nat)
    requires c.Valid() && s.reader.RIdle?
    ensures Run(c, s, Repeat(ReadStep, n)) == s
    decreases n
  {
    if n > 0 {
      RunRepeat(c, s, ReadStep, n);
      IdleReaderStays(c, s, n - 1);
    }
  }

  lemma {:induction false} ReadLoop(c: Config, s: State, n: nat)
    requires c.Valid() && Inv(c, s) && s.reader.RCopy? && |s.reader.buf| + n == c.messageSize
    ensures
      var next := (s.rhead + 1) % c.Max();
      Run(c, s, Repeat(ReadStep, n + 2)) ==
        s.(rhead := next, feedHead := next, read := s.read + [s.written[|s.read|]],
           seen := s.seen + [|s.read|], reader := RIdle)
    decreases n
  {
    var t := Step(c, s, ReadStep);
    StepInv(c, s, ReadStep);
    RunRepeat(c, s, ReadStep, n + 2);
    if n == 0 {
      RunRepeat(c, t, ReadStep, 1);
      var u := Step(c, t, ReadStep);
      assert Run(c, u, Repeat(ReadStep, 0)) == u;
    } else {
      ReadLoop(c, t, n - 1);
    }
  }

  /** One uninterrupted read: returns the oldest unread message, or NotFound exactly when none is in flight. */
  lemma ReadCallEffect(c: Config, s: State)
    requires c.Valid() && Inv(c, s) && s.reader.RIdle?
    ensures
      Run(c, s, ReadCall(c)) ==
        if InFlight(s) == 0 then s
        else
          var next := (s.rhead + 1) % c.Max();
          s.(rhead := next, feedHead := next, read := s.read + [s.written[|s.read|]],
             seen := s.seen + [|s.read|])
  {
    hide Inv, Config.Max, Repeat;
    EmptyExactly(c, s);
    var t := Step(c, s, BeginRead);
    assert ReadCall(c)[1..] == Repeat(ReadStep, c.messageSize + 2);
    if InFlight(s) == 0 {
      IdleReaderStays(c, s, c.messageSize + 2);
    } else {
      StepInv(c, s, BeginRead);
      ReadLoop(c, t, c.messageSize);
    }
  }

  /** With a single slot every write is refused. */
  lemma {:induction false} SingleSlotRefuses(c: Config, s: State, acts: seq<Action>)
    requires c.Valid() && c.Max() == 1 && Inv(c, s) && s.writer.WIdle? && s.written == []
    ensures Run(c, s, acts).written == []
    decreases |acts|
  {
    hide Inv, Config.Max, IsFull;
    if acts != [] {
      SingleSlotFull(c, s);
      StepInv(c, s, acts[0]);
      SingleSlotRefuses(c, Step(c, s, acts[0]), acts[1..]);
    }
  }

  lemma SingleSlotFull(c: Config, s: State)
    requires c.Valid() && c.Max() == 1 && Inv(c, s) && s.writer.WIdle? && s.written == []
    ensures IsFull(c, s.whead, s.feedHead)
  {
  }

  /** A new ring with a second slot takes any message and hands it over. */
  lemma FirstMessageArrives(c: Config, msg: Msg)
    requires c.Valid() && c.Max() >= 2 && |msg| == c.messageSize
    ensures
      var t := Run(c, Init(), WriteCall(c, msg) + ReadCall(c));
      t.written == [msg] && t.read == [msg]
  {
    hide Inv, Config.Max, WriteCall, ReadCall, Run;
    InitInv(c);
    var s := Run(c, Init(), WriteCall(c, msg));
    WriteCallEffect(c, Init(), msg);
    RunInv(c, Init(), WriteCall(c, msg));
    ReadCallEffect(c, s);
    RunAppend(c, Init(), WriteCall(c, msg), ReadCall(c));
  }

  /**
   A ring never carries a message in any run exactly when three messages do not fit
   in a page; otherwise every message gets through.
   */
  lemma UsableExactly(c: Config)
    requires c.Valid()
    ensures (forall acts :: Run(c, Init(), acts).written == []) <==> 3 * c.messageSize > PAGESIZE
    ensures 3 * c.messageSize <= PAGESIZE ==>
      forall msg: Msg :: |msg| == c.messageSize ==> Run(c, Init(), WriteCall(c, msg) + ReadCall(c)).read == [msg]
  {
    hide Inv, Config.Max, WriteCall, ReadCall, Run;
    UsableSize(c);
    InitInv(c);
    if 3 * c.messageSize > PAGESIZE {
      forall acts ensures Run(c, Init(), acts).written == [] {
        SingleSlotRefuses(c, Init(), acts);
      }
    } else {
      var zeros: Msg := seq(c.messageSize, _ => 0);
      FirstMessageArrives(c, zeros);
      assert Run(c, Init(), WriteCall(c, zeros) + ReadCall(c)).written != [];
      forall msg: Msg | |msg| == c.messageSize
        ensures Run(c, Init(), WriteCall(c, msg) + ReadCall(c)).read == [msg]
      {
        FirstMessageArrives(c, msg);
      }
    }
  }

  function ReadCalls(c: Config, n: nat): seq<Action> {
    if n == 0 then [] else ReadCall(c) + ReadCalls(c, n - 1)
  }

  /**
   No published message is ever lost: from every state reachable by any
   interleaving and any restarts, an idle consumer that makes one read call per
   message in flight has then returned exactly the written messages, in order.
   */
  lemma {:induction false} DrainDeliversAll(c: Config, s: State)
    requires c.Valid() && Inv(c, s) && s.reader.RIdle?
    ensures Run(c, s, ReadCalls(c, InFlight(s))).read == s.written
    decreases InFlight(s)
  {
    if InFlight(s) > 0 {
      var n := InFlight(s);
      ReadCallEffect(c, s);
      RunInv(c, s, ReadCall(c));
      RunAppend(c, s, ReadCall(c), ReadCalls(c, n - 1));
      DrainDeliversAll(c, Run(c, s, ReadCall(c)));
    }
  }

  /**
   After any interleaving and any restarts of either side, a consumer that
   re-attaches with a soft reset and keeps reading returns every published
   message exactly once and in order.
   */
  lemma NothingLost(c: Config, acts: seq<Action>)
    requires c.Valid()
    ensures
      var s := Step(c, Run(c, Init(), acts), RestartReader);
      && InFlight(s) >= 0
      && Run(c, s, ReadCalls(c, InFlight(s))).read == s.written == Run(c, Init(), acts).written
  {
    hide Inv, ReadCalls;
    InitInv(c);
    RunInv(c, Init(), acts);
    var s := Step(c, Run(c, Init(), acts), RestartReader);
    StepInv(c, Run(c, Init(), acts), RestartReader);
    EmptyExactly(c, s);
    DrainDeliversAll(c, s);
  }
}
