/** What the decoder does with frames and blocks that are given byte by byte, without the encoder. */
module Lz4Known {
  import opened Basics
  import opened Lz4Format
  import opened Lz4Decode
  import opened Lz4Proofs
  import opened Lz4Frame

  /** The maximum block size that the frame format gives for a size code: 64 KB, 256 KB, 1 MB and 4 MB. */
  function BlockLimit(code: nat): nat {
    if code == 4 then 64 * 1024 else if code == 5 then 256 * 1024 else if code == 6 then 1024 * 1024 else 4 * 1024 * 1024
  }

  /** `n` doublings. */
  function Doubled(x: nat, n: nat): nat {
    if n == 0 then x else 2 * Doubled(x, n - 1)
  }

  /** They are 2 to the power 8 + 2 * code. */
  lemma BlockLimitIs(code: nat)
    requires 4 <= code <= 7
    ensures BlockLimit(code) == Doubled(1, 8 + 2 * code)
  {
    assert Doubled(1, 8) == 256;
    assert Doubled(1, 16) == 0x1_0000;
    assert Doubled(1, 18) == 0x4_0000;
    assert Doubled(1, 20) == 0x10_0000;
    assert Doubled(1, 22) == 0x40_0000;
  }

  // -------------------------------------------------------------------- headers

  /** The first bytes of every frame. */
  predicate HasMagic(data: Bytes) {
    |data| >= 4 && data[0] == 0x04 && data[1] == 0x22 && data[2] == 0x4D && data[3] == 0x18
  }

  lemma MagicReads(data: Bytes)
    requires |data| >= 4
    ensures ReadLe32(data, 0) == FRAME_MAGIC <==> HasMagic(data)
  {
    var a, b, c, d := data[0] as nat, data[1] as nat, data[2] as nat, data[3] as nat;
    if a + 256 * b + 0x1_0000 * c + 0x100_0000 * d == 0x184D2204 {
      assert d == 0x18;
      assert c == 0x4D;
      assert b == 0x22;
    }
  }

  /** The bytes of a version 1 frame with independent blocks. */
  predicate HasFlags(data: Bytes) {
    |data| >= 27 && HasMagic(data) && 0x60 <= data[4] < 0x80
  }

  /** The content size that is in the frame, or else the one that an earlier call left. */
  function SizeOf(data: Bytes, size0: nat): nat
    requires |data| >= 27
  {
    if data[4] as nat / 8 % 2 == 0 then size0
    else
      data[6] as nat + 0x100 * data[7] as nat + 0x1_0000 * data[8] as nat + 0x100_0000 * data[9] as nat
      + 0x1_0000_0000 * (data[10] as nat + 0x100 * data[11] as nat + 0x1_0000 * data[12] as nat + 0x100_0000 * data[13] as nat)
  }

  /**
   Which inputs are accepted, by their bytes: at least 27 of them, the magic, version 1,
   independent blocks, a content size that is not zero, and a size code from 4 to 7; and
   what the parameters are then. Dependent blocks and a missing content size are not
   supported; everything else is invalid.
   */
  lemma AcceptedExactly(data: Bytes, size0: nat)
    ensures
      var r := Initialize(data, size0);
      && (r.Ready? <==> HasFlags(data) && SizeOf(data, size0) != 0 && 0x40 <= data[5] < 0x80)
      && (r == NotSupported <==>
            && |data| >= 27 && HasMagic(data)
            && (0x40 <= data[4] < 0x60 || (HasFlags(data) && SizeOf(data, size0) == 0)))
      && (r.Ready? ==>
            && r.header.maxBlock == BlockLimit(data[5] as nat / 16)
            && r.header.blockChecksums == (data[4] as nat / 16 % 2 == 1)
            && r.header.contentChecksum == (data[4] as nat / 4 % 2 == 1)
            && r.header.contentSize == SizeOf(data, size0)
            && r.header.descSize == 3 + (if data[4] as nat / 8 % 2 == 1 then 8 else 0) + (if data[4] as nat % 2 == 1 then 4 else 0))
  {
    hide ReadLe32, SizeOf;
    if |data| >= 27 {
      MagicReads(data);
      SizeReads(data, size0);
    }
  }

  lemma SizeReads(data: Bytes, size0: nat)
    requires |data| >= 27
    ensures SizeOf(data, size0) == if data[4] as nat / 8 % 2 == 0 then size0 else ReadLe64(data, 6)
  {
  }

  /**
   What a refused input leaves behind, by its bytes. The size of the descriptor starts
   again from 3; the other parameters change as far as the input was looked at.
   */
  lemma RefusedLeaves(data: Bytes, h: Header)
    ensures
      var s := Settled(data, h);
      && (!HasFlags(data) ==> s == h.(descSize := 3))
      && (HasFlags(data) ==>
            var given := if data[4] as nat / 8 % 2 == 1 then 8 else 0;
            && s.contentSize == SizeOf(data, h.contentSize)
            && s.blockChecksums == (data[4] as nat / 16 % 2 == 1)
            && (s.contentSize == 0 ==>
                  s.descSize == 3 + given && s.contentChecksum == h.contentChecksum && s.maxBlock == h.maxBlock)
            && (s.contentSize != 0 ==>
                  && s.descSize == 3 + given + (if data[4] as nat % 2 == 1 then 4 else 0)
                  && s.contentChecksum == (data[4] as nat / 4 % 2 == 1)
                  && s.maxBlock == if 0x40 <= data[5] < 0x80 then BlockLimit(data[5] as nat / 16) else h.maxBlock))
  {
    hide ReadLe32, SizeOf;
    if |data| >= 27 {
      MagicReads(data);
      SizeReads(data, h.contentSize);
    }
  }

  // -------------------------------------------------------------- stored blocks

  /** The number that four bytes stand for, least significant first. */
  predicate Spells(bytes: Bytes, n: nat)
    ensures Spells(bytes, n) ==> |bytes| == 4
  {
    |bytes| == 4 && n == bytes[0] as nat + bytes[1] as nat * 256 + bytes[2] as nat * 65536 + bytes[3] as nat * 16777216
  }

  /** A frame of one stored block: magic, flags, size code, content size, dictionary, header checksum, block, end mark. */
  function StoredFrame(blockSum: Option<Bytes>, contentSum: bool, dict: Option<Bytes>, code: nat, low: Bytes, high: Bytes,
                       check: byte, length: Bytes, x: Bytes, rest: Bytes): Bytes
    requires 4 <= code <= 7
  {
    [0x04, 0x22, 0x4D, 0x18,
     (0x68 + (if blockSum.Some? then 0x10 else 0) + (if contentSum then 0x04 else 0) + if dict.Some? then 0x01 else 0) as byte,
     (code * 0x10) as byte]
    + (low + (high + ((if dict.Some? then dict.value else []) + ([check]
    + (length + (x + ((if blockSum.Some? then blockSum.value else []) + rest)))))))
  }

  /**
   Such a frame is accepted, and reading it yields the block when the block is no longer
   than its size code allows, and fails when it is.
   */
  lemma StoredFrameReads(blockSum: Option<Bytes>, contentSum: bool, dict: Option<Bytes>, code: nat, low: Bytes, high: Bytes,
                         check: byte, length: Bytes, x: Bytes, rest: Bytes, buf: Bytes)
    requires 4 <= code <= 7 && 0 < |x| < 0x8000_0000 && |x| <= |buf|
    requires Spells(low, |x|) && Spells(high, 0) && Spells(length, |x| + 0x8000_0000)
    requires (blockSum.Some? ==> |blockSum.value| == 4) && (dict.Some? ==> |dict.value| == 4)
    requires |StoredFrame(blockSum, contentSum, dict, code, low, high, check, length, x, rest)| >= 27
    ensures
      var data := StoredFrame(blockSum, contentSum, dict, code, low, high, check, length, x, rest);
      var r := Initialize(data, 0);
      && r.Ready?
      && Read(data, r.header, buf, |x|) == if |x| <= BlockLimit(code) then Done(x + buf[|x|..]) else Fault
  {
    hide Initialize, ReadLe32, ReadLe64, Paste, StoredFrame, ReadLoop, BlockLimit, SizeOf, Spells, HasMagic;
    var data := StoredFrame(blockSum, contentSum, dict, code, low, high, check, length, x, rest);
    AcceptedExactly(data, 0);
    HeaderBytes(blockSum, contentSum, dict, code, low, high, check, length, x, rest);
    BlockBytes(blockSum, contentSum, dict, code, low, high, check, length, x, rest);
    SomeSize(data, low, |x|);
    var pos := if dict.Some? then 19 else 15;
    var h := Initialize(data, 0).header;
    assert h.descSize + 4 == pos;
    WordIs(data, pos, length, |x| + 0x8000_0000);
    StoredRead(data, h, pos, x, buf, code);
  }

  lemma HeaderBytes(blockSum: Option<Bytes>, contentSum: bool, dict: Option<Bytes>, code: nat, low: Bytes, high: Bytes,
                    check: byte, length: Bytes, x: Bytes, rest: Bytes)
    requires 4 <= code <= 7 && |low| == 4
    ensures
      var data := StoredFrame(blockSum, contentSum, dict, code, low, high, check, length, x, rest);
      && HasMagic(data) && |data| >= 10 && data[6..10] == low && data[5] as nat == code * 16
      && 0x60 <= data[4] < 0x80 && data[4] as nat / 8 % 2 == 1 && (data[4] as nat % 2 == 1 <==> dict.Some?)
  {
    var head: Bytes := [0x04, 0x22, 0x4D, 0x18,
      (0x68 + (if blockSum.Some? then 0x10 else 0) + (if contentSum then 0x04 else 0) + if dict.Some? then 0x01 else 0) as byte,
      (code * 0x10) as byte];
    var tail := high + ((if dict.Some? then dict.value else []) + ([check]
      + (length + (x + ((if blockSum.Some? then blockSum.value else []) + rest)))));
    SliceAfter(head, low, tail);
  }

  /** What follows in front. */
  lemma SliceAfter(a: Bytes, b: Bytes, c: Bytes)
    ensures (a + (b + c))[..|a|] == a && (a + (b + c))[|a|..|a| + |b|] == b && (a + (b + c))[|a|..] == b + c
  {
  }

  lemma BlockBytes(blockSum: Option<Bytes>, contentSum: bool, dict: Option<Bytes>, code: nat, low: Bytes, high: Bytes,
                   check: byte, length: Bytes, x: Bytes, rest: Bytes)
    requires 4 <= code <= 7 && |low| == |high| == |length| == 4 && (dict.Some? ==> |dict.value| == 4)
    ensures
      var data := StoredFrame(blockSum, contentSum, dict, code, low, high, check, length, x, rest);
      var pos := if dict.Some? then 19 else 15;
      && pos + 4 + |x| <= |data| && data[pos..pos + 4] == length && data[pos + 4..pos + 4 + |x|] == x
  {
    var head: Bytes := [0x04, 0x22, 0x4D, 0x18,
      (0x68 + (if blockSum.Some? then 0x10 else 0) + (if contentSum then 0x04 else 0) + if dict.Some? then 0x01 else 0) as byte,
      (code * 0x10) as byte];
    var d := if dict.Some? then dict.value else [];
    var end := (if blockSum.Some? then blockSum.value else []) + rest;
    Layout(head, low, high, d, [check], length, x, end);
  }

  lemma Layout(head: Bytes, low: Bytes, high: Bytes, d: Bytes, check: Bytes, length: Bytes, x: Bytes, end: Bytes)
    ensures
      var data := head + (low + (high + (d + (check + (length + (x + end))))));
      var n := |head| + |low| + |high| + |d| + |check|;
      && n + |length| + |x| <= |data|
      && data[n..n + |length|] == length && data[n + |length|..n + |length| + |x|] == x
  {
    Regroup(head, low, high + (d + (check + (length + (x + end)))));
    Regroup(head + low, high, d + (check + (length + (x + end))));
    Regroup(head + low + high, d, check + (length + (x + end)));
    Regroup(head + low + high + d, check, length + (x + end));
    TwoSlices(head + low + high + d + check, length, x, end);
  }

  lemma Regroup(a: Bytes, b: Bytes, c: Bytes)
    ensures a + (b + c) == (a + b) + c
  {
  }

  lemma TwoSlices(front: Bytes, a: Bytes, b: Bytes, end: Bytes)
    ensures
      var data, n := front + (a + (b + end)), |front|;
      data[n..n + |a|] == a && data[n + |a|..n + |a| + |b|] == b
  {
    SliceAfter(front, a, b + end);
    Regroup(front, a, b + end);
    SliceAfter(front + a, b, end);
  }

  lemma SomeSize(data: Bytes, low: Bytes, n: nat)
    requires |data| >= 27 && data[4] as nat / 8 % 2 == 1 && data[6..10] == low && Spells(low, n) && n > 0
    ensures SizeOf(data, 0) != 0
  {
    assert data[6] == low[0] && data[7] == low[1] && data[8] == low[2] && data[9] == low[3];
  }

  lemma WordIs(data: Bytes, pos: nat, bytes: Bytes, n: nat)
    requires pos + 4 <= |data| && data[pos..pos + 4] == bytes && Spells(bytes, n)
    ensures ReadLe32(data, pos) == n
  {
    assert data[pos] == bytes[0] && data[pos + 1] == bytes[1] && data[pos + 2] == bytes[2] && data[pos + 3] == bytes[3];
  }

  lemma StoredRound(data: Bytes, h: Header, pos: nat, x: Bytes, buf: Bytes, max: nat)
    requires 0 < |x| < 0x8000_0000 && |x| <= |buf| && pos + 4 + |x| <= |data| && data[pos + 4..pos + 4 + |x|] == x
    requires ReadLe32(data, pos) == |x| + 0x8000_0000 && h.maxBlock == max
    ensures OneRound(data, h, pos, buf, 0, |x|) ==
      if |x| <= max then Done(More(pos + 4 + |x| + (if h.blockChecksums then 4 else 0), Paste(buf, 0, x), |x|)) else Fault
  {
    hide ReadLe32, Decode, Paste;
    var word := |x| + 0x8000_0000;
    assert word % HIGH_BIT == |x| && word / HIGH_BIT % 2 == 1;
  }

  lemma LoopStep(data: Bytes, h: Header, pos: nat, buf: Bytes, copied: nat, size: nat)
    ensures ReadLoop(data, h, pos, buf, copied, size) ==
      match OneRound(data, h, pos, buf, copied, size)
      case Fault => Fault
      case Done(End) => Done(buf)
      case Done(More(p, b, c)) => ReadLoop(data, h, p, b, c, size)
  {
    hide OneRound;
  }

  lemma PasteFront(buf: Bytes, x: Bytes)
    requires |x| <= |buf|
    ensures Paste(buf, 0, x) == x + buf[|x|..]
  {
  }

  lemma StoredRead(data: Bytes, h: Header, pos: nat, x: Bytes, buf: Bytes, code: nat)
    requires 0 < |x| < 0x8000_0000 && |x| <= |buf| && pos + 4 + |x| <= |data| && data[pos + 4..pos + 4 + |x|] == x
    requires ReadLe32(data, pos) == |x| + 0x8000_0000 && h.maxBlock == BlockLimit(code)
    ensures ReadLoop(data, h, pos, buf, 0, |x|) == if |x| <= BlockLimit(code) then Done(x + buf[|x|..]) else Fault
  {
    hide OneRound, ReadLoop, ReadLe32, BlockLimit, Paste;
    StoredRound(data, h, pos, x, buf, BlockLimit(code));
    PasteFront(buf, x);
    LoopStep(data, h, pos, buf, 0, |x|);
    if |x| <= BlockLimit(code) {
      LoopEnds(data, h, pos + 4 + |x| + (if h.blockChecksums then 4 else 0), Paste(buf, 0, x), |x|, |x|, []);
    }
  }

  // --------------------------------------------------------------- compressed blocks

  /** Decoding the bytes of a block in front of anything writes `out`. */
  ghost predicate Yields(block: Bytes, out: Bytes) {
    forall rest: Bytes, buf: Bytes | |out| <= |buf| ::
      var r := Decode(block + rest, |block|, 0, |out|, Progress(0, 0, buf));
      r.Done? && r.value.made == |out| && r.value.buf == out + buf[|out|..]
  }

  lemma YieldsExpansion(b: Block)
    requires ValidBlock(b) && |Expand(b)| < U32
    ensures Yields(EncodeBlock(b), Expand(b))
  {
    hide Decode, Expand, EncodeBlock, ValidBlock;
    var block, out := EncodeBlock(b), Expand(b);
    forall rest: Bytes, buf: Bytes | |out| <= |buf|
      ensures
        var r := Decode(block + rest, |block|, 0, |out|, Progress(0, 0, buf));
        r.Done? && r.value.made == |out| && r.value.buf == out + buf[|out|..]
    {
      assert (block + rest)[0..|block|] == block;
      assert Paste(buf, 0, out) == out + buf[|out|..];
      DecodeUndoesEncode(block + rest, 0, b, buf, 0, |out|);
    }
  }

  lemma OneSequence(s: Sequence)
    requires ValidSequence([], s)
    ensures
      var b := Block([s], NoLast);
      && ValidBlock(b)
      && EncodeBlock(b) == EncodeSequence(s)
      && Expand(b) == s.literals + Match(s.literals, s.offset, s.matchLen)
  {
    hide Match, EncodeSequence;
    var seqs := [s];
    assert seqs[1..] == [] && [] + s.literals == s.literals;
    assert EncodeSequence(s) + EncodeLast(NoLast) == EncodeSequence(s);
    assert EncodeFrom(Lz4Format.Apply([], s), seqs[1..], NoLast) == EncodeLast(NoLast);
    assert ExpandFrom(Lz4Format.Apply([], s), seqs[1..], NoLast) == Lz4Format.Apply([], s) + [];
  }

  /** A block of one sequence, given by its bytes and by what it stands for. */
  lemma SequenceYields(s: Sequence, bytes: Bytes, out: Bytes)
    requires ValidSequence([], s) && EncodeSequence(s) == bytes
    requires s.literals + Match(s.literals, s.offset, s.matchLen) == out && |out| < U32
    ensures Yields(bytes, out)
  {
    hide Yields, EncodeSequence, Match, EncodeBlock, Expand, ValidBlock;
    OneSequence(s);
    YieldsExpansion(Block([s], NoLast));
  }

  /** One literal and a match with two continuation bytes that overlaps itself: a run of 275 + `k` equal bytes. */
  lemma RunOfOne(b: byte, k: byte)
    requires k < 255
    ensures Yields([0x1F, b, 0x01, 0x00, 0xFF, k], seq(275 + k as nat, _ => b))
  {
    hide Yields;
    var s := Sequence([b], 1, 274 + k as nat);
    RunBytes(b, k);
    var out := seq(275 + k as nat, _ => b);
    assert [b] + Match([b], 1, 274 + k as nat) == out;
    SequenceYields(s, [0x1F, b, 0x01, 0x00, 0xFF, k], out);
  }

  lemma RunBytes(b: byte, k: byte)
    requires k < 255
    ensures EncodeSequence(Sequence([b], 1, 274 + k as nat)) == [0x1F, b, 0x01, 0x00, 0xFF, k]
  {
    hide Extra, Token;
    assert Extra(255 + k as nat) == [255, k] by { ExtraTwo(k); }
    assert Token(1, 15) as nat == 0x1F;
    assert LengthBytes(270 + k as nat) == [255, k] && LengthBytes(1) == [];
    assert Le16(1) == [1, 0];
  }

  lemma ExtraTwo(k: byte)
    requires k < 255
    ensures Extra(255 + k as nat) == [255, k] && Extra(k as nat) == [k]
  {
  }

  /** Two literals and the shortest match two bytes back. */
  lemma PairThrice(x: byte, y: byte)
    ensures Yields([0x20, x, y, 0x02, 0x00], [x, y, x, y, x, y])
  {
    hide Yields;
    var s := Sequence([x, y], 2, 4);
    PairBytes(x, y);
    assert Match([x, y], 2, 4) == [x, y, x, y];
    assert [x, y] + [x, y, x, y] == [x, y, x, y, x, y];
    SequenceYields(s, [0x20, x, y, 0x02, 0x00], [x, y, x, y, x, y]);
  }

  lemma PairBytes(x: byte, y: byte)
    ensures EncodeSequence(Sequence([x, y], 2, 4)) == [0x20, x, y, 0x02, 0x00]
  {
    hide Token;
    assert Token(2, 0) as nat == 0x20;
    assert LengthBytes(2) == [] && LengthBytes(0) == [] && Le16(2) == [2, 0];
  }

  /** 256 literals, with a continuation byte, and a match with an offset of two bytes: the first five again. */
  lemma FarBack(x: Bytes)
    requires |x| == 256
    ensures Yields([0xF1, 0xF1] + x + [0x00, 0x01], x + x[..5])
  {
    hide Yields;
    var s := Sequence(x, 256, 5);
    FarBytes(x);
    assert Match(x, 256, 5) == x[..5];
    SequenceYields(s, [0xF1, 0xF1] + x + [0x00, 0x01], x + x[..5]);
  }

  lemma FarBytes(x: Bytes)
    requires |x| == 256
    ensures EncodeSequence(Sequence(x, 256, 5)) == [0xF1, 0xF1] + x + [0x00, 0x01]
  {
    hide Token, Extra;
    ExtraTwo(241);
    assert Token(15, 1) as nat == 0xF1;
    assert LengthBytes(256) == [241] && LengthBytes(1) == [] && Le16(256) == [0, 1];
  }

  lemma {:induction false} CopyOntoItself(buf: Bytes, at: nat, n: nat)
    requires at + n <= |buf|
    ensures CopyWithin(buf, at, at, n) == buf
    decreases n
  {
    if n > 0 {
      assert buf[at := buf[at]] == buf;
      CopyOntoItself(buf, at + 1, n - 1);
    }
  }

  /** An offset of zero is not refused: the match stands for whatever was in the buffer there. */
  lemma ZeroOffset(x: byte, rest: Bytes, buf: Bytes)
    requires |buf| >= 5
    ensures
      var data := [0x10, x, 0x00, 0x00] + rest;
      Decode(data, 4, 0, 5, Progress(0, 0, buf)) == Done(Progress(4, 5, [x] + buf[1..]))
  {
    hide CopyWithin, Decode;
    var data: Bytes := [0x10, x, 0x00, 0x00] + rest;
    var after := [x] + buf[1..];
    assert data[0] == 0x10 && data[1] == x && data[2] == 0 && data[3] == 0;
    assert data[1..2] == [x] && Paste(buf, 0, [x]) == after;
    assert LiteralStep(data, 0, Progress(0, 0, buf)) == Done(Progress(2, 1, after));
    CopyOntoItself(after, 1, 4);
    assert MatchStep(data, data[0], 0, Progress(2, 1, after)) == Done(Progress(4, 5, after));
    DecodeTwice(data, buf, after);
  }

  lemma DecodeTwice(data: Bytes, buf: Bytes, after: Bytes)
    requires |data| >= 4 && |buf| >= 5
    requires LiteralStep(data, 0, Progress(0, 0, buf)) == Done(Progress(2, 1, after))
    requires MatchStep(data, data[0], 0, Progress(2, 1, after)) == Done(Progress(4, 5, after))
    ensures Decode(data, 4, 0, 5, Progress(0, 0, buf)) == Done(Progress(4, 5, after))
  {
    hide LiteralStep, MatchStep;
    assert Decode(data, 4, 0, 5, Progress(4, 5, after)) == Done(Progress(4, 5, after));
  }

  /** A last sequence has literals only. */
  lemma LiteralsOnly(x: byte, y: byte, z: byte)
    ensures Yields([0x30, x, y, z], [x, y, z])
  {
    hide Yields, Token;
    var b := Block([], Last([x, y, z], 0));
    assert Token(3, 0) as nat == 0x30;
    assert EncodeBlock(b) == [0x30, x, y, z];
    assert Expand(b) == [x, y, z];
    YieldsExpansion(b);
  }
}
