/** LZ4 frames, after the LZ4 Frame Format Description: layout, header parsing, and reading a whole frame. */
module Lz4Frame {
  import opened Basics
  import opened Lz4Format
  import opened Lz4Decode
  import opened Lz4Proofs

  const FRAME_MAGIC: nat := 0x184D2204
  const HIGH_BIT: nat := 0x8000_0000

  // ------------------------------------------------------------------ layout

  function Le32(n: nat): (r: Bytes)
    requires n < U32
    ensures |r| == 4
  {
    [(n % 256) as byte, (n / 256 % 256) as byte, (n / 0x1_0000 % 256) as byte, (n / 0x100_0000) as byte]
  }

  function Le64(n: nat): (r: Bytes)
    requires n < U32 * U32
    ensures |r| == 8
  {
    assert n / U32 < U32;
    Le32(n % U32) + Le32(n / U32)
  }

  datatype FrameBlock = Compressed(block: Block) | Stored(bytes: Bytes)

  /** A block with its checksum field, which is present only when the frame says so. */
  datatype Item = Item(block: FrameBlock, checksum: Bytes)

  /** `sizeCode` 4 to 7 selects the maximum block size; `trailer` is whatever follows the end mark. */
  datatype Frame = Frame(
    blockChecksums: bool, contentChecksum: bool, dictId: Option<Bytes>, sizeCode: nat, headerChecksum: byte,
    items: seq<Item>, trailer: Bytes)

  function MaxBlock(code: nat): nat {
    if code == 4 then 0x1_0000 else if code == 5 then 0x4_0000 else if code == 6 then 0x10_0000 else 0x40_0000
  }

  predicate ValidFrameBlock(b: FrameBlock) {
    b.Compressed? ==> ValidBlock(b.block)
  }

  function Payload(b: FrameBlock): Bytes
    requires ValidFrameBlock(b)
  {
    if b.Compressed? then EncodeBlock(b.block) else b.bytes
  }

  function Content(b: FrameBlock): Bytes
    requires ValidFrameBlock(b)
  {
    if b.Compressed? then Expand(b.block) else b.bytes
  }

  predicate ValidItem(it: Item, blockChecksums: bool, max: nat) {
    && ValidFrameBlock(it.block)
    && 0 < |Payload(it.block)| <= max && |Content(it.block)| <= max
    && |it.checksum| == (if blockChecksums then 4 else 0)
  }

  predicate ValidItems(items: seq<Item>, blockChecksums: bool, max: nat) {
    forall it :: it in items ==> ValidItem(it, blockChecksums, max)
  }

  function Contents(items: seq<Item>): Bytes
    requires forall it :: it in items ==> ValidFrameBlock(it.block)
  {
    if items == [] then [] else Content(items[0].block) + Contents(items[1..])
  }

  function EncodeItem(it: Item): (r: Bytes)
    requires ValidFrameBlock(it.block) && |Payload(it.block)| < HIGH_BIT
  {
    Le32(|Payload(it.block)| + if it.block.Stored? then HIGH_BIT else 0) + (Payload(it.block) + it.checksum)
  }

  function EncodeItems(items: seq<Item>): Bytes
    requires forall it :: it in items ==> ValidFrameBlock(it.block) && |Payload(it.block)| < HIGH_BIT
  {
    if items == [] then [] else EncodeItem(items[0]) + EncodeItems(items[1..])
  }

  predicate ValidFrame(f: Frame) {
    && 4 <= f.sizeCode <= 7
    && ValidItems(f.items, f.blockChecksums, MaxBlock(f.sizeCode))
    && (f.dictId.Some? ==> |f.dictId.value| == 4)
    && 0 < |Contents(f.items)| < U32 * U32
  }

  function Bit(b: bool): nat {
    if b then 1 else 0
  }

  /** Version 1, independent blocks, content size present. */
  function Flags(f: Frame): (r: byte)
    ensures
      var n := r as nat;
      && n / 64 == 1 && n / 32 % 2 == 1 && n / 8 % 2 == 1
      && n / 16 % 2 == Bit(f.blockChecksums) && n / 4 % 2 == Bit(f.contentChecksum) && n % 2 == Bit(f.dictId.Some?)
  {
    (64 + 32 + 16 * Bit(f.blockChecksums) + 8 + 4 * Bit(f.contentChecksum) + Bit(f.dictId.Some?)) as byte
  }

  function DictBytes(f: Frame): Bytes {
    if f.dictId.Some? then f.dictId.value else []
  }

  /** Magic, flags, block size code, content size, dictionary, header checksum. */
  function EncodeHeader(f: Frame): Bytes
    requires ValidFrame(f)
  {
    Le32(FRAME_MAGIC) + ([Flags(f), (f.sizeCode * 16) as byte]
    + (Le64(|Contents(f.items)|) + (DictBytes(f) + [f.headerChecksum])))
  }

  function EncodeFrame(f: Frame): Bytes
    requires ValidFrame(f)
  {
    EncodeHeader(f) + (EncodeItems(f.items) + (Le32(0) + f.trailer))
  }

  // ----------------------------------------------------------------- parsing

  function ReadLe32(data: Bytes, pos: nat): nat
    requires pos + 4 <= |data|
  {
    data[pos] as nat + 256 * data[pos + 1] as nat + 0x1_0000 * data[pos + 2] as nat + 0x100_0000 * data[pos + 3] as nat
  }

  function ReadLe64(data: Bytes, pos: nat): nat
    requires pos + 8 <= |data|
  {
    ReadLe32(data, pos) + U32 * ReadLe32(data, pos + 4)
  }

  datatype Header = Header(descSize: nat, blockChecksums: bool, contentChecksum: bool, contentSize: nat, maxBlock: nat)

  datatype InitResult = InvalidArgument | NotSupported | Ready(header: Header)

  /** Lz4Decompressor::initialize; `size0` is the content size left by an earlier call. */
  function Initialize(data: Bytes, size0: nat): InitResult {
    if |data| < 27 then InvalidArgument
    else if ReadLe32(data, 0) != FRAME_MAGIC then InvalidArgument
    else
      var flg := data[4] as nat;
      if flg / 64 != 1 then InvalidArgument
      else if flg / 32 % 2 == 0 then NotSupported
      else
        var sized := flg / 8 % 2 == 1;
        var contentSize := if sized then ReadLe64(data, 6) else size0;
        if contentSize == 0 then NotSupported
        else
          var code := data[5] as nat / 16;
          if code < 4 || code > 7 then InvalidArgument
          else
            Ready(Header(3 + (if sized then 8 else 0) + (if flg % 2 == 1 then 4 else 0),
                         flg / 16 % 2 == 1, flg / 4 % 2 == 1, contentSize, MaxBlock(code)))
  }

  /** The fields that initialize leaves, also when it fails half way. */
  function Settled(data: Bytes, h: Header): Header {
    var h1 := h.(descSize := 3);
    if |data| < 27 || ReadLe32(data, 0) != FRAME_MAGIC || data[4] as nat / 64 != 1 || data[4] as nat / 32 % 2 == 0 then h1
    else
      var flg := data[4] as nat;
      var sized := flg / 8 % 2 == 1;
      var h2 := h1.(blockChecksums := flg / 16 % 2 == 1,
                    contentSize := if sized then ReadLe64(data, 6) else h.contentSize,
                    descSize := if sized then 11 else 3);
      if h2.contentSize == 0 then h2
      else
        var h3 := h2.(contentChecksum := flg / 4 % 2 == 1, descSize := h2.descSize + if flg % 2 == 1 then 4 else 0);
        var code := data[5] as nat / 16;
        if code < 4 || code > 7 then h3 else h3.(maxBlock := MaxBlock(code))
  }

  /** The parameters of an accepted frame do not depend on earlier calls, except for a content size that the frame leaves out. */
  lemma ReadyIsSettled(data: Bytes, h: Header)
    requires Initialize(data, h.contentSize).Ready?
    ensures Initialize(data, h.contentSize) == Ready(Settled(data, h))
    ensures forall g: Header :: g.contentSize == h.contentSize ==> Settled(data, g) == Settled(data, h)
  {
    hide ReadLe32, ReadLe64;
  }

  /** One round of the block loop: the end, or the state of the next round. */
  datatype Round = End | More(pos: nat, buf: Bytes, copied: nat)

  function OneRound(data: Bytes, h: Header, pos: nat, buf: Bytes, copied: nat, size: nat): (r: Result<Round>)
    ensures r.Done? && r.value.More? ==> pos < r.value.pos && pos < |data| && |r.value.buf| == |buf|
  {
    if copied >= size || pos >= |data| then Done(End)
    else if pos + 4 > |data| then Fault
    else
      var word := ReadLe32(data, pos);
      var n := word % HIGH_BIT;
      var next := pos + 4 + n + if h.blockChecksums then 4 else 0;
      if n == 0 then Done(End)
      else if n > h.maxBlock then Fault
      else if word / HIGH_BIT % 2 == 1 then
        if pos + 4 + n > |data| || copied + n > |buf| then Fault
        else Done(More(next, Paste(buf, copied, data[pos + 4..pos + 4 + n]), copied + n))
      else
        match Decode(data, pos + 4 + n, copied, size - copied, Progress(pos + 4, 0, buf))
        case Fault => Fault
        case Done(p) => if p.made > h.maxBlock then Fault else Done(More(next, p.buf, copied + p.made))
  }

  /** The block loop of Lz4Decompressor::read. */
  function ReadLoop(data: Bytes, h: Header, pos: nat, buf: Bytes, copied: nat, size: nat): (r: Result<Bytes>)
    ensures r.Done? ==> |r.value| == |buf|
    decreases |data| - pos
  {
    match OneRound(data, h, pos, buf, copied, size)
    case Fault => Fault
    case Done(End) => Done(buf)
    case Done(More(p, b, c)) => ReadLoop(data, h, p, b, c, size)
  }

  function Read(data: Bytes, h: Header, buf: Bytes, size: nat): Result<Bytes> {
    ReadLoop(data, h, h.descSize + 4, buf, 0, size)
  }

  // ------------------------------------------------------------------ proofs

  lemma Le32Reads(data: Bytes, pos: nat, n: nat)
    requires n < U32 && Here(data, pos, Le32(n))
    ensures ReadLe32(data, pos) == n
  {
    HereAt(data, pos, Le32(n), 0);
    HereAt(data, pos, Le32(n), 1);
    HereAt(data, pos, Le32(n), 2);
    HereAt(data, pos, Le32(n), 3);
  }

  lemma Le64Reads(data: Bytes, pos: nat, n: nat)
    requires n < U32 * U32 && Here(data, pos, Le64(n))
    ensures ReadLe64(data, pos) == n
  {
    HereSplit(data, pos, Le32(n % U32), Le32(n / U32));
    Le32Reads(data, pos, n % U32);
    Le32Reads(data, pos + 4, n / U32);
  }

  /** The header fields the frame stands for. */
  function HeaderOf(f: Frame): Header
    requires ValidFrame(f)
  {
    Header(11 + (if f.dictId.Some? then 4 else 0), f.blockChecksums, f.contentChecksum,
           |Contents(f.items)|, MaxBlock(f.sizeCode))
  }

  lemma HeaderReads(data: Bytes, f: Frame)
    requires ValidFrame(f) && Here(data, 0, EncodeHeader(f))
    ensures |data| >= 14 && ReadLe32(data, 0) == FRAME_MAGIC
    ensures data[4] == Flags(f) && data[5] as nat == f.sizeCode * 16
    ensures ReadLe64(data, 6) == |Contents(f.items)|
    ensures |EncodeHeader(f)| == HeaderOf(f).descSize + 4
  {
    hide Contents, Le32, Le64, ReadLe32, ReadLe64, Flags;
    var n := |Contents(f.items)|;
    var pair := [Flags(f), (f.sizeCode * 16) as byte];
    var tail := DictBytes(f) + [f.headerChecksum];
    HereSplit(data, 0, Le32(FRAME_MAGIC), pair + (Le64(n) + tail));
    HereSplit(data, 4, pair, Le64(n) + tail);
    HereSplit(data, 6, Le64(n), tail);
    HereAt(data, 4, pair, 0);
    HereAt(data, 4, pair, 1);
    Le32Reads(data, 0, FRAME_MAGIC);
    Le64Reads(data, 6, n);
  }

  /** A well-formed frame is accepted exactly when it is at least 27 bytes long, and then with its own parameters. */
  lemma InitializeExactly(f: Frame)
    requires ValidFrame(f)
    ensures Initialize(EncodeFrame(f), 0) ==
      if |EncodeFrame(f)| < 27 then InvalidArgument else Ready(HeaderOf(f))
  {
    hide Contents, ReadLe32, ReadLe64, EncodeHeader, EncodeItems;
    var data := EncodeFrame(f);
    assert Here(data, 0, data) by { assert data[0..|data|] == data; }
    HereSplit(data, 0, EncodeHeader(f), EncodeItems(f.items) + (Le32(0) + f.trailer));
    HeaderReads(data, f);
  }

  /** The smallest frames are among those refused: one stored byte, no checksums. */
  lemma TinyFrameRefused()
    ensures
      var f := Frame(false, false, None, 4, 0, [Item(Stored([7]), [])], []);
      ValidFrame(f) && Contents(f.items) == [7] && Initialize(EncodeFrame(f), 0) == InvalidArgument
  {
    var items := [Item(Stored([7]), [])];
    assert items[1..] == [];
    assert Contents(items) == [7];
    assert EncodeItems(items) == EncodeItem(items[0]);
  }

  lemma WordReads(n: nat, stored: bool)
    requires n < HIGH_BIT
    ensures var word := n + if stored then HIGH_BIT else 0; word % HIGH_BIT == n && word / HIGH_BIT % 2 == Bit(stored)
  {
  }

  /** What is read of a block when `size` bytes are still wanted: a stored block whole, a compressed one up to its cut. */
  function BlockCut(b: FrameBlock, size: nat): Bytes
    requires ValidFrameBlock(b)
  {
    if b.Compressed? then Cut(b.block, size) else Content(b)
  }

  /** What is read of the items when `size` bytes are wanted. */
  function ItemsCut(items: seq<Item>, size: nat): Bytes
    requires forall it :: it in items ==> ValidFrameBlock(it.block)
  {
    if size == 0 || items == [] then []
    else
      var c := BlockCut(items[0].block, size);
      if |c| >= size then c else c + ItemsCut(items[1..], size - |c|)
  }

  lemma BlockCutIs(b: FrameBlock, size: nat)
    requires ValidFrameBlock(b)
    ensures BlockCut(b, size) <= Content(b)
    ensures |BlockCut(b, size)| < size || |Content(b)| <= size ==> BlockCut(b, size) == Content(b)
  {
    hide CutFrom, ExpandFrom;
    if b.Compressed? {
      CutIsPrefix([], b.block.seqs, b.block.last, size);
    }
  }

  /** One item at `pos` is one round, which appends it up to the cut. */
  lemma ItemRound(data: Bytes, h: Header, pos: nat, buf: Bytes, copied: nat, size: nat, it: Item)
    requires ValidItem(it, h.blockChecksums, h.maxBlock) && h.maxBlock <= 0x40_0000
    requires Here(data, pos, EncodeItem(it)) && copied < size
    requires copied + |BlockCut(it.block, size - copied)| <= |buf|
    ensures
      var c := BlockCut(it.block, size - copied);
      OneRound(data, h, pos, buf, copied, size) == Done(More(pos + |EncodeItem(it)|, Paste(buf, copied, c), copied + |c|))
  {
    hide EncodeBlock, Expand, Cut, Decode, Le32, ReadLe32, ValidBlock, Paste;
    var load := Payload(it.block);
    var word := |load| + if it.block.Stored? then HIGH_BIT else 0;
    HereSplit(data, pos, Le32(word), load + it.checksum);
    HereSplit(data, pos + 4, load, it.checksum);
    Le32Reads(data, pos, word);
    WordReads(|load|, it.block.Stored?);
    if it.block.Compressed? {
      var b := it.block.block;
      BlockCutIs(it.block, size - copied);
      DecodeCuts(data, pos + 4, b, buf, copied, size - copied);
      assert load == EncodeBlock(b) && Content(it.block) == Expand(b);
    } else {
      assert data[pos + 4..pos + 4 + |load|] == load;
    }
  }

  lemma ItemReads(data: Bytes, h: Header, pos: nat, buf: Bytes, copied: nat, size: nat, it: Item)
    requires ValidItem(it, h.blockChecksums, h.maxBlock) && h.maxBlock <= 0x40_0000
    requires Here(data, pos, EncodeItem(it)) && copied < size
    requires copied + |BlockCut(it.block, size - copied)| <= |buf|
    ensures
      var c := BlockCut(it.block, size - copied);
      ReadLoop(data, h, pos, buf, copied, size) ==
        ReadLoop(data, h, pos + |EncodeItem(it)|, Paste(buf, copied, c), copied + |c|, size)
  {
    hide OneRound, EncodeItem, BlockCut, Paste, ValidItem;
    ItemRound(data, h, pos, buf, copied, size, it);
  }

  lemma ContentsSteps(items: seq<Item>)
    requires items != [] && forall it :: it in items ==> ValidFrameBlock(it.block)
    ensures Contents(items) == Content(items[0].block) + Contents(items[1..])
  {
  }

  lemma PasteTwice(buf: Bytes, at: nat, x: Bytes, y: Bytes)
    requires at + |x| + |y| <= |buf|
    ensures Paste(Paste(buf, at, x), at + |x|, y) == Paste(buf, at, x + y)
  {
  }

  /** The loop ends with what is there when enough is read, or at the end mark. */
  lemma LoopEnds(data: Bytes, h: Header, pos: nat, buf: Bytes, copied: nat, size: nat, trailer: Bytes)
    requires copied >= size || Here(data, pos, Le32(0) + trailer)
    ensures ReadLoop(data, h, pos, buf, copied, size) == Done(buf)
  {
    if copied < size {
      HereSplit(data, pos, Le32(0), trailer);
      Le32Reads(data, pos, 0);
    }
  }

  lemma CutItemsSteps(items: seq<Item>, size: nat)
    requires size > 0 && items != [] && forall it :: it in items ==> ValidFrameBlock(it.block)
    ensures
      var c := BlockCut(items[0].block, size);
      ItemsCut(items, size) == c + (if |c| >= size then [] else ItemsCut(items[1..], size - |c|))
  {
    hide BlockCut;
    assert items[0] in items;
  }

  /** Reading the remaining items appends their contents up to the cut. */
  lemma {:induction false} ItemsRead(data: Bytes, h: Header, pos: nat, buf: Bytes, copied: nat, size: nat,
                                     items: seq<Item>, trailer: Bytes)
    requires ValidItems(items, h.blockChecksums, h.maxBlock) && h.maxBlock <= 0x40_0000
    requires Here(data, pos, EncodeItems(items) + (Le32(0) + trailer))
    requires copied <= size && copied + |ItemsCut(items, size - copied)| <= |buf|
    ensures ReadLoop(data, h, pos, buf, copied, size) == Done(Paste(buf, copied, ItemsCut(items, size - copied)))
    decreases |items|
  {
    hide ReadLoop, EncodeItem, BlockCut, Content, Le32;
    if copied == size || items == [] {
      assert EncodeItems([]) + (Le32(0) + trailer) == Le32(0) + trailer;
      LoopEnds(data, h, pos, buf, copied, size, trailer);
      assert Paste(buf, copied, []) == buf;
    } else {
      ItemsReadOne(data, h, pos, buf, copied, size, items, trailer);
    }
  }

  lemma {:induction false} ItemsReadOne(data: Bytes, h: Header, pos: nat, buf: Bytes, copied: nat, size: nat,
                                        items: seq<Item>, trailer: Bytes)
    requires items != [] && ValidItems(items, h.blockChecksums, h.maxBlock) && h.maxBlock <= 0x40_0000
    requires Here(data, pos, EncodeItems(items) + (Le32(0) + trailer))
    requires copied < size && copied + |ItemsCut(items, size - copied)| <= |buf|
    ensures ReadLoop(data, h, pos, buf, copied, size) == Done(Paste(buf, copied, ItemsCut(items, size - copied)))
    decreases |items|, 0
  {
    hide Content, BlockCut, ItemsCut, ReadLoop, Le32, EncodeItem, EncodeItems, Paste, Payload;
    EncodeItemsSteps(items, h, trailer);
    var it, more := items[0], items[1..];
    HereSplit(data, pos, EncodeItem(it), EncodeItems(more) + (Le32(0) + trailer));
    CutItemsSteps(items, size - copied);
    var c := BlockCut(it.block, size - copied);
    ItemReads(data, h, pos, buf, copied, size, it);
    var next := pos + |EncodeItem(it)|;
    if |c| >= size - copied {
      LoopEnds(data, h, next, Paste(buf, copied, c), copied + |c|, size, trailer);
      assert c + [] == c;
    } else {
      ItemsRead(data, h, next, Paste(buf, copied, c), copied + |c|, size, more, trailer);
      PasteTwice(buf, copied, c, ItemsCut(more, size - copied - |c|));
    }
  }

  lemma EncodeItemsSteps(items: seq<Item>, h: Header, trailer: Bytes)
    requires items != [] && ValidItems(items, h.blockChecksums, h.maxBlock) && h.maxBlock <= 0x40_0000
    ensures ValidItem(items[0], h.blockChecksums, h.maxBlock) && ValidItems(items[1..], h.blockChecksums, h.maxBlock)
    ensures EncodeItems(items) + (Le32(0) + trailer) ==
      EncodeItem(items[0]) + (EncodeItems(items[1..]) + (Le32(0) + trailer))
  {
    hide Payload, Content, Le32, EncodeItem;
    assert items[0] in items;
  }

  /** How many bytes a read of a well-formed frame writes, for every `size` asked for, and which. */
  lemma ReadCuts(f: Frame, buf: Bytes, size: nat)
    requires ValidFrame(f) && |ItemsCut(f.items, size)| <= |buf|
    ensures Read(EncodeFrame(f), HeaderOf(f), buf, size) == Done(Paste(buf, 0, ItemsCut(f.items, size)))
  {
    hide Contents, ItemsCut, ReadLoop, EncodeHeader, EncodeItems;
    var data := EncodeFrame(f);
    assert Here(data, 0, data) by { assert data[0..|data|] == data; }
    HereSplit(data, 0, EncodeHeader(f), EncodeItems(f.items) + (Le32(0) + f.trailer));
    HeaderReads(data, f);
    ItemsRead(data, HeaderOf(f), HeaderOf(f).descSize + 4, buf, 0, size, f.items, f.trailer);
  }

  /** `n` bytes are some whole blocks and then some whole sequences of a compressed one. */
  predicate AtCut(items: seq<Item>, n: nat)
    requires forall it :: it in items ==> ValidFrameBlock(it.block)
  {
    n == 0 ||
    (items != [] &&
     var b := items[0].block;
     || (|Content(b)| <= n && AtCut(items[1..], n - |Content(b)|))
     || (b.Compressed? && AtSequence([], b.block.seqs, n)))
  }

  predicate AtSequence(out: Bytes, seqs: seq<Sequence>, n: nat)
    requires ValidFrom(out, seqs)
    decreases |seqs|
  {
    n == |out| || (seqs != [] && AtSequence(Lz4Format.Apply(out, seqs[0]), seqs[1..], n))
  }

  lemma {:induction false} CutAtSequence(out: Bytes, seqs: seq<Sequence>, last: Last, size: nat)
    requires ValidFrom(out, seqs) && |out| <= size < |ExpandFrom(out, seqs, last)|
    ensures |CutFrom(out, seqs, last, size)| == size <==> AtSequence(out, seqs, size)
    decreases |seqs|
  {
    hide Lz4Format.Apply;
    if |out| < size && seqs != [] {
      var next := Lz4Format.Apply(out, seqs[0]);
      if |next| <= size {
        CutAtSequence(next, seqs[1..], last, size);
      } else {
        BeyondSequence(next, seqs[1..], size);
      }
    }
  }

  lemma {:induction false} BeyondSequence(out: Bytes, seqs: seq<Sequence>, n: nat)
    requires ValidFrom(out, seqs) && n < |out|
    ensures !AtSequence(out, seqs, n)
    decreases |seqs|
  {
    if seqs != [] {
      BeyondSequence(Lz4Format.Apply(out, seqs[0]), seqs[1..], n);
    }
  }

  /**
   A read stays within the `size` bytes asked for exactly when the frame has no more
   than that, or `size` ends at a whole block or a whole sequence; what it writes is a
   prefix of the contents.
   */
  lemma {:induction false} WithinExactly(items: seq<Item>, size: nat)
    requires forall it :: it in items ==> ValidFrameBlock(it.block)
    ensures ItemsCut(items, size) <= Contents(items)
    ensures |Contents(items)| <= size ==> ItemsCut(items, size) == Contents(items)
    ensures |ItemsCut(items, size)| <= size <==> |Contents(items)| <= size || AtCut(items, size)
    decreases |items|
  {
    hide Content, BlockCut, CutFrom, ExpandFrom, AtSequence;
    if size > 0 && items != [] {
      assert items[0] in items;
      var b := items[0].block;
      BlockCutIs(b, size);
      CutItemsSteps(items, size);
      ContentsSteps(items);
      var c := BlockCut(b, size);
      if |Content(b)| <= size {
        WithinExactly(items[1..], size - |Content(b)|);
        NoCutBeyond(b, size);
      } else {
        CutInside(b, size);
      }
    }
  }

  /** A block that is longer than what is wanted is cut within it exactly at a whole sequence. */
  lemma CutInside(b: FrameBlock, size: nat)
    requires ValidFrameBlock(b) && size < |Content(b)|
    ensures |BlockCut(b, size)| <= size <==> b.Compressed? && AtSequence([], b.block.seqs, size)
    ensures |BlockCut(b, size)| >= size
  {
    hide CutFrom, ExpandFrom, AtSequence;
    BlockCutIs(b, size);
    if b.Compressed? {
      CutAtSequence([], b.block.seqs, b.block.last, size);
    }
  }

  /** A whole sequence of a block never ends behind the block. */
  lemma NoCutBeyond(b: FrameBlock, size: nat)
    requires ValidFrameBlock(b) && |Content(b)| <= size
    ensures b.Compressed? && AtSequence([], b.block.seqs, size) ==> size == |Content(b)|
  {
    if b.Compressed? && AtSequence([], b.block.seqs, size) {
      SequenceBound([], b.block.seqs, b.block.last, size);
    }
  }

  lemma {:induction false} SequenceBound(out: Bytes, seqs: seq<Sequence>, last: Last, n: nat)
    requires ValidFrom(out, seqs) && AtSequence(out, seqs, n)
    ensures n <= |ExpandFrom(out, seqs, last)|
    decreases |seqs|
  {
    hide Lz4Format.Apply;
    if n != |out| {
      SequenceBound(Lz4Format.Apply(out, seqs[0]), seqs[1..], last, n);
    }
  }

  /** For example, a read of one byte from a stored block of two writes both. */
  lemma OneByteWritesTwo()
    ensures
      var items := [Item(Stored([7, 8]), [])];
      ValidFrame(Frame(false, false, None, 4, 0, items, [])) && ItemsCut(items, 1) == [7, 8]
  {
    var items := [Item(Stored([7, 8]), [])];
    assert items[1..] == [];
    assert Contents(items) == [7, 8];
  }

  /** Whatever the input, a read of `size` bytes writes less than one maximum block more, and nothing behind that. */
  lemma {:induction false} ReadBounded(data: Bytes, h: Header, pos: nat, buf: Bytes, copied: nat, size: nat, k: nat)
    requires k < |buf| && copied <= k && size + h.maxBlock <= k + 1
    ensures
      var r := ReadLoop(data, h, pos, buf, copied, size);
      r.Done? ==> r.value[k] == buf[k]
    decreases |data| - pos
  {
    hide OneRound;
    var r := OneRound(data, h, pos, buf, copied, size);
    if r.Done? && r.value.More? {
      RoundKeeps(data, h, pos, buf, copied, size, k);
      ReadBounded(data, h, r.value.pos, r.value.buf, r.value.copied, size, k);
    }
  }

  lemma RoundKeeps(data: Bytes, h: Header, pos: nat, buf: Bytes, copied: nat, size: nat, k: nat)
    requires k < |buf| && copied <= k && size + h.maxBlock <= k + 1
    requires OneRound(data, h, pos, buf, copied, size).Done? && OneRound(data, h, pos, buf, copied, size).value.More?
    ensures
      var m := OneRound(data, h, pos, buf, copied, size).value;
      |m.buf| == |buf| && m.copied <= k && m.buf[k] == buf[k]
  {
    hide Decode, ReadLe32;
    DecodeWritesBetween(data, pos + 4 + ReadLe32(data, pos) % HIGH_BIT, copied, size - copied, Progress(pos + 4, 0, buf));
  }

  /**
   Reading a whole well-formed frame into a buffer of at least its content size
   writes exactly the concatenation of its blocks' contents, compressed or stored,
   with or without block checksums.
   */
  lemma ReadUndoesEncode(f: Frame, buf: Bytes)
    requires ValidFrame(f) && |Contents(f.items)| <= |buf|
    ensures Read(EncodeFrame(f), HeaderOf(f), buf, |Contents(f.items)|) == Done(Paste(buf, 0, Contents(f.items)))
  {
    hide Contents, ItemsCut, AtCut, EncodeFrame, HeaderOf, Read;
    WithinExactly(f.items, |Contents(f.items)|);
    ReadCuts(f, buf, |Contents(f.items)|);
  }
}
