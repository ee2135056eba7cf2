/**
 The allocator of equally sized chunks (lib/liballoc/BitAllocator.cpp), which is
 also the allocator of page frames behind the kernel's SplitAllocator.
 */
module BitAllocators {
  import opened Basics
  import opened BitArrays
  import Shares = SharesSpec

  datatype Result = Success | InvalidAlignment | OutOfMemory

  /** The address of chunk `k`. */
  function Nth(base: nat, chunk: nat, k: nat): nat {
    base + k * chunk
  }

  /** The addresses of the chunks that are taken. */
  ghost function TakenIn(bits: seq<bool>, base: nat, chunk: nat): set<nat> {
    set k | 0 <= k < |bits| && bits[k] :: Nth(base, chunk, k)
  }

  /** The addresses of `n` chunks in a row. */
  ghost function Chunks(addr: nat, chunk: nat, n: nat): set<nat> {
    set k | 0 <= k < n :: Nth(addr, chunk, k)
  }

  /** The number of chunks for `size` bytes. */
  function ChunkCount(size: nat, chunk: nat): nat
    requires chunk > 0
  {
    if size % chunk != 0 then size / chunk + 1 else size / chunk
  }

  /** It is the least number that is enough. */
  lemma ChunkCountIs(size: nat, chunk: nat)
    requires chunk > 0
    ensures
      var r := ChunkCount(size, chunk);
      r * chunk >= size && (size > 0 ==> r > 0) && (r > 0 ==> (r - 1) * chunk < size)
  {
    DivTimes(size, chunk);
    assert size == chunk * (size / chunk) + size % chunk;
    assert (size / chunk + 1) * chunk == size / chunk * chunk + chunk;
    assert (size / chunk - 1) * chunk == size / chunk * chunk - chunk;
  }

  /** An alignment has to be a number of chunks; zero is none. */
  predicate WholeChunks(alignment: nat, chunk: nat)
    requires chunk > 0
  {
    alignment % chunk == 0
  }

  /** The boundary in chunks that an alignment in bytes asks for. */
  function Boundary(alignment: nat, chunk: nat): (r: nat)
    requires chunk > 0 && WholeChunks(alignment, chunk)
    ensures r > 0
  {
    if alignment == 0 then 1 else AlignedChunks(alignment, chunk); alignment / chunk
  }

  lemma AlignedChunks(alignment: nat, chunk: nat)
    requires chunk > 0 && WholeChunks(alignment, chunk)
    ensures alignment / chunk * chunk == alignment && (alignment > 0 ==> alignment / chunk > 0)
  {
    assert alignment == chunk * (alignment / chunk) + alignment % chunk;
  }

  /** Different chunks have different addresses. */
  lemma ChunkDistinct(base: nat, chunk: nat, j: nat, k: nat)
    requires chunk > 0 && j != k
    ensures Nth(base, chunk, j) != Nth(base, chunk, k)
  {
    MulAway(chunk, j - k);
    assert chunk * (j - k) == j * chunk - k * chunk;
  }

  lemma RunAddress(base: nat, chunk: nat, f: nat, k: nat)
    ensures Nth(Nth(base, chunk, f), chunk, k) == Nth(base, chunk, f + k)
  {
  }

  lemma TakenExactly(bits: seq<bool>, base: nat, chunk: nat, k: nat)
    requires chunk > 0 && k < |bits|
    ensures Nth(base, chunk, k) in TakenIn(bits, base, chunk) <==> bits[k]
  {
    hide Nth;
    if Nth(base, chunk, k) in TakenIn(bits, base, chunk) {
      var j :| 0 <= j < |bits| && bits[j] && Nth(base, chunk, j) == Nth(base, chunk, k);
      if j != k {
        ChunkDistinct(base, chunk, j, k);
      }
    }
  }

  /** Setting a run of clear bits takes exactly its chunks, none of which was taken. */
  lemma FilledTakes(bits: seq<bool>, base: nat, chunk: nat, f: nat, n: nat)
    requires chunk > 0 && f + n <= |bits| && forall k :: f <= k < f + n ==> !bits[k]
    ensures
      var block := Chunks(Nth(base, chunk, f), chunk, n);
      && block !! TakenIn(bits, base, chunk)
      && TakenIn(Filled(bits, f, f + n), base, chunk) == TakenIn(bits, base, chunk) + block
  {
    hide Nth;
    var block := Chunks(Nth(base, chunk, f), chunk, n);
    var after := Filled(bits, f, f + n);
    forall a | a in block ensures a !in TakenIn(bits, base, chunk) && a in TakenIn(after, base, chunk) {
      var k :| 0 <= k < n && a == Nth(Nth(base, chunk, f), chunk, k);
      RunAddress(base, chunk, f, k);
      TakenExactly(bits, base, chunk, f + k);
      TakenExactly(after, base, chunk, f + k);
    }
    forall a | a in TakenIn(after, base, chunk) ensures a in TakenIn(bits, base, chunk) + block {
      var k :| 0 <= k < |after| && after[k] && a == Nth(base, chunk, k);
      if !bits[k] {
        RunAddress(base, chunk, f, k - f);
      }
    }
    forall a | a in TakenIn(bits, base, chunk) ensures a in TakenIn(after, base, chunk) {
      var k :| 0 <= k < |bits| && bits[k] && a == Nth(base, chunk, k);
      assert after[k];
    }
  }

  /** Clearing one bit gives back exactly its chunk. */
  lemma ClearedGivesBack(bits: seq<bool>, base: nat, chunk: nat, k: nat)
    requires chunk > 0 && k < |bits|
    ensures TakenIn(bits[k := false], base, chunk) == TakenIn(bits, base, chunk) - {Nth(base, chunk, k)}
  {
    hide Nth;
    var after := bits[k := false];
    forall a | a in TakenIn(bits, base, chunk) && a != Nth(base, chunk, k) ensures a in TakenIn(after, base, chunk) {
      var j :| 0 <= j < |bits| && bits[j] && a == Nth(base, chunk, j);
      assert after[j];
    }
    TakenExactly(after, base, chunk, k);
    forall a | a in TakenIn(after, base, chunk) ensures a in TakenIn(bits, base, chunk) {
      var j :| 0 <= j < |after| && after[j] && a == Nth(base, chunk, j);
      assert bits[j];
    }
  }

  /** The next clear bit from `start` on, or the first one of all. */
  function NextClear(bits: seq<bool>, start: nat): Option<nat> {
    if FirstClear(bits, start).Some? then FirstClear(bits, start) else FirstClear(bits, 0)
  }

  /** It is where the search for a single chunk ends. */
  lemma NextClearIs(bits: seq<bool>, start: nat)
    ensures
      var r := NextClear(bits, start);
      && (r.Some? ==> NextFit(bits, start, 1, 1, r.value))
      && (r.None? <==> forall k :: 0 <= k < |bits| ==> bits[k])
  {
    OneBitFit(bits, start);
    OneBitFit(bits, 0);
  }

  /** A run on the boundary starts at a multiple of the alignment from the base. */
  lemma OnAlignment(f: nat, chunk: nat, alignment: nat)
    requires chunk > 0 && alignment > 0 && WholeChunks(alignment, chunk) && f % Boundary(alignment, chunk) == 0
    ensures f * chunk % alignment == 0
  {
    AlignedChunks(alignment, chunk);
    var b := alignment / chunk;
    var q := f / b;
    assert f == b * q + f % b;
    assert f * chunk == alignment * q by {
      assert f * chunk == b * q * chunk == (b * chunk) * q;
    }
    ModUnique(f * chunk, alignment, q, 0);
  }

  class BitAllocator {
    const base: nat
    const size: nat
    const chunkSize: nat
    const bitmap: BitArray
    var lastBit: nat

    ghost predicate Valid()
      reads this, bitmap, bitmap.bits
    {
      bitmap.Valid() && chunkSize > 0 && bitmap.bits.Length == size / chunkSize
    }

    ghost function Taken(): set<nat>
      reads bitmap.bits
    {
      TakenIn(bitmap.bits[..], base, chunkSize)
    }

    constructor (base: nat, size: nat, chunkSize: nat)
      requires chunkSize > 0
      ensures Valid() && fresh(bitmap) && fresh(bitmap.bits)
      ensures this.base == base && this.size == size && this.chunkSize == chunkSize
      ensures Taken() == {}
    {
      this.base, this.size, this.chunkSize, lastBit := base, size, chunkSize, 0;
      bitmap := new BitArray(size / chunkSize);
    }

    /** The bytes of the chunks that are not taken. */
    function Available(): (r: int)
      requires Valid()
      reads this, bitmap, bitmap.bits
      ensures r == Clear(bitmap.bits[..]) * chunkSize
    {
      bitmap.Count() * chunkSize
    }

    /** The address is the start of a chunk of this allocator. */
    predicate IsChunk(addr: nat)
      requires chunkSize > 0
    {
      addr >= base && addr < base + size && (addr - base) % chunkSize == 0 && (addr - base) / chunkSize < size / chunkSize
    }

    lemma ChunkOf(addr: nat)
      requires chunkSize > 0 && IsChunk(addr)
      ensures addr == Nth(base, chunkSize, (addr - base) / chunkSize)
    {
      var k := (addr - base) / chunkSize;
      assert addr - base == chunkSize * k + (addr - base) % chunkSize;
    }

    predicate IsAllocated(addr: nat)
      requires Valid() && IsChunk(addr)
      reads this, bitmap, bitmap.bits
      ensures IsAllocated(addr) <==> addr in Taken()
    {
      ChunkOf(addr);
      TakenExactly(bitmap.bits[..], base, chunkSize, (addr - base) / chunkSize);
      bitmap.bits[(addr - base) / chunkSize]
    }

    /** What a search from `startBit` answers: `f` up to `last` are the bits it sets. */
    ghost predicate Answer(b: seq<bool>, bytes: nat, alignment: nat, startBit: nat, r: Result, f: nat, last: nat)
      requires chunkSize > 0 && WholeChunks(alignment, chunkSize)
    {
      var boundary, n := Boundary(alignment, chunkSize), ChunkCount(bytes, chunkSize);
      && (r == OutOfMemory ==> NothingFound(b, startBit, boundary, n))
      && (r == Success ==> Found(b, startBit, boundary, n, f, last))
    }

    method BoundaryFor(alignment: nat) returns (boundary: nat)
      requires chunkSize > 0 && WholeChunks(alignment, chunkSize)
      ensures boundary == Boundary(alignment, chunkSize)
    {
      boundary := 1;
      if alignment != 0 {
        boundary := alignment / chunkSize;
      }
    }

    method CountFor(bytes: nat) returns (num: nat)
      requires chunkSize > 0
      ensures num == ChunkCount(bytes, chunkSize) && (num > 0 <==> bytes > 0)
    {
      ChunkCountIs(bytes, chunkSize);
      num := bytes / chunkSize;
      if bytes % chunkSize != 0 {
        num := num + 1;
      }
    }

    method AllocateFrom(bytes: nat, alignment: nat, startBit: nat) returns (r: Result, addr: nat, ghost f: nat, ghost last: nat)
      requires Valid()
      modifies this`lastBit, bitmap`ones, bitmap.bits
      ensures Valid()
      ensures r == InvalidAlignment <==> !WholeChunks(alignment, chunkSize)
      ensures r != Success ==> bitmap.bits[..] == old(bitmap.bits[..]) && lastBit == old(lastBit)
      ensures r == Success ==>
        addr == Nth(base, chunkSize, f) && lastBit == f && bitmap.bits[..] == Filled(old(bitmap.bits[..]), f, last + 1)
      ensures r != InvalidAlignment ==> Answer(old(bitmap.bits[..]), bytes, alignment, startBit, r, f, last)
    {
      hide Found, NothingFound, Filled, Nth, Clear, WholeChunks, Boundary, ChunkCount;
      addr, f, last := 0, 0, 0;
      var num := CountFor(bytes);
      if !WholeChunks(alignment, chunkSize) {
        r := InvalidAlignment;
        return;
      }
      var boundary := BoundaryFor(alignment);
      var bit;
      bit, last := bitmap.SetNext(num, startBit, boundary);
      if bit.None? {
        r := OutOfMemory;
        return;
      }
      f := bit.value;
      addr := Nth(base, chunkSize, bit.value);
      lastBit := bit.value;
      r := Success;
    }

    /**
     Searches from the last chunk taken and then from the start. A request for some
     bytes fails exactly when no aligned run of free chunks exists; otherwise it takes
     such a run and nothing else. A request for no bytes takes the next free chunk if
     that is aligned, and else everything in front of it, with the base as its address.
     */
    method Allocate(bytes: nat, alignment: nat) returns (r: Result, addr: nat, ghost f: nat)
      requires Valid()
      modifies this`lastBit, bitmap`ones, bitmap.bits
      ensures Valid()
      ensures r == InvalidAlignment <==> !WholeChunks(alignment, chunkSize)
      ensures r != Success ==> Taken() == old(Taken()) && lastBit == old(lastBit)
      ensures bytes > 0 && r != InvalidAlignment ==>
        (r == OutOfMemory <==>
          NoFit(old(bitmap.bits[..]), 0, Boundary(alignment, chunkSize), ChunkCount(bytes, chunkSize)))
      ensures bytes > 0 && r == Success ==>
        var n := ChunkCount(bytes, chunkSize);
        && NextFit(old(bitmap.bits[..]), old(lastBit), Boundary(alignment, chunkSize), n, f)
        && addr == Nth(base, chunkSize, f) && lastBit == f
        && Nth(addr, chunkSize, n) <= base + size
        && (alignment > 0 ==> (addr - base) % alignment == 0)
        && Chunks(addr, chunkSize, n) !! old(Taken())
        && Taken() == old(Taken()) + Chunks(addr, chunkSize, n)
      ensures bytes == 0 && r != InvalidAlignment ==>
        (r == OutOfMemory <==> NextClear(old(bitmap.bits[..]), old(lastBit)).None?)
      ensures bytes == 0 && r == Success ==>
        var i := NextClear(old(bitmap.bits[..]), old(lastBit)).value;
        && addr == Nth(base, chunkSize, if i % Boundary(alignment, chunkSize) == 0 then i else 0)
        && (addr in old(Taken()) <==> i % Boundary(alignment, chunkSize) != 0 && old(bitmap.bits[..])[0])
        && bitmap.bits[..] == Filled(old(bitmap.bits[..]), f, i + 1) && addr == Nth(base, chunkSize, f) && lastBit == f
    {
      hide Fit, FirstFit, NoFit, Filled, TakenIn, Chunks, Nth, ChunkCount, Boundary, Clear, WholeChunks, FirstClear;
      ghost var b := bitmap.bits[..];
      ghost var last;
      ChunksPositive(bytes);
      r, addr, f, last := AllocateFrom(bytes, alignment, lastBit);
      if r == OutOfMemory {
        r, addr, f, last := AllocateFrom(bytes, alignment, 0);
      }
      if r == Success {
        if bytes > 0 {
          NextFitFits(b, old(lastBit), Boundary(alignment, chunkSize), ChunkCount(bytes, chunkSize), f);
          RunTaken(b, Boundary(alignment, chunkSize), alignment, ChunkCount(bytes, chunkSize), f);
        } else {
          TakenExactly(b, base, chunkSize, f);
        }
      }
    }

    lemma ChunksPositive(bytes: nat)
      requires chunkSize > 0
      ensures ChunkCount(bytes, chunkSize) > 0 <==> bytes > 0
    {
      ChunkCountIs(bytes, chunkSize);
    }

    /** What a fitting run means for addresses. */
    lemma RunTaken(b: seq<bool>, boundary: nat, alignment: nat, n: nat, f: nat)
      requires chunkSize > 0 && |b| == size / chunkSize && WholeChunks(alignment, chunkSize)
      requires boundary == Boundary(alignment, chunkSize) && Fit(b, 0, boundary, n, f)
      ensures
        var addr := Nth(base, chunkSize, f);
        && Nth(addr, chunkSize, n) <= base + size
        && (alignment > 0 ==> (addr - base) % alignment == 0)
        && Chunks(addr, chunkSize, n) !! TakenIn(b, base, chunkSize)
        && TakenIn(Filled(b, f, f + n), base, chunkSize) == TakenIn(b, base, chunkSize) + Chunks(addr, chunkSize, n)
    {
      FilledTakes(b, base, chunkSize, f, n);
      if alignment > 0 {
        OnAlignment(f, chunkSize, alignment);
      }
      MulMono(f + n, size / chunkSize, chunkSize);
      DivTimes(size, chunkSize);
      RunAddress(base, chunkSize, f, n);
    }

    /** Takes one given chunk, which the source asserts to be free. */
    method AllocateAt(addr: nat)
      requires Valid() && IsChunk(addr) && !IsAllocated(addr)
      modifies bitmap`ones, bitmap.bits
      ensures Valid() && Taken() == old(Taken()) + {addr}
    {
      ghost var b := bitmap.bits[..];
      ghost var k := (addr - base) / chunkSize;
      ChunkOf(addr);
      bitmap.Set((addr - base) / chunkSize, true);
      FilledTakes(b, base, chunkSize, k, 1);
      assert Filled(b, k, k + 1) == b[k := true];
      assert Chunks(addr, chunkSize, 1) == {addr} by {
        assert Nth(addr, chunkSize, 0) == addr;
      }
    }

    /** Gives one chunk back, which the source asserts to be taken. */
    method Release(addr: nat)
      requires Valid() && IsChunk(addr) && IsAllocated(addr)
      modifies bitmap`ones, bitmap.bits
      ensures Valid() && Taken() == old(Taken()) - {addr}
      ensures Available() == old(Available()) + chunkSize
    {
      hide TakenIn, Nth, Clear;
      ChunkOf(addr);
      ghost var k := (addr - base) / chunkSize;
      ClearedGivesBack(bitmap.bits[..], base, chunkSize, k);
      ClearUpdate(bitmap.bits[..], k, false);
      bitmap.Set((addr - base) / chunkSize, false);
    }
  }

  // -------------------------------------------------------- the frames of shares

  ghost function PagesFrom(phys: nat, n: nat, k: nat): set<nat> {
    set j | k <= j < n :: Nth(phys, PAGESIZE, j)
  }

  lemma PagesStep(phys: nat, n: nat, k: nat)
    requires k < n
    ensures PagesFrom(phys, n, k) == {Nth(phys, PAGESIZE, k)} + PagesFrom(phys, n, k + 1)
  {
    hide Nth;
    forall a | a in PagesFrom(phys, n, k) ensures a in {Nth(phys, PAGESIZE, k)} + PagesFrom(phys, n, k + 1) {
      var j :| k <= j < n && a == Nth(phys, PAGESIZE, j);
    }
  }

  lemma {:induction false} FramesAreChunks(phys: nat, size: nat, k: nat)
    ensures Shares.FramesFrom(phys, size, k * PAGESIZE) == PagesFrom(phys, ChunkCount(size, PAGESIZE), k)
    decreases size - k * PAGESIZE
  {
    var n := ChunkCount(size, PAGESIZE);
    ChunkCountIs(size, PAGESIZE);
    if k * PAGESIZE < size {
      FramesAreChunks(phys, size, k + 1);
      assert (k + 1) * PAGESIZE == k * PAGESIZE + PAGESIZE;
      PagesStep(phys, n, k);
    } else {
      assert k >= n;
    }
  }

  /**
   What shares ask of the page allocator: as long as every frame they hold is taken,
   a block from the allocator has only frames that no share holds, and afterwards
   every frame they hold is taken again.
   */
  lemma PagesAreFresh(bits: seq<bool>, base: nat, f: nat, w: Shares.World, pid: nat, req: Shares.Request)
    requires w.frames <= TakenIn(bits, base, PAGESIZE)
    requires Fit(bits, 0, 1, ChunkCount(req.size, PAGESIZE), f)
    ensures
      var phys := Nth(base, PAGESIZE, f);
      var frames := Shares.Frames(Shares.Block(w, pid, req, phys));
      && frames !! w.frames
      && w.frames + frames <= TakenIn(Filled(bits, f, f + ChunkCount(req.size, PAGESIZE)), base, PAGESIZE)
  {
    FramesAreChunks(Nth(base, PAGESIZE, f), req.size, 0);
    FilledTakes(bits, base, PAGESIZE, f, ChunkCount(req.size, PAGESIZE));
  }
}
