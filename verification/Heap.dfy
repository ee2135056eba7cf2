/**
 The heap: PoolAllocator over bit-mapped pools over a parent allocator
 (lib/liballoc). Memory is addresses; what matters is who may use which range.
 */
module Heap {
  import opened Basics
  import opened BitArrays

  const MIN_INDEX: nat := 2
  const MAX_INDEX: nat := 27
  const LISTS: nat := 28

  /** Sizes of the Pool object and of the prefix and postfix put around each object; they depend on the architecture. */
  datatype Layout = Layout(pool: nat, prefix: nat, postfix: nat) {
    predicate Valid() {
      pool > 0 && pool % 4 == 0 && prefix > 0 && prefix % 4 == 0 && postfix == 4
    }
  }

  /** What a parent allocator returns: a block of memory. */
  datatype Range = Range(address: nat, size: nat) {
    predicate Apart(other: Range) {
      address + size <= other.address || other.address + other.size <= address
    }
  }

  function Pow2(n: nat): (r: nat)
    ensures r > 0 && (n >= 2 ==> r % 4 == 0 && r >= 4)
  {
    if n == 0 then 1 else if n == 1 then 2 else if n == 2 then 4 else 2 * Pow2(n - 1)
  }

  /** It is the power of two: it starts at one and doubles. */
  lemma Pow2Doubles(n: nat)
    ensures Pow2(0) == 1 && Pow2(n + 1) == 2 * Pow2(n)
  {
  }

  lemma {:induction false} Pow2Mono(a: nat, b: nat)
    requires a <= b
    ensures Pow2(a) <= Pow2(b)
    decreases b
  {
    if a < b {
      Pow2Mono(a, b - 1);
      Pow2Doubles(b - 1);
    }
  }

  lemma Pow2Values()
    ensures Pow2(14) == 0x4000 && Pow2(19) == 0x8_0000 && Pow2(20) == 0x10_0000 && Pow2(27) == 0x800_0000
  {
    assert Pow2(8) == 0x100;
    assert Pow2(14) == 0x4000;
    assert Pow2(20) == 0x10_0000;
  }

  /** The minimum number of objects of a pool. */
  function ObjectCount(objectSize: nat): (r: nat)
    requires objectSize > 0
    ensures r >= 1
  {
    if objectSize >= 0x4000 then 1
    else
      MulMono(1, 0x4000 / objectSize, 1);
      0x4000 / objectSize
  }

  lemma {:induction false} Pow2Sum(a: nat, b: nat)
    ensures Pow2(a) * Pow2(b) == Pow2(a + b)
    decreases b
  {
    Pow2Doubles(0);
    hide Pow2;
    if b > 0 {
      Pow2Sum(a, b - 1);
      Pow2Doubles(b - 1);
      Pow2Doubles(a + b - 1);
      Regroup(2, Pow2(a), Pow2(b - 1));
    }
  }

  lemma Regroup(x: nat, y: nat, z: nat)
    ensures y * (x * z) == x * (y * z) && x * y * z == y * (x * z)
  {
  }

  /** The objects of the smallest pool take 16 KB together, or one object alone takes more. */
  lemma FirstPayload(i: nat)
    ensures ObjectCount(Pow2(i)) * Pow2(i) == if i <= 14 then 0x4000 else Pow2(i)
  {
    Pow2Values();
    hide Pow2;
    if i < 14 {
      Pow2Sum(14 - i, i);
      Pow2Mono(i, 13);
      Pow2Doubles(13);
      ModUnique(0x4000, Pow2(i), Pow2(14 - i), 0);
    } else {
      Pow2Mono(14, i);
    }
  }

  // ------------------------------------------------------------------- sizing

  /** Pool header, bitmap and `count` objects fit in `given` bytes. */
  predicate Fits(l: Layout, count: nat, objectSize: nat, given: nat) {
    l.pool + AlignUp(count, 4) + count * objectSize <= given
  }

  /** Bytes asked from the parent for `count` objects. */
  function Requested(l: Layout, count: nat, objectSize: nat): nat {
    AlignUp(l.pool + count + count * objectSize, 4)
  }

  lemma AlignShift(x: nat, y: nat)
    requires y % 4 == 0
    ensures AlignUp(x + y, 4) == AlignUp(x, 4) + y
  {
  }

  lemma MulMod4(c: nat, s: nat)
    requires s % 4 == 0
    ensures c * s % 4 == 0
  {
    var q := s / 4;
    assert c * s == 4 * (c * q);
  }

  /** What is requested is the least that suffices for the requested number of objects. */
  lemma RequestFits(l: Layout, count: nat, objectSize: nat, given: nat)
    requires l.Valid() && objectSize % 4 == 0
    ensures Fits(l, count, objectSize, given) <==> given >= Requested(l, count, objectSize)
  {
    MulMod4(count, objectSize);
    SumFits(l.pool, count, count * objectSize);
  }

  /** A request in its parts. */
  lemma RequestIs(l: Layout, count: nat, objectSize: nat)
    requires l.Valid() && objectSize % 4 == 0
    ensures Requested(l, count, objectSize) == l.pool + AlignUp(count, 4) + count * objectSize
  {
    hide AlignUp;
    MulMod4(count, objectSize);
    SumFits(l.pool, count, count * objectSize);
  }

  lemma SumFits(pool: nat, count: nat, payload: nat)
    requires pool % 4 == 0 && payload % 4 == 0
    ensures pool + AlignUp(count, 4) + payload == AlignUp(pool + count + payload, 4)
  {
    AlignShift(count, pool + payload);
  }

  /** Counts above the first estimate never fit: even one bitmap byte per object is too much. */
  lemma TooMany(l: Layout, objectCount: nat, objectSize: nat, given: nat, c: nat)
    requires objectSize > 0 && l.pool + objectCount <= given
    requires c > (given - l.pool - objectCount) / objectSize && c >= objectCount
    ensures !Fits(l, c, objectSize, given)
  {
    var space := given - l.pool - objectCount;
    var q := space / objectSize;
    DivTimes(space, objectSize);
    MulMono(q + 1, c, objectSize);
    assert (q + 1) * objectSize == q * objectSize + objectSize;
  }

  /** The sizing loop of allocatePool: stops at the largest object count that fits, which is at least the one asked for. */
  method FitPool(l: Layout, objectCount: nat, objectSize: nat, given: nat) returns (count: nat)
    requires l.Valid() && objectCount >= 1 && objectSize > 0 && objectSize % 4 == 0
    requires given >= Requested(l, objectCount, objectSize)
    ensures count >= objectCount && Fits(l, count, objectSize, given)
    ensures forall c: nat :: c > count ==> !Fits(l, c, objectSize, given)
  {
    hide Fits, Requested;
    RequestFits(l, objectCount, objectSize, given);
    FitsBound(l, objectCount, objectSize, given);
    count := (given - l.pool - objectCount) / objectSize;
    forall c: nat | c > count ensures !Fits(l, c, objectSize, given) {
      TooMany(l, objectCount, objectSize, given, c);
    }
    while !Fits(l, count, objectSize, given)
      invariant count >= objectCount
      invariant forall c: nat :: c > count ==> !Fits(l, c, objectSize, given)
      decreases count
    {
      count := count - 1;
    }
  }

  lemma FitsBound(l: Layout, count: nat, objectSize: nat, given: nat)
    requires objectSize > 0 && Fits(l, count, objectSize, given)
    ensures l.pool + count <= given && (given - l.pool - count) / objectSize >= count
  {
    MulMono(0, count, objectSize);
    QuotientAtLeast(count, given - l.pool - count, objectSize);
  }

  lemma QuotientAtLeast(a: nat, x: nat, m: nat)
    requires m > 0 && a * m <= x
    ensures x / m >= a
  {
    var q := x / m;
    DivTimes(x, m);
    assert (q + 1) * m == q * m + m;
    if q < a {
      MulMono(q + 1, a, m);
    }
  }

  /** Where the backward scan of release meets the postfix. */
  lemma ScanMeets(prefix: nat, size: nat, chunk: nat)
    requires prefix % 4 == 0 && size % 4 == 0 && chunk % 4 == 0 && size > 0 && prefix + size + 4 <= chunk
    ensures prefix < prefix + size <= chunk - 4 && (chunk - 4 - (prefix + size)) % 4 == 0
  {
  }

  // -------------------------------------------------------------------- pools

  class Pool {
    const layout: Layout
    const block: Range
    const index: nat
    const count: nat
    var bits: seq<bool>
    var lastBit: nat
    var prev: Pool?
    var next: Pool?

    constructor (layout: Layout, block: Range, index: nat, count: nat)
      ensures this.layout == layout && this.block == block && this.index == index && this.count == count
      ensures |bits| == count && (forall k :: 0 <= k < count ==> !bits[k]) && lastBit == 0
      ensures prev == null && next == null
    {
      this.layout, this.block, this.index, this.count := layout, block, index, count;
      bits := seq(count, _ => false);
      lastBit := 0;
      prev, next := null, null;
    }

    function ChunkSize(): (r: nat)
      ensures r > 0
    {
      Pow2(index)
    }

    /** Where the objects start: behind the pool header and the bitmap. */
    function Base(): nat {
      block.address + layout.pool + AlignUp(count, 4)
    }

    function Chunk(k: nat): nat {
      Base() + k * ChunkSize()
    }

    ghost predicate Valid()
      reads this
    {
      && layout.Valid() && MIN_INDEX <= index <= MAX_INDEX && count >= 1
      && Fits(layout, count, ChunkSize(), block.size)
      && |bits| == count
    }

    /** No more chunks than the pool has would fit in its block. */
    ghost predicate Snug() {
      forall c: nat :: c > count ==> !Fits(layout, c, ChunkSize(), block.size)
    }

    /** Some chunk is free. */
    ghost predicate HasRoom()
      reads this
    {
      exists k: nat :: k < |bits| && !bits[k]
    }

    /** BitAllocator::available */
    function Available(): nat
      reads this
    {
      Clear(bits) * ChunkSize()
    }

    /** BitAllocator::allocate for one chunk. */
    method Allocate() returns (k: Option<nat>)
      requires Valid()
      modifies this`bits, this`lastBit
      ensures Valid()
      ensures k.Some? <==> old(HasRoom())
      ensures k.None? ==> bits == old(bits)
      ensures k.Some? ==> k.value < count && !old(bits)[k.value] && bits == old(bits)[k.value := true]
      ensures k.Some? ==> lastBit == k.value && NextFit(old(bits), old(lastBit), 1, 1, k.value)
    {
      k := FirstClear(bits, lastBit);
      if k.None? {
        k := FirstClear(bits, 0);
      }
      OneBitFit(bits, lastBit);
      OneBitFit(bits, 0);
      if k.Some? {
        bits := bits[k.value := true];
        lastBit := k.value;
      }
    }
  }

  /** Chunks of one pool lie behind its header and bitmap and inside its block. */
  lemma ChunkInBlock(p: Pool, k: nat)
    requires p.layout.Valid() && Fits(p.layout, p.count, p.ChunkSize(), p.block.size) && k < p.count
    ensures p.Base() <= p.Chunk(k) && p.Chunk(k) + p.ChunkSize() <= p.block.address + p.block.size
  {
    MulMono(k + 1, p.count, p.ChunkSize());
    assert (k + 1) * p.ChunkSize() == k * p.ChunkSize() + p.ChunkSize();
    MulMono(0, k, p.ChunkSize());
  }

  /** Different chunks of one pool do not overlap. */
  lemma ChunksApart(p: Pool, j: nat, k: nat)
    requires j < k
    ensures p.Chunk(j) + p.ChunkSize() <= p.Chunk(k)
  {
    MulMono(j + 1, k, p.ChunkSize());
    assert (j + 1) * p.ChunkSize() == j * p.ChunkSize() + p.ChunkSize();
  }
}
