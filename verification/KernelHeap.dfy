/** The kernel's heap (kernel/Kernel.cpp): a PoolAllocator over a BubbleAllocator in one megabyte of memory. */
module KernelHeaps {
  import opened Basics
  import opened Heap
  import opened PoolAllocators

  const HEAP_SIZE: nat := 0x10_0000

  /** What a client of the heap does; an address that is not live is not released. */
  datatype Request = Allocate(size: nat, alignment: nat) | Release(addr: nat)

  class KernelHeap {
    const bubble: BubbleAllocator
    const pool: PoolAllocator

    /** Every pool lies in what the bubble has handed out. */
    ghost predicate Valid()
      reads this, bubble, pool, pool.all
    {
      && pool.Valid() && bubble.alignment == 4 && bubble.taken <= bubble.size
      && forall p :: p in pool.all ==>
           bubble.base <= p.block.address && p.block.address + p.block.size <= bubble.base + bubble.taken
    }

    /** The two allocator objects lie in front of the memory they manage. */
    constructor (heapAddress: nat, metaData: nat, layout: Layout)
      requires layout.Valid() && metaData <= HEAP_SIZE
      ensures Valid() && fresh(bubble) && fresh(pool) && pool.all == {} && pool.objects == map[] && pool.layout == layout
      ensures bubble.base == heapAddress + metaData && bubble.base + bubble.size == heapAddress + 0x10_0000
      ensures bubble.taken == 0
    {
      bubble := new BubbleAllocator(heapAddress + metaData, HEAP_SIZE - metaData, 4);
      pool := new PoolAllocator(layout);
    }

    /** What a request takes from the bubble: what the pools ask for, rounded up, when there is room for it. */
    ghost function Consumed(size: nat, alignment: nat): nat
      reads bubble, pool, pool.all
    {
      var asked := if alignment == 0 && size > 0 then pool.Demand(AlignUp(size, 4)) else None;
      if asked.Some? && bubble.taken + AlignUp(asked.value, 4) <= bubble.size then AlignUp(asked.value, 4) else 0
    }

    /** No assumption about the parent is left: the bubble answers, and what it gave is where the new pool lies. */
    method Allocate(size: nat, alignment: nat) returns (r: Result, addr: nat)
      requires Valid()
      modifies pool, pool.all, bubble
      ensures Valid() && fresh(pool.all - old(pool.all))
      ensures bubble.taken == old(bubble.taken) + old(Consumed(size, alignment))
      ensures r == InvalidAlignment <==> alignment != 0
      ensures r == InvalidSize <==> alignment == 0 && size == 0
      ensures r == OutOfMemory <==>
        alignment == 0 && size > 0 && old(pool.Refused(AlignUp(size, 4), BubbleAnswer(bubble.base, bubble.size, 4, bubble.taken)))
      ensures r != Success ==> pool.objects == old(pool.objects)
      ensures r == Success ==>
        var a := addr - pool.layout.prefix;
        && a >= 0 && a !in old(pool.objects) && a in pool.objects
        && pool.objects == old(pool.objects)[a := pool.objects[a]] && pool.objects[a].size == AlignUp(size, 4)
        && pool.Chosen(a, AlignUp(size, 4) + pool.layout.prefix + pool.layout.postfix, old(pool.Demand(AlignUp(size, 4))))
    {
      hide PoolAllocator.Valid, PoolAllocator.Sound, PoolAllocator.Refused, PoolAllocator.Demand;
      var parent := BubbleAnswer(bubble.base, bubble.size, 4, bubble.taken);
      BubbleIsSound(pool, bubble.base, bubble.size, 4, bubble.taken);
      var asked;
      r, addr, asked := pool.Allocate(size, alignment, parent);
      if asked.Some? {
        var block := bubble.Allocate(asked.value);
      }
    }

    /** The bubble takes nothing back, so pools stay. */
    method Release(addr: nat)
      requires Valid() && addr >= pool.layout.prefix && addr - pool.layout.prefix in pool.objects
      modifies pool, pool.all
      ensures Valid() && pool.objects == old(pool.objects) - {addr - pool.layout.prefix} && pool.all == old(pool.all)
    {
      hide PoolAllocator.Valid;
      pool.Release(addr, false);
    }

    /** The bubble has room for a first pool of index `i`. */
    ghost predicate RoomForPool(i: nat)
      reads bubble, pool
    {
      bubble.taken + AlignUp(Requested(pool.layout, ObjectCount(Pow2(i)), Pow2(i)), 4) <= bubble.size
    }

    /** While there is no pool yet, a request is served exactly when the bubble has room for the first pool of its size. */
    lemma FirstPoolExactly(inputSize: nat)
      requires Valid() && pool.all == {}
      ensures
        var answer := BubbleAnswer(bubble.base, bubble.size, 4, bubble.taken);
        !pool.Refused(inputSize, answer) <==>
          exists i: nat ::
            && PoolAllocator.BestIndex(inputSize + pool.layout.prefix + pool.layout.postfix, i)
            && RoomForPool(i)
    {
      hide PoolAllocator.Structure, PoolAllocator.Objects, PoolAllocator.Pools, Requested, Pow2, PoolAllocator.BestIndex, ObjectCount, AlignUp;
      pool.EmptyLists();
      var answer := BubbleAnswer(bubble.base, bubble.size, 4, bubble.taken);
      var wanted := inputSize + pool.layout.prefix + pool.layout.postfix;
      forall i: nat | PoolAllocator.BestIndex(wanted, i)
        ensures i < |pool.lists|
        ensures pool.Stuck(i, answer) <==> !RoomForPool(i)
      {
        assert pool.Full(i);
      }
      if i: nat :| PoolAllocator.BestIndex(wanted, i) && RoomForPool(i) {
        assert !pool.Stuck(i, answer);
      }
    }

    /** What a first pool of index `i` takes. */
    lemma FirstPoolSize(i: nat)
      requires pool.layout.Valid() && MIN_INDEX <= i <= MAX_INDEX
      ensures
        var n := AlignUp(Requested(pool.layout, ObjectCount(Pow2(i)), Pow2(i)), 4);
        && (i <= 19 ==> n <= pool.layout.pool + 0x8_0008)
        && (i >= 20 ==> n >= 0x10_0000)
    {
      hide Pow2;
      var size, count := Pow2(i), ObjectCount(Pow2(i));
      Pow2Values();
      if i <= 19 {
        Pow2Mono(i, 19);
      } else {
        Pow2Mono(20, i);
      }
      FirstCount(size, count);
    }

    lemma FirstCount(size: nat, count: nat)
      requires size >= 4 && count == ObjectCount(size)
      ensures count >= 1 && count * size >= size
      ensures size <= 0x8_0000 ==> count + count * size <= 0x8_0001
    {
      if size >= 0x4000 {
        assert count == 1;
      } else {
        DivTimes(0x4000, size);
        MulMono(1, count, size);
        MulMono(4, size, count);
      }
    }

    /**
     A new heap serves every request whose object, with prefix and postfix, has at most half
     a megabyte, and no larger one, provided the allocators' own objects and a pool header
     leave that half free.
     */
    lemma NewHeapServes(inputSize: nat)
      requires Valid() && pool.all == {} && bubble.taken == 0
      requires pool.layout.pool + 0x8_0008 <= bubble.size < 0x10_0000
      ensures
        pool.Refused(inputSize, BubbleAnswer(bubble.base, bubble.size, 4, bubble.taken)) <==>
          pool.layout.prefix + inputSize + pool.layout.postfix > 0x8_0000
    {
      hide PoolAllocator.Structure, PoolAllocator.Objects, PoolAllocator.Pools, PoolAllocator.Refused, Requested, Pow2, ObjectCount, AlignUp;
      var wanted := inputSize + pool.layout.prefix + pool.layout.postfix;
      FirstPoolExactly(inputSize);
      HeapLayout();
      Pow2Values();
      if wanted <= 0x8_0000 {
        var i := PoolAllocator.SomeIndex(wanted);
        FirstPoolSize(i);
        assert RoomForPool(i);
      } else {
        forall i: nat | PoolAllocator.BestIndex(wanted, i) ensures !RoomForPool(i) {
          if i <= 19 {
            Pow2Mono(i, 19);
          }
          FirstPoolSize(i);
        }
      }
    }

    lemma HeapLayout()
      requires Valid()
      ensures pool.layout.Valid()
    {
    }

    /** Live objects, with their prefixes and postfixes, overlap nothing else that is live and lie inside the heap. */
    lemma LiveApart(a: nat, b: nat)
      requires Valid() && a in pool.objects && b in pool.objects
      ensures a != b ==> pool.Extent(a).Apart(pool.Extent(b))
      ensures bubble.base <= pool.Extent(a).address
      ensures pool.Extent(a).address + pool.Extent(a).size <= bubble.base + bubble.size
    {
      hide PoolAllocator.Valid, PoolAllocator.Extent, Pool.Base;
      if a != b {
        pool.LiveObjectsDisjoint(a, b);
      }
      ExtentInside(a);
    }

    lemma ExtentInside(a: nat)
      requires Valid() && a in pool.objects
      ensures bubble.base <= pool.Extent(a).address
      ensures pool.Extent(a).address + pool.Extent(a).size <= bubble.base + bubble.size
    {
      hide PoolAllocator.Structure, PoolAllocator.Pools, PoolAllocator.Objects;
      assert pool.objects[a].pool in pool.all by { pool.PoolOf(a); }
      pool.LiveObjectPlaced(a, pool.objects[a].pool);
    }

    /** Any run of requests from any valid state, in particular from a new heap, keeps all of this. */
    method Serve(requests: seq<Request>)
      requires Valid()
      modifies pool, pool.all, bubble
      ensures Valid()
      ensures forall a, b :: a in pool.objects && b in pool.objects && a != b ==> pool.Extent(a).Apart(pool.Extent(b))
    {
      hide Valid;
      ghost var before := pool.all;
      for i := 0 to |requests|
        invariant Valid() && fresh(pool.all - before)
      {
        match requests[i]
        case Allocate(size, alignment) =>
          var r, addr := this.Allocate(size, alignment);
        case Release(addr) =>
          if addr >= pool.layout.prefix && addr - pool.layout.prefix in pool.objects {
            this.Release(addr);
          }
      }
      forall a, b | a in pool.objects && b in pool.objects && a != b ensures pool.Extent(a).Apart(pool.Extent(b)) {
        LiveApart(a, b);
      }
    }
  }
}
