/** The PoolAllocator class: linked pool lists, allocation and release, and the disjointness of everything live. */
module PoolAllocators {
  import opened Basics
  import opened BitArrays
  import opened Heap

  /** The object prefix: the pool the object belongs to; `size` is the aligned payload size. */
  datatype Object = Object(pool: Pool, size: nat)

  datatype Result = Success | InvalidAlignment | InvalidSize | OutOfMemory

  function At(l: seq<Pool>, k: int): Pool? {
    if 0 <= k < |l| then l[k] else null
  }

  /** The pools of `l` form a doubly linked list in this order. */
  ghost predicate Linked(l: seq<Pool>)
    reads l
  {
    forall k :: 0 <= k < |l| ==> l[k].next == At(l, k + 1) && l[k].prev == At(l, k - 1)
  }

  /** Every pool is in the list of its index, once, and the heads are the first of each list. */
  ghost predicate Filed(heads: seq<Pool?>, lists: seq<seq<Pool>>, all: set<Pool>) {
    && |heads| == |lists| == LISTS
    && (forall i, p :: 0 <= i < LISTS && p in lists[i] ==> p in all && p.index == i)
    && (forall p :: p in all ==> p.index < LISTS && p in lists[p.index])
    && (forall i :: 0 <= i < LISTS ==> NoDuplicates(lists[i]))
    && (forall i :: 0 <= i < LISTS ==> heads[i] == At(lists[i], 0))
  }

  lemma FiledMembers(heads: seq<Pool?>, lists: seq<seq<Pool>>, all: set<Pool>)
    requires Filed(heads, lists, all)
    ensures forall i, q :: 0 <= i < LISTS && q in lists[i] ==> q in all
  {
  }

  lemma FiledPush(heads: seq<Pool?>, lists: seq<seq<Pool>>, all: set<Pool>, p: Pool)
    requires Filed(heads, lists, all) && p !in all && p.index < LISTS
    ensures Filed(heads[p.index := p], lists[p.index := [p] + lists[p.index]], all + {p})
  {
    assert NoDuplicates([p] + lists[p.index]);
  }

  lemma FiledBasics(heads: seq<Pool?>, lists: seq<seq<Pool>>, all: set<Pool>, i: nat)
    requires Filed(heads, lists, all) && i < LISTS
    ensures |heads| == |lists| == LISTS && NoDuplicates(lists[i]) && heads[i] == At(lists[i], 0)
    ensures forall q :: q in lists[i] ==> q in all && q.index == i
    ensures forall k :: 0 <= k < |lists[i]| ==> (k == 0 <==> heads[i] == lists[i][k])
  {
  }

  lemma FiledIn(heads: seq<Pool?>, lists: seq<seq<Pool>>, all: set<Pool>, q: Pool)
    requires Filed(heads, lists, all) && q in all
    ensures q.index < |lists| && q in lists[q.index]
  {
  }

  lemma LinkedAt(l: seq<Pool>, k: nat)
    requires Linked(l) && k < |l|
    ensures l[k].next == At(l, k + 1) && l[k].prev == At(l, k - 1)
  {
  }

  /** A pool of one list is in no other. */
  lemma FiledOnce(heads: seq<Pool?>, lists: seq<seq<Pool>>, all: set<Pool>, i: nat, j: nat)
    requires Filed(heads, lists, all) && i < LISTS && j < LISTS && i != j
    ensures forall q :: q in lists[j] ==> q !in lists[i] && q in all
  {
    forall q | q in lists[j] ensures q !in lists[i] && q in all {
      assert q.index == j;
    }
  }

  lemma FiledUnlink(heads: seq<Pool?>, lists: seq<seq<Pool>>, all: set<Pool>, p: Pool, k: nat)
    requires Filed(heads, lists, all) && p in all && k < |lists[p.index]| && lists[p.index][k] == p
    ensures p.index < LISTS
    ensures
      var l := lists[p.index][..k] + lists[p.index][k + 1..];
      Filed(heads[p.index := At(l, 0)], lists[p.index := l], all - {p})
  {
    UnlinkedOrder(lists[p.index], k);
  }

  twostate lemma StillLinked(l: seq<Pool>)
    requires old(Linked(l)) && forall q :: q in l ==> q.prev == old(q.prev) && q.next == old(q.next)
    ensures Linked(l)
  {
  }

  /** Links `p` in front of the list that starts at `head`. */
  method LinkFront(p: Pool, head: Pool?, ghost l: seq<Pool>)
    requires Linked(l) && head == At(l, 0) && p !in l && NoDuplicates(l)
    modifies p`prev, p`next, l`prev
    ensures Linked([p] + l)
  {
    p.prev := null;
    p.next := head;
    if head != null {
      head.prev := p;
    }
    ghost var r := [p] + l;
    forall k | 0 <= k < |r| ensures r[k].next == At(r, k + 1) && r[k].prev == At(r, k - 1) {
      if k > 0 {
        assert r[k] == l[k - 1];
        assert At(r, k + 1) == At(l, k) && (k > 1 ==> At(r, k - 1) == At(l, k - 2));
      }
    }
  }

  /** Makes `a` and `b` neighbours. */
  method Splice(a: Pool?, b: Pool?, ghost l: seq<Pool>)
    requires (a != null ==> a in l) && (b != null ==> b in l)
    modifies l`prev, l`next
    ensures forall q :: q in l ==> q.next == (if q == a then b else old(q.next)) && q.prev == (if q == b then a else old(q.prev))
  {
    if a != null {
      a.next := b;
    }
    if b != null {
      b.prev := a;
    }
  }

  /** Takes the pool at place `k` out of its list. */
  method LinkAround(p: Pool, ghost l: seq<Pool>, ghost k: nat)
    requires Linked(l) && NoDuplicates(l) && k < |l| && l[k] == p
    modifies l`prev, l`next
    ensures Linked(l[..k] + l[k + 1..])
  {
    LinkedAt(l, k);
    ghost var next := seq(|l|, m requires 0 <= m < |l| reads l => l[m].next);
    ghost var prev := seq(|l|, m requires 0 <= m < |l| reads l => l[m].prev);
    assert forall m :: 0 <= m < |l| ==> next[m] == At(l, m + 1) && prev[m] == At(l, m - 1);
    Splice(p.prev, p.next, l);
    Relinked(l, k, next, prev);
  }

  /** What the list looks like after the neighbours of place `k` were linked to each other. */
  lemma Relinked(l: seq<Pool>, k: nat, next: seq<Pool?>, prev: seq<Pool?>)
    requires NoDuplicates(l) && k < |l| == |next| == |prev|
    requires forall m :: 0 <= m < |l| ==> next[m] == At(l, m + 1) && prev[m] == At(l, m - 1)
    requires forall m :: 0 <= m < |l| ==> l[m].next == if l[m] == prev[k] then next[k] else next[m]
    requires forall m :: 0 <= m < |l| ==> l[m].prev == if l[m] == next[k] then prev[k] else prev[m]
    ensures Linked(l[..k] + l[k + 1..])
  {
    var r := l[..k] + l[k + 1..];
    forall j | 0 <= j < |r| ensures r[j].next == At(r, j + 1) && r[j].prev == At(r, j - 1) {
      RelinkedAt(l, k, if j < k then j else j + 1);
    }
  }

  /** Places of the shorter list, seen from place `m` of the longer one. */
  lemma RelinkedAt(l: seq<Pool>, k: nat, m: nat)
    requires NoDuplicates(l) && k < |l| && m < |l| && m != k
    ensures
      var r, j := l[..k] + l[k + 1..], if m < k then m else m - 1;
      && r[j] == l[m]
      && At(r, j + 1) == (if l[m] == At(l, k - 1) then At(l, k + 1) else At(l, m + 1))
      && At(r, j - 1) == (if l[m] == At(l, k + 1) then At(l, k - 1) else At(l, m - 1))
  {
    assert k >= 1 && m != k - 1 ==> l[m] != l[k - 1];
    assert k + 1 < |l| && m != k + 1 ==> l[m] != l[k + 1];
  }

  class PoolAllocator {
    const layout: Layout
    var heads: seq<Pool?>
    var objects: map<nat, Object>
    ghost var lists: seq<seq<Pool>>
    ghost var all: set<Pool>

    constructor (layout: Layout)
      requires layout.Valid()
      ensures Valid() && this.layout == layout && all == {} && objects == map[]
    {
      this.layout := layout;
      heads := seq(LISTS, _ => null);
      objects := map[];
      lists := seq(LISTS, _ => []);
      all := {};
    }

    ghost predicate Structure()
      reads this, all
    {
      && Filed(heads, lists, all)
      && (forall i, q :: 0 <= i < LISTS && q in lists[i] ==> q in all)
      && forall i :: 0 <= i < LISTS ==> Linked(lists[i])
    }

    /** Every pool is laid out inside its block, and blocks do not overlap. */
    ghost predicate Pools()
      reads this, all
    {
      && layout.Valid()
      && (forall p :: p in all ==> p.layout == layout && p.Valid())
      && (forall p, q :: p in all && q in all && p != q ==> p.block.Apart(q.block))
    }

    /** Prefixes and bitmaps agree: an object stands exactly where a bit is set, in a chunk large enough for it. */
    ghost predicate Objects()
      reads this, all
    {
      && (forall a :: a in objects ==> Stands(a))
      && (forall p, k: nat :: p in all && k < |p.bits| && p.bits[k] ==> p.Chunk(k) in objects && objects[p.Chunk(k)].pool == p)
    }

    /** The object at chunk address `a` occupies a set chunk of its pool; prefix, payload and postfix fit in it. */
    ghost predicate Stands(a: nat)
      requires a in objects
      reads this, all
    {
      var o := objects[a];
      o.pool in all
      && layout.prefix + o.size + layout.postfix <= o.pool.ChunkSize()
      && o.size > 0 && o.size % 4 == 0
      && exists k: nat :: k < |o.pool.bits| && o.pool.bits[k] && o.pool.Chunk(k) == a
    }

    ghost predicate Valid()
      reads this, all
    {
      Structure() && Pools() && Objects()
    }

    // ------------------------------------------------------------ pool lists

    /** Puts a new pool at the head of its list. */
    method PushFront(p: Pool)
      requires Structure() && p !in all && p.index < LISTS
      modifies this`heads, this`lists, this`all, p`prev, p`next, all`prev
      ensures Structure() && all == old(all) + {p}
      ensures lists == old(lists)[p.index := [p] + old(lists)[p.index]]
    {
      var i := p.index;
      hide Linked, Filed;
      FiledPush(heads, lists, all, p);
      FiledBasics(heads, lists, all, i);
      LinkFront(p, heads[i], lists[i]);
      forall j | 0 <= j < LISTS && j != i ensures Linked(lists[j]) {
        FiledOnce(heads, lists, all, i, j);
        StillLinked(lists[j]);
      }
      heads := heads[i := p];
      lists := lists[i := [p] + lists[i]];
      all := all + {p};
      FiledMembers(heads, lists, all);
    }

    /** The pointer updates of releasePool; returns the pool that followed. */
    method Unchain(p: Pool, ghost k: nat) returns (next: Pool?)
      requires Structure() && p in all && p.index < LISTS && k < |lists[p.index]| && lists[p.index][k] == p
      modifies all`prev, all`next
      ensures next == At(lists[p.index], k + 1)
      ensures Linked(lists[p.index][..k] + lists[p.index][k + 1..])
      ensures forall j :: 0 <= j < LISTS && j != p.index ==> Linked(lists[j])
    {
      hide Linked, Filed, At;
      FiledBasics(heads, lists, all, p.index);
      LinkedAt(lists[p.index], k);
      next := p.next;
      LinkAround(p, lists[p.index], k);
      forall j | 0 <= j < LISTS && j != p.index ensures Linked(lists[j]) {
        FiledOnce(heads, lists, all, p.index, j);
        StillLinked(lists[j]);
      }
    }

    /** The update of the administration in releasePool. */
    method Unlink(p: Pool, ghost k: nat)
      requires Structure() && p in all && k < |lists[p.index]| && lists[p.index][k] == p
      modifies this`heads, this`lists, this`all, all`prev, all`next
      ensures Structure() && all == old(all) - {p}
      ensures lists == old(lists)[p.index := old(lists)[p.index][..k] + old(lists)[p.index][k + 1..]]
    {
      hide Linked, Filed, At;
      var i := p.index;
      FiledUnlink(heads, lists, all, p, k);
      FiledBasics(heads, lists, all, i);
      HeadWithout(lists[i], k);
      var next := Unchain(p, k);
      if heads[i] == p {
        heads := heads[i := next];
      }
      lists := lists[i := lists[i][..k] + lists[i][k + 1..]];
      all := all - {p};
      assert heads == old(heads)[i := At(lists[i], 0)];
      FiledMembers(heads, lists, all);
    }

    // --------------------------------------------------------------- geometry

    /** Two different chunks, of one pool or of two, do not overlap. */
    lemma ChunksDisjoint(p: Pool, j: nat, q: Pool, k: nat)
      requires Pools() && p in all && q in all && j < p.count && k < q.count && (p != q || j != k)
      ensures Range(p.Chunk(j), p.ChunkSize()).Apart(Range(q.Chunk(k), q.ChunkSize()))
    {
      if p == q {
        if j < k { ChunksApart(p, j, k); } else { ChunksApart(p, k, j); }
      } else {
        ChunkInBlock(p, j);
        ChunkInBlock(q, k);
      }
    }

    /** No chunk overlaps the header or the bitmap of any pool. */
    lemma ChunkOffHeaders(p: Pool, j: nat, q: Pool)
      requires Pools() && p in all && q in all && j < p.count
      ensures Range(p.Chunk(j), p.ChunkSize()).Apart(Range(q.block.address, q.Base() - q.block.address))
    {
      ChunkInBlock(p, j);
      if p != q {
        ChunkInBlock(q, 0);
        MulMono(0, q.count, q.ChunkSize());
      }
    }

    /** The range an object occupies with its prefix and postfix. */
    ghost function Extent(a: nat): Range
      requires a in objects
      reads this
    {
      Range(a, layout.prefix + objects[a].size + layout.postfix)
    }

    /** The chunk an object stands in. */
    lemma ChunkOf(a: nat) returns (k: nat)
      requires Pools() && Objects() && a in objects
      ensures
        var p := objects[a].pool;
        && p in all && k < p.count && k < |p.bits| && p.bits[k] && p.Chunk(k) == a
        && layout.prefix + objects[a].size + layout.postfix <= p.ChunkSize()
    {
      hide Pool.Chunk, Pool.ChunkSize;
      assert Stands(a);
      var p := objects[a].pool;
      k :| k < |p.bits| && p.bits[k] && p.Chunk(k) == a;
    }

    /** Any two live objects, each with its prefix and postfix, are disjoint. */
    lemma LiveObjectsDisjoint(a: nat, b: nat)
      requires Valid() && a in objects && b in objects && a != b
      ensures Extent(a).Apart(Extent(b))
    {
      hide Structure, Pools, Objects, Pool.Chunk, Pool.ChunkSize;
      var j := ChunkOf(a);
      var k := ChunkOf(b);
      ChunksDisjoint(objects[a].pool, j, objects[b].pool, k);
    }

    /** A live object, with its prefix and postfix, lies in one chunk of its pool and clear of every pool's header and bitmap. */
    lemma LiveObjectPlaced(a: nat, q: Pool)
      requires Valid() && a in objects && q in all
      ensures Extent(a).Apart(Range(q.block.address, layout.pool + AlignUp(q.count, 4)))
      ensures
        var p := objects[a].pool;
        p in all && p.Base() <= a && Extent(a).address + Extent(a).size <= p.block.address + p.block.size
    {
      hide Structure, Objects, Pool.Chunk, Pool.ChunkSize, AlignUp;
      var k := ChunkOf(a);
      ChunkOffHeaders(objects[a].pool, k, q);
      ChunkInBlock(objects[a].pool, k);
    }

    /** The backward scan of release, in steps of four from the end of the chunk, meets the postfix before the prefix. */
    lemma PostfixIsScanned(a: nat)
      requires Valid() && a in objects
      ensures
        var at, size := layout.prefix + objects[a].size, objects[a].pool.ChunkSize();
        layout.prefix < at <= size - 4 && (size - 4 - at) % 4 == 0
    {
      hide Structure, Fits, Pool.Chunk, Pow2;
      assert Stands(a) && objects[a].pool.Valid();
      ScanMeets(layout.prefix, objects[a].size, objects[a].pool.ChunkSize());
    }

    // ------------------------------------------------------------- allocation

    /** Asks the parent for a block and makes a pool of it; `parent` answers requests by size. */
    method AllocatePool(index: nat, objectCount: nat, parent: nat -> Option<Range>) returns (p: Pool?)
      requires Valid() && MIN_INDEX <= index <= MAX_INDEX && objectCount >= 1 && Sound(parent)
      modifies this`heads, this`lists, this`all, all`prev
      ensures Valid() && objects == old(objects)
      ensures p == null <==> parent(Requested(layout, objectCount, Pow2(index))).None?
      ensures p == null ==> all == old(all) && lists == old(lists)
      ensures p != null ==> fresh(p) && all == old(all) + {p} && p.index == index && p.count >= objectCount && p.Snug()
      ensures p != null ==> index < |old(lists)| && lists == old(lists)[index := [p] + old(lists)[index]]
      ensures p != null ==> parent(Requested(layout, objectCount, Pow2(index))) == Some(p.block)
      ensures p != null ==> p.HasRoom() && p.lastBit == 0 && forall k :: 0 <= k < |p.bits| ==> !p.bits[k]
    {
      hide Valid, Requested, Pow2, Fits, Sound, Pool.Snug;
      var answer := parent(Requested(layout, objectCount, Pow2(index)));
      if answer.None? {
        return null;
      }
      SoundAt(parent, Requested(layout, objectCount, Pow2(index)));
      var pool := MakePool(answer.value, index, objectCount);
      AddPool(pool);
      p := pool;
    }

    lemma SoundAt(parent: nat -> Option<Range>, n: nat)
      requires Valid() && Sound(parent) && parent(n).Some?
      ensures layout.Valid() && parent(n).value.size >= n
      ensures forall p :: p in all ==> parent(n).value.Apart(p.block)
    {
    }

    /** Lays a pool out in a block: header, bitmap and as many chunks as fit. */
    method MakePool(block: Range, index: nat, objectCount: nat) returns (pool: Pool)
      requires layout.Valid() && MIN_INDEX <= index <= MAX_INDEX && objectCount >= 1
      requires block.size >= Requested(layout, objectCount, Pow2(index))
      ensures fresh(pool) && pool.Valid() && pool.layout == layout && pool.block == block
      ensures pool.index == index && pool.count >= objectCount && pool.Snug()
      ensures pool.lastBit == 0 && forall k :: 0 <= k < |pool.bits| ==> !pool.bits[k]
    {
      hide Requested, Fits;
      var count := FitPool(layout, objectCount, Pow2(index), block.size);
      pool := new Pool(layout, block, index, count);
    }

    /** Takes up a new empty pool that overlaps no other. */
    method AddPool(pool: Pool)
      requires Valid() && pool !in all && pool.Valid() && pool.layout == layout
      requires forall q :: q in all ==> pool.block.Apart(q.block)
      requires forall k :: 0 <= k < |pool.bits| ==> !pool.bits[k]
      modifies this`heads, this`lists, this`all, pool`prev, pool`next, all`prev
      ensures Valid() && all == old(all) + {pool} && pool.HasRoom()
      ensures pool.index < |old(lists)| && lists == old(lists)[pool.index := [pool] + old(lists)[pool.index]]
    {
      hide Structure, Pools, Objects, Fits, Pow2;
      assert !pool.bits[0];
      OneListPerIndex();
      PushFront(pool);
      PoolsGrow(pool);
      ObjectsGrow(pool);
    }

    twostate lemma PoolsGrow(new p: Pool)
      requires old(Pools()) && all == old(all) + {p} && p.layout == layout && p.Valid()
      requires forall q :: q in old(all) ==> q.bits == old(q.bits) && p.block.Apart(q.block)
      ensures Pools()
    {
    }

    twostate lemma ObjectsGrow(new p: Pool)
      requires old(Objects()) && all == old(all) + {p} && objects == old(objects)
      requires forall q :: q in old(all) ==> q.bits == old(q.bits)
      requires forall k :: 0 <= k < |p.bits| ==> !p.bits[k]
      ensures Objects()
    {
      forall a | a in objects ensures Stands(a) {
        assert old(Stands(a));
      }
    }

    /** Blocks from the parent are as large as asked for and overlap no pool. */
    ghost predicate Sound(parent: nat -> Option<Range>)
      reads this
    {
      forall n :: parent(n).Some? ==>
        parent(n).value.size >= n && forall p :: p in all ==> parent(n).value.Apart(p.block)
    }

    /** The smallest pool index whose objects hold `requested` bytes, or MAX_INDEX + 1. */
    static method FindIndex(requested: nat) returns (index: nat)
      ensures MIN_INDEX <= index <= MAX_INDEX + 1
      ensures index <= MAX_INDEX ==> requested <= Pow2(index)
      ensures forall j :: MIN_INDEX <= j < index ==> Pow2(j) < requested
      ensures index <= MAX_INDEX <==> requested <= 0x800_0000
      ensures requested > 4 ==> Pow2(index) < 2 * requested
    {
      hide Pow2;
      Pow2Values();
      index := MIN_INDEX;
      while index <= MAX_INDEX && requested > Pow2(index)
        invariant MIN_INDEX <= index <= MAX_INDEX + 1
        invariant forall j :: MIN_INDEX <= j < index ==> Pow2(j) < requested
      {
        index := index + 1;
      }
      if index > MIN_INDEX {
        Pow2Doubles(index - 1);
      }
      if index <= MAX_INDEX {
        Pow2Mono(index, MAX_INDEX);
      }
      MinimumSize();
    }

    static lemma MinimumSize()
      ensures Pow2(MIN_INDEX) == 4
    {
    }

    /** Among the pools of index `i` this is the first one with room. */
    ghost predicate FirstRoom(i: nat, pool: Pool)
      reads this, all
    {
      && i < |lists| && pool in all && pool.HasRoom()
      && exists n :: 0 <= n < |lists[i]| && lists[i][n] == pool && NoRoomBefore(i, n)
    }

    ghost predicate NoRoomBefore(i: nat, n: int)
      requires i < |lists| && n <= |lists[i]|
      reads this, all
    {
      forall m :: 0 <= m < n && lists[i][m] in all ==> !lists[i][m].HasRoom()
    }

    /** The first pool of the list with room, or null; `n` counts the pools looked at. */
    method FindRoom(index: nat) returns (pool: Pool?, n: nat)
      requires Valid() && index < LISTS
      ensures pool != null ==> pool in all && pool.index == index && pool.HasRoom() && FirstRoom(index, pool)
      ensures pool == null <==> Full(index)
      ensures pool == null ==> n == |lists[index]|
    {
      hide Linked, Filed, Objects, Fits, Pow2;
      FiledBasics(heads, lists, all, index);
      ghost var l := lists[index];
      pool := heads[index];
      n := 0;
      while pool != null
        invariant n <= |l| && pool == At(l, n)
        invariant forall q :: q in l[..n] ==> !q.HasRoom()
        decreases |l| - n
      {
        assert pool in l && pool.Valid();
        LinkedAt(l, n);
        ClearZero(pool.bits);
        if Clear(pool.bits) != 0 {
          assert NoRoomBefore(index, n);
          return;
        }
        assert l[..n + 1] == l[..n] + [pool];
        pool := pool.next;
        n := n + 1;
      }
      assert l[..n] == l;
      forall q | q in all && q.index == index ensures !q.HasRoom() {
        FiledIn(heads, lists, all, q);
      }
    }

    /** The smallest objects that hold `requested` bytes have index `i`. */
    static ghost predicate BestIndex(requested: nat, i: nat) {
      && MIN_INDEX <= i <= MAX_INDEX && requested <= Pow2(i)
      && forall j :: MIN_INDEX <= j < i ==> Pow2(j) < requested
    }

    /** How much the parent is asked for when the list of index `i` has to grow. */
    ghost function Growth(i: nat): nat
      requires i < |lists|
      reads this
    {
      Requested(layout, ObjectCount(Pow2(i)) * (if lists[i] == [] then 1 else |lists[i]|), Pow2(i))
    }

    /** No pool of index `i` has room. */
    ghost predicate Full(i: nat)
      reads this, all
    {
      forall q :: q in all && q.index == i ==> !q.HasRoom()
    }

    /** No pool of index `i` has room and the parent refuses to give another. */
    ghost predicate Stuck(i: nat, parent: nat -> Option<Range>)
      requires i < |lists|
      reads this, all
    {
      Full(i) && parent(Growth(i)).None?
    }

    /** What an object of this size makes the allocator ask its parent for: a block exactly when its list is full. */
    ghost function Demand(inputSize: nat): Option<nat>
      reads this, all
    {
      var requested := inputSize + layout.prefix + layout.postfix;
      if exists i: nat :: BestIndex(requested, i) && i < |lists| && Full(i) then
        var i: nat :| BestIndex(requested, i) && i < |lists| && Full(i);
        Some(Growth(i))
      else None
    }

    /** The pools are those of before, and one more in front of its list, in all of the block the parent gave if it gave one. */
    ghost predicate Grew(before: set<Pool>, lists0: seq<seq<Pool>>, asked: Option<nat>, parent: nat -> Option<Range>)
      reads this
    {
      if asked.None? || parent(asked.value).None? then all == before && lists == lists0
      else exists p :: p in all && p !in before && all == before + {p} && Opened(lists0, asked, parent, p)
    }

    ghost predicate Opened(lists0: seq<seq<Pool>>, asked: Option<nat>, parent: nat -> Option<Range>, p: Pool)
      reads this
    {
      && asked.Some? && parent(asked.value) == Some(p.block) && p.Snug()
      && p.index < |lists0| && lists == lists0[p.index := [p] + lists0[p.index]]
    }

    /** An object of this size cannot be had: no pool index is large enough for it, or its list is stuck. */
    ghost predicate Refused(inputSize: nat, parent: nat -> Option<Range>)
      reads this, all
    {
      var requested := inputSize + layout.prefix + layout.postfix;
      forall i: nat :: BestIndex(requested, i) ==> i < |lists| && Stuck(i, parent)
    }

    /** The growth in numbers: a list of n pools asks for n times 16 KB of objects, or n objects when one takes more. */
    lemma GrowthIs(i: nat)
      requires Valid() && MIN_INDEX <= i <= MAX_INDEX
      ensures i < |lists|
      ensures
        var n := if lists[i] == [] then 1 else |lists[i]|;
        Growth(i) == layout.pool + AlignUp(n * ObjectCount(Pow2(i)), 4) + n * (if i <= 14 then 0x4000 else Pow2(i))
    {
      hide Structure, Objects, Pow2, AlignUp, ObjectCount, Requested;
      OneListPerIndex();
      var n := if lists[i] == [] then 1 else |lists[i]|;
      RequestIs(layout, ObjectCount(Pow2(i)) * n, Pow2(i));
      Regroup(ObjectCount(Pow2(i)), n, Pow2(i));
      FirstPayload(i);
    }

    lemma OneListPerIndex()
      requires Valid()
      ensures |lists| == LISTS
    {
    }

    lemma EmptyLists()
      requires Valid() && all == {}
      ensures |lists| == LISTS && forall i :: 0 <= i < LISTS ==> lists[i] == []
      ensures forall i: nat, n :: BestIndex(n, i) ==> i < LISTS && Growth(i) == Requested(layout, ObjectCount(Pow2(i)), Pow2(i))
    {
      hide Linked, Pow2, Requested;
      OneListPerIndex();
      forall i | 0 <= i < LISTS ensures lists[i] == [] {
        if lists[i] != [] {
          assert lists[i][0] in lists[i];
          FiledBasics(heads, lists, all, i);
          assert false;
        }
      }
    }

    /** Every request up to the largest object size has its index. */
    static lemma SomeIndex(requested: nat) returns (i: nat)
      requires requested <= 0x800_0000
      ensures BestIndex(requested, i)
    {
      hide Pow2;
      Pow2Values();
      i := MIN_INDEX;
      while requested > Pow2(i)
        invariant MIN_INDEX <= i <= MAX_INDEX
        invariant forall j :: MIN_INDEX <= j < i ==> Pow2(j) < requested
        decreases MAX_INDEX - i
      {
        i := i + 1;
      }
    }

    static lemma BestIndexUnique(requested: nat, i: nat, j: nat)
      requires BestIndex(requested, i) && BestIndex(requested, j)
      ensures i == j
    {
      hide Pow2;
    }

    /** A pool with room for the object, an existing one if there is one; `asked` is the request made to the parent. */
    method RetrievePool(inputSize: nat, parent: nat -> Option<Range>) returns (pool: Pool?, asked: Option<nat>)
      requires Valid() && Sound(parent)
      modifies this`heads, this`lists, this`all, all`prev
      ensures Valid() && objects == old(objects) && old(all) <= all && fresh(all - old(all))
      ensures pool != null ==> pool in all && pool.HasRoom()
      ensures pool != null ==> BestIndex(inputSize + layout.prefix + layout.postfix, pool.index)
      ensures pool == null <==> old(Refused(inputSize, parent))
      ensures asked == old(Demand(inputSize)) && Grew(old(all), old(lists), asked, parent)
      ensures pool != null && asked.None? ==> pool in old(all) && old(FirstRoom(pool.index, pool))
      ensures pool != null && asked.Some? ==> fresh(pool) && pool.lastBit == 0 && forall k :: 0 <= k < |pool.bits| ==> !pool.bits[k]
    {
      hide Valid, Pow2, Sound, Requested, FirstRoom, Pool.Snug;
      asked := None;
      var requested := inputSize + layout.prefix + layout.postfix;
      var index := FindIndex(requested);
      OneListPerIndex();
      if index > MAX_INDEX {
        return null, asked;
      }
      forall i | BestIndex(requested, i) ensures i == index {
        BestIndexUnique(requested, i, index);
      }
      assert BestIndex(requested, index);
      assert Refused(inputSize, parent) <==> Stuck(index, parent);
      var n;
      pool, n := FindRoom(index);
      if pool == null {
        var count := ObjectCount(Pow2(index));
        var pools := if n == 0 then 1 else n;
        MulMono(1, pools, count);
        asked := Some(Requested(layout, count * pools, Pow2(index)));
        assert asked.value == Growth(index);
        pool := AllocatePool(index, count * pools, parent);
        assert pool != null ==> Opened(old(lists), asked, parent, pool);
      }
    }

    /**
     Success puts one new object in a clear chunk of a pool; any other result leaves the
     objects alone. The only new pool is one in a block that the parent gave.
     */
    method Allocate(size: nat, alignment: nat, parent: nat -> Option<Range>) returns (r: Result, addr: nat, asked: Option<nat>)
      requires Valid() && Sound(parent)
      modifies this, all
      ensures Valid() && fresh(all - old(all))
      ensures r == InvalidAlignment <==> alignment != 0
      ensures r == InvalidSize <==> alignment == 0 && size == 0
      ensures r == OutOfMemory <==> alignment == 0 && size > 0 && old(Refused(AlignUp(size, 4), parent))
      ensures asked == if alignment == 0 && size > 0 then old(Demand(AlignUp(size, 4))) else None
      ensures Grew(old(all), old(lists), asked, parent)
      ensures r != Success ==> objects == old(objects)
      ensures r == Success ==>
        var a := addr - layout.prefix;
        && a >= 0 && a !in old(objects) && a in objects
        && objects == old(objects)[a := objects[a]] && objects[a].size == AlignUp(size, 4)
      ensures r == Success ==>
        Chosen(addr - layout.prefix, AlignUp(size, 4) + layout.prefix + layout.postfix, asked)
    {
      hide Valid, Pow2, Sound, Refused, Demand;
      addr, asked := 0, None;
      var inputSize := AlignUp(size, 4);
      if alignment != 0 {
        return InvalidAlignment, addr, asked;
      }
      if inputSize == 0 {
        return InvalidSize, addr, asked;
      }
      var pool;
      pool, asked := RetrievePool(inputSize, parent);
      if pool == null {
        return OutOfMemory, addr, asked;
      }
      var a := Place(pool, inputSize);
      return Success, a + layout.prefix, asked;
    }

    /**
     The new object stands in a pool of the best index: the first one that had room, in the
     next clear chunk behind the one handed out last; or in the first chunk of a new pool.
     */
    twostate predicate Chosen(new a: nat, new requested: nat, new asked: Option<nat>)
      reads this, all
    {
      && a in objects
      && var pool := objects[a].pool;
      && pool in all && BestIndex(requested, pool.index) && a == pool.Chunk(pool.lastBit)
      && if asked.None? then pool in old(all) && old(FirstRoom(pool.index, pool)) && NextChunk(pool)
         else pool !in old(all) && pool.lastBit == 0
    }

    twostate predicate NextChunk(pool: Pool)
      reads pool
    {
      NextFit(old(pool.bits), old(pool.lastBit), 1, 1, pool.lastBit)
    }

    /** Takes a clear chunk of `pool` and writes the object's prefix. */
    method Place(pool: Pool, inputSize: nat) returns (a: nat)
      requires Valid() && pool in all && pool.HasRoom()
      requires layout.prefix + inputSize + layout.postfix <= pool.ChunkSize() && inputSize > 0 && inputSize % 4 == 0
      modifies this`objects, pool`bits, pool`lastBit
      ensures Valid() && a !in old(objects) && objects == old(objects)[a := Object(pool, inputSize)]
      ensures a == pool.Chunk(pool.lastBit) && NextFit(old(pool.bits), old(pool.lastBit), 1, 1, pool.lastBit)
      ensures (forall k :: 0 <= k < |old(pool.bits)| ==> !old(pool.bits)[k]) && old(pool.lastBit) == 0 ==> pool.lastBit == 0
    {
      hide Structure, Pools, Objects, Fits, Pow2, Pool.Chunk, Pool.Base;
      FreshChunks(pool);
      var bit := pool.Allocate();
      var k := bit.value;
      if old(pool.lastBit) == 0 && forall m :: 0 <= m < |old(pool.bits)| ==> !old(pool.bits)[m] {
        FirstOfAll(old(pool.bits), k);
      }
      a := pool.Chunk(k);
      objects := objects[a := Object(pool, inputSize)];
      StructureKept();
      PoolsKept();
      ObjectsPlaced(pool, k, inputSize);
    }

    twostate lemma StructureKept()
      requires old(Structure()) && heads == old(heads) && lists == old(lists) && all == old(all)
      requires forall q :: q in all ==> q.prev == old(q.prev) && q.next == old(q.next)
      ensures Structure()
    {
      forall i | 0 <= i < LISTS ensures Linked(lists[i]) {
        assert old(Linked(lists[i]));
        StillLinked(lists[i]);
      }
    }

    twostate lemma PoolsKept()
      requires old(Pools()) && all == old(all)
      requires forall q :: q in all ==> |q.bits| == |old(q.bits)|
      ensures Pools()
    {
    }

    /** Chunk addresses identify pool and bit. */
    lemma ChunkUnique(p: Pool, j: nat, q: Pool, k: nat)
      requires Pools() && p in all && q in all && j < p.count && k < q.count && p.Chunk(j) == q.Chunk(k)
      ensures p == q && j == k
    {
      if p != q || j != k {
        ChunksDisjoint(p, j, q, k);
      }
    }

    twostate lemma ObjectsPlaced(pool: Pool, new k: nat, new size: nat)
      requires old(Pools()) && old(Objects()) && all == old(all) && pool in all && k < pool.count && !old(pool.bits)[k]
      requires pool.bits == old(pool.bits)[k := true]
      requires forall q :: q in all && q != pool ==> q.bits == old(q.bits)
      requires objects == old(objects)[pool.Chunk(k) := Object(pool, size)]
      requires layout.prefix + size + layout.postfix <= pool.ChunkSize() && size > 0 && size % 4 == 0
      requires pool.Chunk(k) !in old(objects)
      ensures Objects()
    {
      hide Pools, Pool.Chunk, Pool.ChunkSize;
      var a := pool.Chunk(k);
      OldPoolsCounts();
      forall b | b in objects ensures Stands(b) {
        if b != a {
          assert old(Stands(b));
          var p := objects[b].pool;
          var m: nat :| m < |old(p.bits)| && old(p.bits)[m] && p.Chunk(m) == b;
          assert m < |p.bits| && p.bits[m];
        } else {
          assert k < |pool.bits| && pool.bits[k] && pool.Chunk(k) == a;
        }
      }
      forall p, m: nat | p in all && m < |p.bits| && p.bits[m]
        ensures p.Chunk(m) in objects && objects[p.Chunk(m)].pool == p
      {
        if p != pool || m != k {
          assert old(p.bits)[m];
        }
      }
    }

    twostate lemma OldPoolsCounts()
      requires old(Pools()) && all == old(all)
      ensures forall q :: q in all ==> |old(q.bits)| == q.count
    {
    }

    lemma FreshChunks(pool: Pool)
      requires Pools() && Objects() && pool in all
      ensures pool.Valid()
      ensures forall k: nat :: k < pool.count && !pool.bits[k] ==> pool.Chunk(k) !in objects
    {
      hide Pool.Chunk;
      assert pool.Valid();
      forall k: nat | k < pool.count && !pool.bits[k] ensures pool.Chunk(k) !in objects {
        FreshChunk(pool, k);
      }
    }

    /** A clear chunk holds no object. */
    lemma FreshChunk(pool: Pool, k: nat)
      requires Pools() && Objects() && pool in all && k < pool.count && k < |pool.bits| && !pool.bits[k]
      ensures pool.Chunk(k) !in objects
    {
      hide Pools, Objects, Pool.Chunk;
      if pool.Chunk(k) in objects {
        var m := ChunkOf(pool.Chunk(k));
        ChunkUnique(objects[pool.Chunk(k)].pool, m, pool, k);
      }
    }

    // ---------------------------------------------------------------- release

    /** The bit that BitAllocator::release computes from an address. */
    lemma BitFromAddress(a: nat, k: nat)
      requires a in objects && objects[a].pool.Chunk(k) == a
      ensures var p := objects[a].pool; a >= p.Base() && (a - p.Base()) / p.ChunkSize() == k
    {
      var p := objects[a].pool;
      MulMono(0, k, p.ChunkSize());
      assert k * p.ChunkSize() == p.ChunkSize() * k;
      ModUnique(a - p.Base(), p.ChunkSize(), k, 0);
    }

    /** Clears the object's bit and forgets its prefix. */
    method ClearObject(a: nat) returns (pool: Pool)
      requires Valid() && a in objects
      modifies this`objects, objects[a].pool`bits
      ensures Valid() && objects == old(objects) - {a} && pool == old(objects[a].pool) && pool in all
    {
      hide Structure, Pools, Objects, Fits, Pow2, Pool.Chunk, Pool.Base, Pool.ChunkSize;
      pool := objects[a].pool;
      ghost var bit := ChunkOf(a);
      BitFromAddress(a, bit);
      FreshChunks(pool);
      var k := (a - pool.Base()) / pool.ChunkSize();
      pool.bits := pool.bits[k := false];
      objects := objects - {a};
      StructureKept();
      PoolsKept();
      ObjectsCleared(pool, k);
    }

    twostate lemma ObjectsCleared(pool: Pool, new k: nat)
      requires old(Pools()) && old(Objects()) && Pools() && all == old(all) && pool in all
      requires k < |old(pool.bits)| && old(pool.bits)[k] && pool.bits == old(pool.bits)[k := false]
      requires forall q :: q in all && q != pool ==> q.bits == old(q.bits)
      requires objects == old(objects) - {pool.Chunk(k)}
      ensures Objects()
    {
      hide Pools, Pool.Chunk, Pool.ChunkSize;
      var a := pool.Chunk(k);
      OldPoolsCounts();
      forall b | b in objects ensures Stands(b) {
        assert old(Stands(b));
        var p := objects[b].pool;
        var m: nat :| m < |old(p.bits)| && old(p.bits)[m] && p.Chunk(m) == b;
        assert m < |p.bits| && p.bits[m];
      }
      forall p, m: nat | p in all && m < |p.bits| && p.bits[m]
        ensures p.Chunk(m) in objects && objects[p.Chunk(m)].pool == p
      {
        assert old(p.bits)[m] && (p != pool || m != k);
        if p.Chunk(m) == a {
          ChunkUnique(p, m, pool, k);
        }
      }
    }

    /** Gives an empty pool back: takes it off its list. */
    method DropPool(pool: Pool)
      requires Valid() && pool in all && forall k :: 0 <= k < |pool.bits| ==> !pool.bits[k]
      modifies this`heads, this`lists, this`all, all`prev, all`next
      ensures Valid() && all == old(all) - {pool} && objects == old(objects)
    {
      hide Pools, Objects, Linked, Filed;
      ghost var k := PlaceOf(pool);
      Unlink(pool, k);
      PoolsShrink(pool);
      ObjectsShrink(pool);
    }

    lemma PlaceOf(pool: Pool) returns (k: nat)
      requires Filed(heads, lists, all) && pool in all
      ensures pool.index < |lists| && k < |lists[pool.index]| && lists[pool.index][k] == pool
    {
      k :| 0 <= k < |lists[pool.index]| && lists[pool.index][k] == pool;
    }

    twostate lemma PoolsShrink(p: Pool)
      requires old(Pools()) && all == old(all) - {p}
      requires forall q :: q in old(all) ==> q.bits == old(q.bits)
      ensures Pools()
    {
    }

    twostate lemma ObjectsShrink(p: Pool)
      requires old(Objects()) && all == old(all) - {p} && objects == old(objects)
      requires forall q :: q in old(all) ==> q.bits == old(q.bits)
      requires forall k :: 0 <= k < |old(p.bits)| ==> !old(p.bits)[k]
      ensures Objects()
    {
      forall a | a in objects ensures Stands(a) {
        assert old(Stands(a));
      }
    }

    /**
     Releases a live object. When its pool is then empty the parent is offered
     the block; `parentReleases` is whether it takes it.
     */
    method Release(addr: nat, parentReleases: bool)
      requires Valid() && addr >= layout.prefix && addr - layout.prefix in objects
      modifies this, all
      ensures Valid() && objects == old(objects) - {addr - layout.prefix}
      ensures
        var pool := old(objects[addr - layout.prefix].pool);
        all == if parentReleases && NoObjectIn(pool) then old(all) - {pool} else old(all)
    {
      hide Structure, Pools, Objects, Pow2, Fits;
      ghost var k := ChunkOf(addr - layout.prefix);
      var pool := ClearObject(addr - layout.prefix);
      EmptyPoolExactly(pool);
      ClearZero(pool.bits);
      if pool.Available() == |pool.bits| * pool.ChunkSize() && parentReleases {
        AllClear(Clear(pool.bits), |pool.bits|, pool.ChunkSize());
        DropPool(pool);
      }
    }

    ghost predicate NoObjectIn(pool: Pool)
      reads this
    {
      forall b :: b in objects ==> objects[b].pool != pool
    }

    /** A pool's bits are all clear exactly when no object is recorded for it. */
    lemma EmptyPoolExactly(pool: Pool)
      requires Pools() && Objects() && pool in all
      ensures (forall k :: 0 <= k < |pool.bits| ==> !pool.bits[k]) <==> NoObjectIn(pool)
    {
      hide Pools, Pool.Chunk, Pool.ChunkSize;
      if !NoObjectIn(pool) {
        var b :| b in objects && objects[b].pool == pool;
        assert Stands(b);
      }
      if k: nat :| k < |pool.bits| && pool.bits[k] {
        assert pool.Chunk(k) in objects;
      }
    }

    // ------------------------------------------------------------- accounting

    lemma PoolOf(a: nat)
      requires Valid() && a in objects
      ensures objects[a].pool in all
    {
      assert Stands(a);
    }

    /** The live objects of one pool. */
    ghost function LiveIn(pool: Pool): set<nat>
      reads this
    {
      set a | a in objects && objects[a].pool == pool
    }

    /** The objects in the first `n` chunks of a pool, by its bitmap. */
    ghost function LiveUpTo(pool: Pool, n: nat): set<nat>
      requires n <= |pool.bits|
      reads pool
    {
      set k: nat | k < n && pool.bits[k] :: pool.Chunk(k)
    }

    lemma LiveStep(pool: Pool, n: nat)
      requires n < |pool.bits|
      ensures LiveUpTo(pool, n + 1) == LiveUpTo(pool, n) + (if pool.bits[n] then {pool.Chunk(n)} else {})
      ensures pool.Chunk(n) !in LiveUpTo(pool, n)
    {
      hide Pool.Chunk;
      if pool.Chunk(n) in LiveUpTo(pool, n) {
        var k: nat :| k < n && pool.bits[k] && pool.Chunk(k) == pool.Chunk(n);
        ChunksApart(pool, k, n);
      }
      var more := LiveUpTo(pool, n + 1);
      forall a | a in more
        ensures a in LiveUpTo(pool, n) + (if pool.bits[n] then {pool.Chunk(n)} else {})
      {
        var k: nat :| k < n + 1 && pool.bits[k] && pool.Chunk(k) == a;
      }
    }

    lemma LiveNone(pool: Pool)
      ensures LiveUpTo(pool, 0) == {} && Clear(pool.bits[..0]) == 0
    {
    }

    lemma {:induction false} LiveUpToCount(pool: Pool, n: nat)
      requires n <= |pool.bits|
      ensures |LiveUpTo(pool, n)| + Clear(pool.bits[..n]) == n
    {
      hide Pool.Chunk, LiveUpTo, Clear;
      if n > 0 {
        LiveUpToCount(pool, n - 1);
        LiveStep(pool, n - 1);
        ClearAppend(pool.bits[..n - 1], pool.bits[n - 1]);
        assert pool.bits[..n] == pool.bits[..n - 1] + [pool.bits[n - 1]];
      } else {
        LiveNone(pool);
      }
    }

    /** A pool has as many live objects as set bits. */
    lemma LiveCount(pool: Pool)
      requires Pools() && Objects() && pool in all
      ensures |LiveIn(pool)| + Clear(pool.bits) == pool.count
    {
      hide Pool.Chunk, Pool.ChunkSize, Fits;
      assert pool.Valid();
      forall a | a in LiveIn(pool) ensures a in LiveUpTo(pool, pool.count) {
        assert Stands(a);
      }
      forall a | a in LiveUpTo(pool, pool.count) ensures a in LiveIn(pool) {
      }
      assert LiveIn(pool) == LiveUpTo(pool, pool.count);
      LiveUpToCount(pool, pool.count);
      assert pool.bits[..pool.count] == pool.bits;
    }

    /** What one pool costs: its header, its bitmap and one chunk for each live object in it. */
    ghost function Cost(pool: Pool): nat
      reads this
    {
      pool.layout.pool + AlignUp(pool.count, 4) + |LiveIn(pool)| * pool.ChunkSize()
    }

    ghost function ListCost(l: seq<Pool>): nat
      reads this
    {
      if l == [] then 0 else ListCost(l[..|l| - 1]) + Cost(l[|l| - 1])
    }

    ghost function CostBelow(n: nat): nat
      requires n <= |lists|
      reads this
    {
      if n == 0 then 0 else CostBelow(n - 1) + ListCost(lists[n - 1])
    }

    ghost function TotalBelow(n: nat): nat
      requires n <= |lists|
      reads this
    {
      if n == 0 then 0 else TotalBelow(n - 1) + Total(lists[n - 1])
    }

    lemma UsedIsCost(pool: Pool)
      requires Pools() && Objects() && pool in all
      ensures PoolUsed(pool) == Cost(pool) <= PoolTotal(pool)
    {
      hide Pools, Objects, Pool.ChunkSize;
      LiveCount(pool);
      var live, clear, size := |LiveIn(pool)|, Clear(pool.bits), pool.ChunkSize();
      assert (live + clear) * size == live * size + clear * size;
      MulMono(0, clear, size);
    }

    lemma {:induction false} ListUsedIsCost(l: seq<Pool>)
      requires Pools() && Objects() && forall p :: p in l ==> p in all
      ensures Used(l) == ListCost(l) <= Total(l)
    {
      hide Pools, Objects, PoolUsed, PoolTotal, Cost;
      if l != [] {
        ListUsedIsCost(l[..|l| - 1]);
        UsedIsCost(l[|l| - 1]);
      }
    }

    lemma ListIndex(i: nat, q: Pool)
      requires Valid() && i < LISTS && q in lists[i]
      ensures i >= MIN_INDEX
    {
      hide Linked;
      assert q.Valid();
    }

    /** The lists below the smallest index are empty. */
    lemma NothingBelow()
      requires Valid()
      ensures MIN_INDEX <= |lists| && CostBelow(MIN_INDEX) == 0 && TotalBelow(MIN_INDEX) == 0
    {
      hide Linked;
      if lists[0] != [] {
        ListIndex(0, lists[0][0]);
        assert false;
      }
      if lists[1] != [] {
        ListIndex(1, lists[1][0]);
        assert false;
      }
      assert CostBelow(1) == 0 && TotalBelow(1) == 0;
    }

    /**
     calculateUsage: over all lists, the bytes of all pools, and of them those in use:
     headers, bitmaps and the chunks of the live objects.
     */
    method CalculateUsage() returns (totalSize: nat, totalUsed: int)
      requires Valid()
      ensures |lists| == LISTS && totalSize == TotalBelow(LISTS) && totalUsed == CostBelow(LISTS)
      ensures 0 <= totalUsed <= totalSize
    {
      hide Structure, Pools, Objects, Linked, Filed, Used, Total, ListCost;
      totalSize, totalUsed := 0, 0;
      OneListPerIndex();
      NothingBelow();
      var index := MIN_INDEX;
      while index <= MAX_INDEX
        invariant MIN_INDEX <= index <= LISTS
        invariant totalSize == TotalBelow(index) && totalUsed == CostBelow(index) && totalUsed <= totalSize
      {
        OneList(index);
        ListUsedIsCost(lists[index]);
        var size, used := ListUsage(heads[index], lists[index]);
        totalSize, totalUsed := totalSize + size, totalUsed + used;
        index := index + 1;
      }
    }

    lemma OneList(i: nat)
      requires Structure() && i < LISTS
      ensures |heads| == |lists| == LISTS && Linked(lists[i]) && heads[i] == At(lists[i], 0)
      ensures forall q :: q in lists[i] ==> q in all
    {
    }

    lemma AllClear(a: nat, b: nat, m: nat)
      requires a * m == b * m && m > 0 && a <= b
      ensures a == b
    {
      assert (a + 1) * m == a * m + m;
      if a < b {
        MulMono(a + 1, b, m);
      }
    }
  }

  // ---------------------------------------------------------------- accounting

  /** The bytes of a pool: header, bitmap and chunks. */
  function PoolTotal(p: Pool): nat {
    p.layout.pool + AlignUp(p.count, 4) + p.count * p.ChunkSize()
  }

  function PoolUsed(p: Pool): int
    reads p
  {
    p.layout.pool + AlignUp(p.count, 4) + (p.count * p.ChunkSize() - p.Available())
  }

  function Total(l: seq<Pool>): nat {
    if l == [] then 0 else Total(l[..|l| - 1]) + PoolTotal(l[|l| - 1])
  }

  function Used(l: seq<Pool>): int
    reads l
  {
    if l == [] then 0 else Used(l[..|l| - 1]) + PoolUsed(l[|l| - 1])
  }

  /** One list of calculateUsage, following the next pointers. */
  method ListUsage(head: Pool?, ghost l: seq<Pool>) returns (totalSize: nat, totalUsed: int)
    requires Linked(l) && head == At(l, 0)
    ensures totalSize == Total(l) && totalUsed == Used(l)
  {
    hide Linked, PoolTotal, PoolUsed;
    totalSize, totalUsed := 0, 0;
    var pool := head;
    ghost var n := 0;
    while pool != null
      invariant 0 <= n <= |l| && pool == At(l, n)
      invariant totalSize == Total(l[..n]) && totalUsed == Used(l[..n])
      decreases |l| - n
    {
      LinkedAt(l, n);
      assert l[..n + 1][..n] == l[..n];
      totalSize := totalSize + PoolTotal(pool);
      totalUsed := totalUsed + PoolUsed(pool);
      pool := pool.next;
      n := n + 1;
    }
    assert l[..n] == l;
  }

  // ------------------------------------------------------------------- parent

  /** How the growing parent answers a request when `taken` bytes are gone. */
  function BubbleAnswer(base: nat, size: nat, alignment: nat, taken: nat): nat -> Option<Range>
    requires alignment > 0
  {
    (n: nat) => if taken + AlignUp(n, alignment) <= size then Some(Range(base + taken, n)) else None
  }

  /** While every pool lies in what was handed out, the growing parent is a sound one. */
  lemma BubbleIsSound(heap: PoolAllocator, base: nat, size: nat, alignment: nat, taken: nat)
    requires alignment > 0
    requires forall p :: p in heap.all ==> p.block.address + p.block.size <= base + taken
    ensures heap.Sound(BubbleAnswer(base, size, alignment, taken))
  {
  }

  /** The parent of the kernel heap, which only grows. */
  class BubbleAllocator {
    const base: nat
    const size: nat
    const alignment: nat
    var taken: nat

    constructor (base: nat, size: nat, alignment: nat)
      requires alignment > 0
      ensures this.base == base && this.size == size && this.alignment == alignment && taken == 0
    {
      this.base, this.size, this.alignment := base, size, alignment;
      taken := 0;
    }

    /** Each block lies inside the managed range and apart from everything handed out before. */
    method Allocate(n: nat) returns (r: Option<Range>)
      requires alignment > 0 && taken <= size
      modifies this
      ensures taken <= size
      ensures r == BubbleAnswer(base, size, alignment, old(taken))(n)
      ensures r.None? ==> taken == old(taken)
      ensures r.Some? ==>
        && r.value == Range(base + old(taken), n) && taken == old(taken) + AlignUp(n, alignment)
        && forall b: Range :: b.address + b.size <= base + old(taken) ==> r.value.Apart(b)
    {
      var needed := AlignUp(n, alignment);
      if taken + needed <= size {
        r := Some(Range(base + taken, n));
        taken := taken + needed;
      } else {
        r := None;
      }
    }
  }

  lemma HeadWithout(l: seq<Pool>, k: nat)
    requires k < |l|
    ensures At(l[..k] + l[k + 1..], 0) == if k == 0 then At(l, k + 1) else At(l, 0)
  {
  }

  lemma UnlinkedOrder(l: seq<Pool>, k: nat)
    requires NoDuplicates(l) && k < |l|
    ensures NoDuplicates(l[..k] + l[k + 1..])
    ensures forall p :: p in l[..k] + l[k + 1..] <==> p in l && p != l[k]
  {
    var r := l[..k] + l[k + 1..];
    forall p | p in l && p != l[k] ensures p in r {
      var m :| 0 <= m < |l| && l[m] == p;
      assert p == r[if m < k then m else m - 1];
    }
  }
}
