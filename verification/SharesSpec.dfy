/**
 Memory shares between processes (kernel/ProcessShares.cpp), as functions on
 the share tables of all processes and the set of page frames handed out.
 */
module SharesSpec {
  import opened Basics

  const KERNEL_PID: nat := 65533
  const MAX_SHARES: nat := 32

  datatype Share = Share(pid: nat, coreId: nat, tagId: nat, phys: nat, size: nat, attached: bool)

  type Table = seq<Option<Share>>

  /**
   `live` are the processes in the process table. A process being torn down has
   left it, but its share table still exists. `doubleFree` records a release of
   a frame that was not handed out.
   */
  datatype World = World(core: nat, tables: map<nat, Table>, live: set<nat>, frames: set<nat>, doubleFree: bool)

  datatype Result = Success | InvalidArgument | OutOfMemory | AlreadyExists | DetachInProgress

  /** The frames of a block from byte `i` on, as the page loops visit them. */
  function FramesFrom(phys: nat, size: nat, i: nat): set<nat>
    decreases size - i
  {
    if i >= size then {} else {phys + i} + FramesFrom(phys, size, i + PAGESIZE)
  }

  function Frames(s: Share): set<nat> {
    FramesFrom(s.phys, s.size, 0)
  }

  function EmptyTable(): Table {
    seq(MAX_SHARES, _ => None)
  }

  predicate Matches(s: Option<Share>, pid: nat, coreId: nat, tagId: nat) {
    s.Some? && s.value.pid == pid && s.value.coreId == coreId && s.value.tagId == tagId
  }

  /** findShare: the first matching record at or after slot `i`. */
  function FindFrom(t: Table, pid: nat, coreId: nat, tagId: nat, i: nat): Option<nat>
    decreases |t| - i
  {
    if i >= |t| then None
    else if Matches(t[i], pid, coreId, tagId) then Some(i)
    else FindFrom(t, pid, coreId, tagId, i + 1)
  }

  /** The first free slot at or after `i`. */
  function FreeFrom(t: Table, i: nat): Option<nat>
    decreases |t| - i
  {
    if i >= |t| then None else if t[i].None? then Some(i) else FreeFrom(t, i + 1)
  }

  predicate HasRoom(t: Table) {
    exists i :: 0 <= i < |t| && t[i].None?
  }

  /** Index::insert, which fails silently when the table is full. */
  function Insert(t: Table, s: Share): (r: Table)
    ensures |r| == |t|
  {
    var i := FreeFrom(t, 0);
    if i.Some? && i.value < |t| then t[i.value := Some(s)] else t
  }

  /** Every record of `t` for process `pid` on this core marked as detached. */
  function MarkDetached(t: Table, pid: nat, core: nat): (r: Table)
    ensures |r| == |t|
    ensures forall i :: 0 <= i < |t| ==>
      r[i] == if t[i].Some? && t[i].value.pid == pid && t[i].value.coreId == core
              then Some(t[i].value.(attached := false)) else t[i]
  {
    seq(|t|, i requires 0 <= i < |t| =>
      if t[i].Some? && t[i].value.pid == pid && t[i].value.coreId == core
      then Some(t[i].value.(attached := false)) else t[i])
  }

  // -------------------------------------------------------------- operations

  datatype Request = Request(pid: nat, coreId: nat, tagId: nat, size: nat)

  /** What the page allocator and the two memory contexts answer. */
  datatype Env = Env(phys: Option<nat>, mapLocal: bool, mapRemote: bool)

  function Block(w: World, pid: nat, req: Request, phys: nat): Share {
    Share(pid, w.core, req.tagId, phys, req.size, true)
  }

  /** createShare called by process `p` on the shares of process `q`. */
  function Create(w: World, p: nat, q: nat, req: Request, env: Env): (Result, World)
    requires p in w.tables && q in w.tables
  {
    if req.size == 0 then (InvalidArgument, w)
    else if FindFrom(w.tables[p], req.pid, req.coreId, req.tagId, 0).Some? then (AlreadyExists, w)
    else if Detaching(w.tables[q], p, req.coreId, req.tagId) then (DetachInProgress, w)
    else if env.phys.None? then (OutOfMemory, w)
    else
      var local, remote := Block(w, q, req, env.phys.value), Block(w, p, req, env.phys.value);
      var w1 := w.(frames := w.frames + Frames(local));
      if !env.mapLocal || !env.mapRemote then (OutOfMemory, w1)
      else
        var w2 := w1.(tables := w1.tables[p := Insert(w1.tables[p], local)]);
        (Success, w2.(tables := w2.tables[q := Insert(w2.tables[q], remote)]))
  }

  /** The first record for the key is there and detached. */
  predicate Detaching(t: Table, pid: nat, coreId: nat, tagId: nat) {
    var i := FindFrom(t, pid, coreId, tagId, 0);
    i.Some? && i.value < |t| && t[i.value].Some? && !t[i.value].value.attached
  }

  /** releaseShare for slot `i` of process `p`. */
  function Release(w: World, p: nat, i: nat): World
    requires p in w.tables && i < |w.tables[p]| && w.tables[p][i].Some?
  {
    var s := w.tables[p][i].value;
    var w1 :=
      if s.attached then
        if s.pid in w.live && s.pid in w.tables
        then w.(tables := w.tables[s.pid := MarkDetached(w.tables[s.pid], p, s.coreId)])
        else w
      else
        w.(frames := w.frames - Frames(s), doubleFree := w.doubleFree || !(Frames(s) <= w.frames));
    w1.(tables := w1.tables[p := w1.tables[p][i := None]])
  }

  /** Whether a loop over a table takes the record: all of them (teardown) or those for one process. */
  predicate Selected(s: Option<Share>, only: Option<nat>) {
    s.Some? && (only.None? || s.value.pid == only.value)
  }

  /** The release loop over the first `n` slots of process `p`. */
  function ReleaseLoop(w: World, p: nat, only: Option<nat>, n: nat): (r: World)
    requires p in w.tables && n <= |w.tables[p]|
    ensures r.tables.Keys == w.tables.Keys && |r.tables[p]| == |w.tables[p]|
    ensures r.live == w.live && r.core == w.core
  {
    if n == 0 then w
    else
      var v := ReleaseLoop(w, p, only, n - 1);
      if Selected(v.tables[p][n - 1], only) then Release(v, p, n - 1) else v
  }

  /** removeShares */
  function RemoveShares(w: World, p: nat, pid: nat): World
    requires p in w.tables
  {
    ReleaseLoop(w, p, Some(pid), |w.tables[p]|)
  }

  /** Process creation: one block shared with the kernel, recorded as detached from the start. */
  function Spawn(w: World, p: nat, phys: nat): World {
    var s := Share(KERNEL_PID, w.core, 0, phys, 2 * PAGESIZE, false);
    w.(tables := w.tables[p := Insert(EmptyTable(), s)], live := w.live + {p}, frames := w.frames + Frames(s))
  }

  /** Process removal: off the process table, then the destructor of its shares. */
  function Kill(w: World, p: nat): World
    requires p in w.tables
  {
    var v := ReleaseLoop(w.(live := w.live - {p}), p, None, |w.tables[p]|);
    v.(tables := v.tables - {p})
  }

  // ------------------------------------------------------------------ ledger

  predicate Rec(w: World, p: nat, i: nat) {
    p in w.tables && i < |w.tables[p]| && w.tables[p][i].Some?
  }

  function At(w: World, p: nat, i: nat): Share
    requires Rec(w, p, i)
  {
    w.tables[p][i].value
  }

  /** Two attached records of two processes that name each other and the same block. */
  predicate Mates(w: World, p: nat, i: nat, q: nat, j: nat)
    requires Rec(w, p, i) && Rec(w, q, j)
  {
    var a, b := At(w, p, i), At(w, q, j);
    && p != q && a.pid == q && b.pid == p && a.attached && b.attached
    && a.phys == b.phys && a.size == b.size && a.tagId == b.tagId
  }

  ghost predicate HasMate(w: World, p: nat, i: nat)
    requires Rec(w, p, i)
  {
    exists j :: Rec(w, At(w, p, i).pid, j) && Mates(w, p, i, At(w, p, i).pid, j)
  }

  ghost predicate Shapes(w: World) {
    && w.live == w.tables.Keys
    && KERNEL_PID !in w.tables
    && forall p :: p in w.tables ==> |w.tables[p]| == MAX_SHARES
  }

  ghost predicate Records(w: World) {
    forall p, i :: Rec(w, p, i) ==>
      && At(w, p, i).coreId == w.core && At(w, p, i).size > 0 && At(w, p, i).pid != p
      && Frames(At(w, p, i)) <= w.frames
  }

  /** Every attached record has its counterpart. */
  ghost predicate Paired(w: World) {
    forall p, i :: Rec(w, p, i) && At(w, p, i).attached ==> HasMate(w, p, i)
  }

  /** No other two records touch the same frame. */
  ghost predicate Separate(w: World) {
    forall p, i, q, j :: Rec(w, p, i) && Rec(w, q, j) && (p != q || i != j) ==>
      Mates(w, p, i, q, j) || Frames(At(w, p, i)) !! Frames(At(w, q, j))
  }

  ghost predicate Covers(w: World, f: nat) {
    exists p, i :: Rec(w, p, i) && f in Frames(At(w, p, i))
  }

  /** No frame is handed out without a record for it. */
  ghost predicate NoLeak(w: World) {
    forall f :: f in w.frames ==> Covers(w, f)
  }

  /**
   The ledger: every block handed out is named by exactly two attached records,
   one in each of two processes that name each other, or by exactly one detached
   record; and no release ever hit a frame that was not handed out.
   */
  ghost predicate Ledger(w: World) {
    Shapes(w) && Records(w) && Paired(w) && Separate(w) && NoLeak(w) && !w.doubleFree
  }
}
