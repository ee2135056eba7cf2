/**
 Shares and the page allocator together: process births and share creations take
 their pages from the bit map, deletions and process deaths give them back, and
 other users of the allocator do the same in between.
 */
module PageFrames {
  import opened Basics
  import opened BitArrays
  import opened BitAllocators
  import opened SharesSpec
  import opened SharesProofs
  import opened SharesRuns

  /** The shares of all processes, the bit map with the place of its last search, and the frames of other users. */
  datatype Joint = Joint(w: World, bits: seq<bool>, lastBit: nat, others: set<nat>)

  /**
   `f` or `run` is the run of pages that the allocator finds. Other users take any free
   pages, found by a search with any alignment or named by address, and leave the search
   at any place; whoever gives a page back names it.
   */
  datatype Action =
    | Birth(p: nat, f: nat)
    | Sharing(p: nat, q: nat, req: Request, run: Option<nat>, mapLocal: bool, mapRemote: bool)
    | Delete(p: nat, pid: nat)
    | Death(p: nat)
    | OtherTakes(n: nat, f: nat, last: nat)
    | Gives(k: nat)

  function PageCount(size: nat): nat {
    ChunkCount(size, PAGESIZE)
  }

  function Page(base: nat, k: nat): nat {
    Nth(base, PAGESIZE, k)
  }

  function EnvOf(base: nat, a: Action): Env
    requires a.Sharing?
  {
    Env(if a.run.Some? then Some(Page(base, a.run.value)) else None, a.mapLocal, a.mapRemote)
  }

  /** What the allocator answers to a search for `n` pages. */
  ghost predicate Answers(j: Joint, n: nat, f: Option<nat>) {
    if f.Some? then NextFit(j.bits, j.lastBit, 1, n, f.value) else NoFit(j.bits, 0, 1, n)
  }

  /**
   Callers are live and new processes take any free process ID. A request that passes
   the checks gets what the allocator finds, if anything. A page that is given back is
   taken, which is all that is checked; nobody asks whose it is.
   */
  ghost predicate Can(base: nat, j: Joint, a: Action) {
    match a
    case Birth(p, f) => p !in j.w.tables && p != KERNEL_PID && Answers(j, 2, Some(f))
    case Sharing(p, q, req, run, _, _) =>
      && p in j.w.live && q in j.w.live && p in j.w.tables && q in j.w.tables
      && if Admitted(j.w, p, q, req) then Answers(j, PageCount(req.size), run) else run.None?
    case Delete(p, _) => p in j.w.live && p in j.w.tables
    case Death(p) => p in j.w.live && p in j.w.tables
    case OtherTakes(n, f, _) => Fit(j.bits, 0, 1, n, f)
    case Gives(k) => k < |j.bits| && j.bits[k]
  }

  /** A creation that gets its pages and cannot use them, or a page of a share that is given back by name. */
  predicate Spoils(base: nat, j: Joint, a: Action) {
    match a
    case Sharing(p, q, _, run, _, _) =>
      run.Some? && p in j.w.tables && q in j.w.tables && !Completes(j.w, p, q, EnvOf(base, a))
    case Gives(k) => Page(base, k) in j.w.frames
    case _ => false
  }

  /** The shares after an action. */
  function WorldAfter(base: nat, w: World, a: Action): World {
    match a
    case Birth(p, f) => Spawn(w, p, Page(base, f))
    case Sharing(p, q, req, _, _, _) => if p in w.tables && q in w.tables then Create(w, p, q, req, EnvOf(base, a)).1 else w
    case Delete(p, pid) => if p in w.tables then RemoveShares(w, p, pid) else w
    case Death(p) => if p in w.tables then Kill(w, p) else w
    case _ => w
  }

  /** The step of the shares that belongs to an action. */
  function ShareStep(base: nat, a: Action): Option<Step> {
    match a
    case Birth(p, f) => Some(DoSpawn(p, Page(base, f)))
    case Sharing(p, q, req, _, _, _) => Some(DoCreate(p, q, req, EnvOf(base, a)))
    case Delete(p, pid) => Some(DoDelete(p, pid))
    case Death(p) => Some(DoKill(p))
    case _ => None
  }

  /** The bits of the freed pages cleared. */
  function Cleared(bits: seq<bool>, base: nat, freed: set<nat>): (r: seq<bool>)
    ensures |r| == |bits|
  {
    seq(|bits|, k requires 0 <= k < |bits| => bits[k] && Page(base, k) !in freed)
  }

  /** The bit map after the pages from `f` on are taken, or those that the shares gave up are given back. */
  ghost function BitsAfter(base: nat, j: Joint, a: Action, v: World): seq<bool> {
    match a
    case Birth(_, f) => Filled(j.bits, f, f + 2)
    case Sharing(_, _, req, f, _, _) =>
      if f.Some? then Filled(j.bits, f.value, f.value + PageCount(req.size)) else j.bits
    case Delete(_, _) => Cleared(j.bits, base, j.w.frames - v.frames)
    case Death(_) => Cleared(j.bits, base, j.w.frames - v.frames)
    case OtherTakes(n, f, _) => Filled(j.bits, f, f + n)
    case Gives(k) => Cleared(j.bits, base, {Page(base, k)})
  }

  function LastAfter(j: Joint, a: Action): nat {
    match a
    case Birth(_, f) => f
    case Sharing(_, _, _, f, _, _) => if f.Some? then f.value else j.lastBit
    case OtherTakes(_, _, last) => last
    case _ => j.lastBit
  }

  ghost function OthersAfter(base: nat, j: Joint, a: Action): set<nat> {
    match a
    case OtherTakes(n, f, _) => j.others + Chunks(Page(base, f), PAGESIZE, n)
    case Gives(k) => j.others - {Page(base, k)}
    case _ => j.others
  }

  ghost function Do(base: nat, j: Joint, a: Action): Joint {
    var v := WorldAfter(base, j.w, a);
    Joint(v, BitsAfter(base, j, a, v), LastAfter(j, a), OthersAfter(base, j, a))
  }

  /** The ledger holds, and the pages taken in the bit map are exactly those of the shares and those of other users. */
  ghost predicate Tied(base: nat, j: Joint) {
    && Ledger(j.w)
    && j.w.frames !! j.others
    && TakenIn(j.bits, base, PAGESIZE) == j.w.frames + j.others
  }

  // ------------------------------------------------------------------- taking

  /** A run that the allocator finds consists of free pages, and taking it takes exactly those. */
  lemma RunIsFree(base: nat, j: Joint, n: nat, f: nat)
    requires Answers(j, n, Some(f))
    ensures
      var block := Chunks(Page(base, f), PAGESIZE, n);
      && block !! TakenIn(j.bits, base, PAGESIZE)
      && TakenIn(Filled(j.bits, f, f + n), base, PAGESIZE) == TakenIn(j.bits, base, PAGESIZE) + block
  {
    NextFitFits(j.bits, j.lastBit, 1, n, f);
    FilledTakes(j.bits, base, PAGESIZE, f, n);
  }

  lemma BlockIsChunks(s: Share)
    ensures Frames(s) == Chunks(s.phys, PAGESIZE, PageCount(s.size))
  {
    FramesAreChunks(s.phys, s.size, 0);
  }

  /** What the share ledger asks of the page allocator follows from the bit map. */
  lemma TakesFresh(base: nat, j: Joint, a: Action)
    requires Tied(base, j) && Can(base, j, a)
    ensures a.Sharing? ==> FreshFrames(j.w, a.req, EnvOf(base, a))
    ensures ShareStep(base, a).Some? && !Spoils(base, j, a) ==>
      Enabled(j.w, ShareStep(base, a).value) && Apply(j.w, ShareStep(base, a).value) == WorldAfter(base, j.w, a)
  {
    hide Ledger, NextFit, NoFit, TakenIn, Chunks, Filled, Admitted, Completes;
    match a
    case Birth(p, f) =>
      RunIsFree(base, j, 2, f);
      BlockIsChunks(Share(KERNEL_PID, j.w.core, 0, Page(base, f), 2 * PAGESIZE, false));
    case Sharing(p, q, req, run, _, _) =>
      if run.Some? {
        RunIsFree(base, j, PageCount(req.size), run.value);
        BlockIsChunks(Block(j.w, 0, req, Page(base, run.value)));
      }
    case _ =>
  }

  lemma BirthTied(base: nat, j: Joint, a: Action)
    requires Tied(base, j) && Can(base, j, a) && a.Birth?
    ensures Tied(base, Do(base, j, a))
  {
    hide Ledger, NextFit, NoFit, TakenIn, Chunks, Filled, EmptyTable, Insert;
    TakesFresh(base, j, a);
    StepLedger(j.w, ShareStep(base, a).value);
    RunIsFree(base, j, 2, a.f);
    BlockIsChunks(Share(KERNEL_PID, j.w.core, 0, Page(base, a.f), 2 * PAGESIZE, false));
  }

  lemma CreateFrames(w: World, p: nat, q: nat, req: Request, env: Env)
    requires p in w.tables && q in w.tables
    ensures Create(w, p, q, req, env).1.frames ==
      if Admitted(w, p, q, req) && env.phys.Some? then w.frames + Frames(Block(w, q, req, env.phys.value)) else w.frames
  {
    hide Insert, Frames, FindFrom;
  }

  lemma SharingTied(base: nat, j: Joint, a: Action)
    requires Tied(base, j) && Can(base, j, a) && a.Sharing?
    ensures Tied(base, Do(base, j, a)) <==> !Spoils(base, j, a)
  {
    hide Ledger, NextFit, NoFit, TakenIn, Chunks, Filled, Admitted, Completes, Create;
    TakesFresh(base, j, a);
    CreateLedgerExactly(j.w, a.p, a.q, a.req, EnvOf(base, a));
    CreateFrames(j.w, a.p, a.q, a.req, EnvOf(base, a));
    if a.run.Some? {
      RunIsFree(base, j, PageCount(a.req.size), a.run.value);
      BlockIsChunks(Block(j.w, a.q, a.req, Page(base, a.run.value)));
    }
  }

  // ------------------------------------------------------------------- giving

  /** Clearing the bits of some pages gives back exactly those. */
  lemma ClearedTaken(bits: seq<bool>, base: nat, freed: set<nat>)
    ensures TakenIn(Cleared(bits, base, freed), base, PAGESIZE) == TakenIn(bits, base, PAGESIZE) - freed
  {
    hide Nth;
    var after := Cleared(bits, base, freed);
    var all, left := TakenIn(bits, base, PAGESIZE), TakenIn(after, base, PAGESIZE);
    forall x | x in all && x !in freed ensures x in left {
      var k :| 0 <= k < |bits| && bits[k] && x == Nth(base, PAGESIZE, k);
      assert after[k];
    }
    forall x | x in left ensures x in all && x !in freed {
      var k :| 0 <= k < |after| && after[k] && x == Nth(base, PAGESIZE, k);
      assert bits[k];
    }
  }

  /** Deletions and deaths only give frames up. */
  lemma OnlyGives(base: nat, j: Joint, a: Action)
    requires Tied(base, j) && Can(base, j, a) && (a.Delete? || a.Death?)
    ensures Ledger(WorldAfter(base, j.w, a)) && WorldAfter(base, j.w, a).frames <= j.w.frames
  {
    hide Ledger, RemoveShares, Kill, Returned;
    if a.Delete? {
      RemoveLedger(j.w, a.p, a.pid);
    } else {
      KillLedger(j.w, a.p);
    }
  }

  lemma GivingTied(base: nat, j: Joint, a: Action)
    requires Tied(base, j) && Can(base, j, a) && (a.Delete? || a.Death?)
    ensures Tied(base, Do(base, j, a))
  {
    hide Ledger, WorldAfter, TakenIn, Cleared;
    OnlyGives(base, j, a);
    ClearedTaken(j.bits, base, j.w.frames - WorldAfter(base, j.w, a).frames);
  }

  lemma OtherTied(base: nat, j: Joint, a: Action)
    requires Tied(base, j) && Can(base, j, a) && a.OtherTakes?
    ensures Tied(base, Do(base, j, a))
  {
    hide Ledger, TakenIn, Chunks, Filled;
    FilledTakes(j.bits, base, PAGESIZE, a.f, a.n);
  }

  /** Giving a page back by name keeps shares and bit map together exactly when no share holds it. */
  lemma GivesExactly(base: nat, j: Joint, k: nat)
    requires Tied(base, j) && Can(base, j, Gives(k))
    ensures Tied(base, Do(base, j, Gives(k))) <==> Page(base, k) !in j.w.frames
  {
    hide Ledger, TakenIn, Cleared;
    ClearedTaken(j.bits, base, {Page(base, k)});
  }

  // --------------------------------------------------------------- whole runs

  /** Every action keeps shares and bit map together, except exactly those that spoil it. */
  lemma StepTiedExactly(base: nat, j: Joint, a: Action)
    requires Tied(base, j) && Can(base, j, a)
    ensures Tied(base, Do(base, j, a)) <==> !Spoils(base, j, a)
  {
    hide Tied, Can, Do, Completes;
    match a
    case Birth(_, _) => BirthTied(base, j, a);
    case Sharing(_, _, _, _, _, _) => SharingTied(base, j, a);
    case Delete(_, _) => GivingTied(base, j, a);
    case Death(_) => GivingTied(base, j, a);
    case OtherTakes(_, _, _) => OtherTied(base, j, a);
    case Gives(k) => GivesExactly(base, j, k);
  }

  /** The bit remembered for the next search is that of the first page of the block just handed out. */
  lemma LatestBlock(base: nat, j: Joint, a: Action)
    requires Tied(base, j) && Can(base, j, a) && (a.Birth? || (a.Sharing? && a.run.Some?))
    ensures
      var t := Do(base, j, a);
      var n := if a.Birth? then 2 else PageCount(a.req.size);
      && t.w.frames == j.w.frames + Chunks(Page(base, t.lastBit), PAGESIZE, n)
      && Chunks(Page(base, t.lastBit), PAGESIZE, n) !! j.w.frames + j.others
  {
    hide Ledger, NextFit, NoFit, TakenIn, Chunks, Filled, Admitted, Completes, Create, EmptyTable, Insert;
    match a
    case Birth(p, f) =>
      RunIsFree(base, j, 2, f);
      BlockIsChunks(Share(KERNEL_PID, j.w.core, 0, Page(base, f), 2 * PAGESIZE, false));
    case Sharing(p, q, req, run, _, _) =>
      RunIsFree(base, j, PageCount(req.size), run.value);
      BlockIsChunks(Block(j.w, q, req, Page(base, run.value)));
      CreateFrames(j.w, p, q, req, EnvOf(base, a));
  }

  /** Every action of the run is possible, and none spoils. */
  ghost predicate CanAll(base: nat, j: Joint, acts: seq<Action>)
    decreases |acts|
  {
    acts == [] ||
    (Can(base, j, acts[0]) && !Spoils(base, j, acts[0]) && CanAll(base, Do(base, j, acts[0]), acts[1..]))
  }

  ghost function DoAll(base: nat, j: Joint, acts: seq<Action>): (r: Joint)
    decreases |acts|
  {
    if acts == [] then j else DoAll(base, Do(base, j, acts[0]), acts[1..])
  }

  /**
   In every run without a spoiling action the ledger of shares holds without any
   assumption about the page allocator, and no page is lost or handed out twice: the
   taken pages are exactly those of the shares and those of other users.
   */
  lemma {:induction false} RunTied(base: nat, j: Joint, acts: seq<Action>)
    requires Tied(base, j) && CanAll(base, j, acts)
    ensures Tied(base, DoAll(base, j, acts))
    decreases |acts|
  {
    hide Tied, Can, Do, Spoils;
    if acts != [] {
      StepTiedExactly(base, j, acts[0]);
      RunTied(base, Do(base, j, acts[0]), acts[1..]);
    }
  }

  /** At boot no process exists and every taken page belongs to another user. */
  lemma BootTied(core: nat, base: nat, bits: seq<bool>, lastBit: nat)
    ensures Tied(base, Joint(Boot(core), bits, lastBit, TakenIn(bits, base, PAGESIZE)))
  {
  }

  // ------------------------------------------- a run that gives a page of a share away

  /** A bit map of `len` pages with the first `m` taken. */
  function Front(m: nat, len: nat): seq<bool> {
    seq(len, k => k < m)
  }

  lemma FrontFits(m: nat, len: nat, last: nat, n: nat)
    requires last <= m && 0 < n && m + n <= len
    ensures NextFit(Front(m, len), last, 1, n, m) && Filled(Front(m, len), m, m + n) == Front(m + n, len)
  {
    var bits := Front(m, len);
    assert Fit(bits, last, 1, n, m);
    forall g: nat | g < m ensures !Fit(bits, last, 1, n, g) {
      assert bits[g];
    }
  }

  ghost function Start(core: nat): Joint {
    Joint(Boot(core), Front(0, 8), 0, {})
  }

  /** Two births and a share of one page between the two, on a bit map of eight free pages. */
  lemma SharedPage(core: nat, base: nat) returns (acts: seq<Action>)
    ensures CanAll(base, Start(core), acts)
    ensures
      var j := DoAll(base, Start(core), acts);
      j.bits == Front(5, 8) && Page(base, 4) in j.w.frames
  {
    hide Ledger, Unique, Spawn, Create, Front, Filled, NextFit, Completes, Admitted;
    var req := Request(2, core, 0, PAGESIZE);
    var a, b, c := Birth(1, 0), Birth(2, 2), Sharing(1, 2, req, Some(4), true, true);
    FrontFits(0, 8, 0, 2);
    FrontFits(2, 8, 0, 2);
    FrontFits(4, 8, 2, 1);
    TwoBirths(core, Page(base, 0), Page(base, 2));
    var j1 := Do(base, Start(core), a);
    var j2 := Do(base, j1, b);
    FirstShare(j2.w, req, EnvOf(base, c), Page(base, 4));
    var j3 := Do(base, j2, c);
    assert PageCount(PAGESIZE) == 1;
    acts := [a, b, c];
    Three(base, Start(core), j1, j2, j3, acts);
  }

  lemma Three(base: nat, j0: Joint, j1: Joint, j2: Joint, j3: Joint, acts: seq<Action>)
    requires |acts| == 3
    requires Can(base, j0, acts[0]) && !Spoils(base, j0, acts[0]) && Do(base, j0, acts[0]) == j1
    requires Can(base, j1, acts[1]) && !Spoils(base, j1, acts[1]) && Do(base, j1, acts[1]) == j2
    requires Can(base, j2, acts[2]) && !Spoils(base, j2, acts[2]) && Do(base, j2, acts[2]) == j3
    ensures CanAll(base, j0, acts) && DoAll(base, j0, acts) == j3
  {
    hide Can, Spoils, Do;
    assert acts[1..][1..] == acts[2..] && acts[2..][1..] == [];
    assert CanAll(base, j3, []) && DoAll(base, j3, []) == j3;
    assert CanAll(base, j2, acts[2..]) && DoAll(base, j2, acts[2..]) == j3;
    assert CanAll(base, j1, acts[1..]) && DoAll(base, j1, acts[1..]) == j3;
  }

  /**
   A process gives a page of its own share back by name, and the allocator hands it
   to somebody else: the page then has two owners.
   */
  lemma GivenShareRun(core: nat, base: nat) returns (acts: seq<Action>)
    ensures CanAll(base, Start(core), acts)
    ensures
      var j := DoAll(base, Start(core), acts);
      && Can(base, j, Gives(4)) && Spoils(base, j, Gives(4))
      && var i := Do(base, j, Gives(4));
         && Can(base, i, OtherTakes(1, 4, 4))
         && var z := Do(base, i, OtherTakes(1, 4, 4));
            Page(base, 4) in z.w.frames && Page(base, 4) in z.others
  {
    hide CanAll, DoAll;
    acts := SharedPage(core, base);
    var j := DoAll(base, Start(core), acts);
    var i := Do(base, j, Gives(4));
    assert i.bits[4] == false;
    assert Page(base, 4) == Nth(Page(base, 4), PAGESIZE, 0);
  }

  // ------------------------------------------------------------ the page loop

  lemma {:induction false} FramesBehind(phys: nat, size: nat, i: nat)
    ensures forall x :: x in FramesFrom(phys, size, i) ==> x >= phys + i
    decreases size - i
  {
    if i < size {
      FramesBehind(phys, size, i + PAGESIZE);
    }
  }

  /** A taken page is one of the allocator's chunks. */
  lemma TakenIsChunk(alloc: BitAllocator, addr: nat)
    requires alloc.Valid() && addr in alloc.Taken()
    ensures alloc.IsChunk(addr)
  {
    var k :| 0 <= k < |alloc.bitmap.bits[..]| && alloc.bitmap.bits[..][k] && addr == Nth(alloc.base, alloc.chunkSize, k);
    ModUnique(addr - alloc.base, alloc.chunkSize, k, 0);
    MulMono(k + 1, alloc.size / alloc.chunkSize, alloc.chunkSize);
    DivTimes(alloc.size, alloc.chunkSize);
    assert (k + 1) * alloc.chunkSize == k * alloc.chunkSize + alloc.chunkSize;
    MulMono(0, k, alloc.chunkSize);
  }

  /** The loop of releaseShare on the allocator itself: every page it releases is taken, as the allocator asserts. */
  method ReleasePages(alloc: BitAllocator, phys: nat, size: nat)
    requires alloc.Valid() && FramesFrom(phys, size, 0) <= alloc.Taken()
    modifies alloc.bitmap`ones, alloc.bitmap.bits
    ensures alloc.Valid() && alloc.Taken() == old(alloc.Taken()) - FramesFrom(phys, size, 0)
  {
    hide TakenIn, BitAllocator.IsChunk;
    var i := 0;
    ghost var gone: set<nat> := {};
    while i < size
      invariant alloc.Valid() && FramesFrom(phys, size, i) <= alloc.Taken()
      invariant alloc.Taken() == old(alloc.Taken()) - gone
      invariant gone + FramesFrom(phys, size, i) == FramesFrom(phys, size, 0)
      decreases size - i
    {
      FramesBehind(phys, size, i + PAGESIZE);
      TakenIsChunk(alloc, phys + i);
      alloc.Release(phys + i);
      gone := gone + {phys + i};
      i := i + PAGESIZE;
    }
  }
}
