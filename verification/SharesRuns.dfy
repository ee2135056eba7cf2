/** Creating shares, process birth, key uniqueness, and the ledger over whole runs with process ID reuse. */
module SharesRuns {
  import opened Basics
  import opened SharesSpec
  import opened SharesProofs

  // --------------------------------------------------------- searching a table

  lemma {:induction false} FindFromIs(t: Table, pid: nat, coreId: nat, tagId: nat, i: nat)
    ensures
      var r := FindFrom(t, pid, coreId, tagId, i);
      && (r.Some? ==> i <= r.value < |t| && Matches(t[r.value], pid, coreId, tagId))
      && (r.Some? ==> forall k :: i <= k < r.value ==> !Matches(t[k], pid, coreId, tagId))
      && (r.None? <==> forall k :: i <= k < |t| ==> !Matches(t[k], pid, coreId, tagId))
    decreases |t| - i
  {
    if i < |t| && !Matches(t[i], pid, coreId, tagId) {
      FindFromIs(t, pid, coreId, tagId, i + 1);
    }
  }

  lemma {:induction false} FreeFromIs(t: Table, i: nat)
    ensures
      var r := FreeFrom(t, i);
      && (r.Some? ==> i <= r.value < |t| && t[r.value].None? && forall k :: i <= k < r.value ==> t[k].Some?)
      && (r.None? <==> forall k :: i <= k < |t| ==> t[k].Some?)
    decreases |t| - i
  {
    if i < |t| && t[i].Some? {
      FreeFromIs(t, i + 1);
    }
  }

  lemma InsertIs(t: Table, s: Share)
    ensures HasRoom(t) ==>
      exists i :: 0 <= i < |t| && t[i].None? && Insert(t, s) == t[i := Some(s)] && forall k :: 0 <= k < i ==> t[k].Some?
    ensures !HasRoom(t) ==> Insert(t, s) == t
  {
    FreeFromIs(t, 0);
    var r := FreeFrom(t, 0);
    if r.Some? {
      assert t[r.value].None? && Insert(t, s) == t[r.value := Some(s)];
    }
  }

  /** A block of positive size has at least its first frame. */
  lemma FirstFrame(s: Share)
    requires s.size > 0
    ensures s.phys in Frames(s)
  {
  }

  // ---------------------------------------------------------------- creation

  /** `v` is `w` with one new block and its two attached records. */
  ghost predicate PairAdded(w: World, v: World, p: nat, i: nat, q: nat, j: nat, a: Share, b: Share) {
    && v.core == w.core && v.doubleFree == w.doubleFree && Shapes(v)
    && p != q && a.pid == q && b == a.(pid := p) && a.attached && a.size > 0 && a.coreId == w.core
    && !Rec(w, p, i) && !Rec(w, q, j)
    && Rec(v, p, i) && At(v, p, i) == a && Rec(v, q, j) && At(v, q, j) == b
    && (forall x, k :: Rec(v, x, k) <==> Rec(w, x, k) || (x == p && k == i) || (x == q && k == j))
    && (forall x, k :: Rec(w, x, k) ==> At(v, x, k) == At(w, x, k))
    && v.frames == w.frames + Frames(a) && Frames(a) !! w.frames
  }

  lemma PairPaired(w: World, v: World, p: nat, i: nat, q: nat, j: nat, a: Share, b: Share)
    requires Ledger(w) && PairAdded(w, v, p, i, q, j, a, b)
    ensures Paired(v)
  {
    forall x, k | Rec(v, x, k) && At(v, x, k).attached ensures HasMate(v, x, k) {
      if Rec(w, x, k) {
        assert HasMate(w, x, k);
        var y := At(w, x, k).pid;
        var m :| Rec(w, y, m) && Mates(w, x, k, y, m);
        assert Rec(v, y, m) && Mates(v, x, k, y, m);
      } else if x == p && k == i {
        assert Mates(v, p, i, q, j);
      } else {
        assert Mates(v, q, j, p, i);
      }
    }
  }

  lemma PairSeparate(w: World, v: World, p: nat, i: nat, q: nat, j: nat, a: Share, b: Share)
    requires Ledger(w) && PairAdded(w, v, p, i, q, j, a, b)
    ensures Separate(v)
  {
    assert Frames(a) == Frames(b);
    forall x, k, y, m | Rec(v, x, k) && Rec(v, y, m) && (x != y || k != m)
      ensures Mates(v, x, k, y, m) || Frames(At(v, x, k)) !! Frames(At(v, y, m))
    {
      if Rec(w, x, k) && Rec(w, y, m) {
        assert Mates(w, x, k, y, m) || Frames(At(w, x, k)) !! Frames(At(w, y, m));
      } else if Rec(w, x, k) {
        assert Frames(At(w, x, k)) <= w.frames;
      } else if Rec(w, y, m) {
        assert Frames(At(w, y, m)) <= w.frames;
      }
    }
  }

  lemma PairLedger(w: World, v: World, p: nat, i: nat, q: nat, j: nat, a: Share, b: Share)
    requires Ledger(w) && PairAdded(w, v, p, i, q, j, a, b)
    ensures Ledger(v)
  {
    PairPaired(w, v, p, i, q, j, a, b);
    PairSeparate(w, v, p, i, q, j, a, b);
    hide Paired, Separate;
    assert Frames(a) == Frames(b);
    forall x, k | Rec(v, x, k)
      ensures At(v, x, k).coreId == v.core && At(v, x, k).size > 0 && At(v, x, k).pid != x
      ensures Frames(At(v, x, k)) <= v.frames
    {
      assert Rec(w, x, k) ==> Frames(At(w, x, k)) <= w.frames;
    }
    forall f | f in v.frames ensures Covers(v, f) {
      if f in w.frames {
        assert Covers(w, f);
        var x, k :| Rec(w, x, k) && f in Frames(At(w, x, k));
        assert Rec(v, x, k) && f in Frames(At(v, x, k));
      } else {
        assert Rec(v, p, i) && f in Frames(At(v, p, i));
      }
    }
  }

  /** The request passes all checks of createShare before anything is allocated. */
  predicate Admitted(w: World, p: nat, q: nat, req: Request)
    requires p in w.tables && q in w.tables
  {
    && req.size != 0
    && FindFrom(w.tables[p], req.pid, req.coreId, req.tagId, 0).None?
    && !Detaching(w.tables[q], p, req.coreId, req.tagId)
  }

  /** Both mappings succeed, the two processes differ, and both tables have a free slot. */
  predicate Completes(w: World, p: nat, q: nat, env: Env)
    requires p in w.tables && q in w.tables
  {
    env.mapLocal && env.mapRemote && p != q && HasRoom(w.tables[p]) && HasRoom(w.tables[q])
  }

  /** Slot `i` holds a record for process `pid` under this core and tag. */
  predicate HoldsKey(t: Table, i: nat, pid: nat, coreId: nat, tagId: nat) {
    i < |t| && t[i].Some? && t[i].value.pid == pid && t[i].value.coreId == coreId && t[i].value.tagId == tagId
  }

  /** The first record for that key is detached. */
  ghost predicate FirstDetached(t: Table, pid: nat, coreId: nat, tagId: nat) {
    exists i: nat ::
      && HoldsKey(t, i, pid, coreId, tagId) && !t[i].value.attached
      && forall k: nat :: k < i ==> !HoldsKey(t, k, pid, coreId, tagId)
  }

  ghost predicate AnyKey(t: Table, pid: nat, coreId: nat, tagId: nat) {
    exists i: nat :: HoldsKey(t, i, pid, coreId, tagId)
  }

  lemma FindsKey(t: Table, pid: nat, coreId: nat, tagId: nat)
    ensures FindFrom(t, pid, coreId, tagId, 0).Some? <==> AnyKey(t, pid, coreId, tagId)
    ensures Detaching(t, pid, coreId, tagId) <==> FirstDetached(t, pid, coreId, tagId)
  {
    hide FindFrom;
    FindFromIs(t, pid, coreId, tagId, 0);
    var r := FindFrom(t, pid, coreId, tagId, 0);
    if r.Some? {
      assert HoldsKey(t, r.value, pid, coreId, tagId);
      forall k: nat | k < r.value ensures !HoldsKey(t, k, pid, coreId, tagId) {
        assert !Matches(t[k], pid, coreId, tagId);
      }
    } else {
      forall k: nat ensures !HoldsKey(t, k, pid, coreId, tagId) {
        if k < |t| {
          assert !Matches(t[k], pid, coreId, tagId);
        }
      }
    }
  }

  /**
   What createShare answers, in terms of the slots and the request, and what every answer
   but Success leaves: nothing at all, or the pages of a block that could not be mapped.
   */
  lemma CreateAnswers(w: World, p: nat, q: nat, req: Request, env: Env)
    requires p in w.tables && q in w.tables
    ensures
      var (r, v) := Create(w, p, q, req, env);
      var exists' := AnyKey(w.tables[p], req.pid, req.coreId, req.tagId);
      var detached := FirstDetached(w.tables[q], p, req.coreId, req.tagId);
      && (r == InvalidArgument <==> req.size == 0)
      && (r == AlreadyExists <==> req.size > 0 && exists')
      && (r == DetachInProgress <==> req.size > 0 && !exists' && detached)
      && (r == OutOfMemory <==>
            req.size > 0 && !exists' && !detached && (env.phys.None? || !env.mapLocal || !env.mapRemote))
      && (r == Success <==>
            req.size > 0 && !exists' && !detached && env.phys.Some? && env.mapLocal && env.mapRemote)
      && (r != Success ==>
            v == if r == OutOfMemory && env.phys.Some?
                 then w.(frames := w.frames + FramesFrom(env.phys.value, req.size, 0)) else w)
  {
    hide FindFrom, Detaching, Insert, AnyKey, FirstDetached, FramesFrom;
    FindsKey(w.tables[p], req.pid, req.coreId, req.tagId);
    FindsKey(w.tables[q], p, req.coreId, req.tagId);
  }

  /** The allocator hands out frames that are not handed out already. */
  predicate FreshFrames(w: World, req: Request, env: Env) {
    env.phys.Some? ==> Frames(Block(w, 0, req, env.phys.value)) !! w.frames
  }

  lemma CreateCompletes(w: World, p: nat, q: nat, req: Request, env: Env) returns (i: nat, j: nat)
    requires Ledger(w) && p in w.live && q in w.live && FreshFrames(w, req, env)
    requires Admitted(w, p, q, req) && env.phys.Some? && Completes(w, p, q, env)
    ensures
      var (r, v) := Create(w, p, q, req, env);
      var a, b := Block(w, q, req, env.phys.value), Block(w, p, req, env.phys.value);
      && r == Success && PairAdded(w, v, p, i, q, j, a, b)
      && v.live == w.live && v.tables.Keys == w.tables.Keys
  {
    hide Records, Paired, Separate, NoLeak;
    var a, b := Block(w, q, req, env.phys.value), Block(w, p, req, env.phys.value);
    InsertIs(w.tables[p], a);
    InsertIs(w.tables[q], b);
    i :| 0 <= i < |w.tables[p]| && w.tables[p][i].None? && Insert(w.tables[p], a) == w.tables[p][i := Some(a)];
    j :| 0 <= j < |w.tables[q]| && w.tables[q][j].None? && Insert(w.tables[q], b) == w.tables[q][j := Some(b)];
    var v := Create(w, p, q, req, env).1;
    assert v.tables[p] == w.tables[p][i := Some(a)];
    assert v.tables[q] == w.tables[q][j := Some(b)];
    forall x, k ensures Rec(v, x, k) <==> Rec(w, x, k) || (x == p && k == i) || (x == q && k == j) {
    }
    assert Frames(a) == Frames(Block(w, 0, req, env.phys.value));
  }

  /** An allocated block that createShare does not record twice breaks the ledger. */
  lemma CreateWastes(w: World, p: nat, q: nat, req: Request, env: Env)
    requires Ledger(w) && p in w.live && q in w.live && FreshFrames(w, req, env)
    requires Admitted(w, p, q, req) && env.phys.Some? && !Completes(w, p, q, env)
    ensures !Ledger(Create(w, p, q, req, env).1)
  {
    hide Separate;
    var phys := env.phys.value;
    var a, b := Block(w, q, req, phys), Block(w, p, req, phys);
    var v := Create(w, p, q, req, env).1;
    FirstFrame(a);
    assert Frames(a) == Frames(Block(w, 0, req, phys));
    assert phys in v.frames && phys !in w.frames;
    InsertIs(w.tables[p], a);
    if Ledger(v) {
      // whatever covers the new frame is a record that is new
      assert Covers(v, phys);
      var x, k :| Rec(v, x, k) && phys in Frames(At(v, x, k));
      assert !Rec(w, x, k) || At(w, x, k) != At(v, x, k);
      if env.mapLocal && env.mapRemote {
        if p == q {
          SelfShare(w, p, req, env, x, k);
        } else {
          InsertIs(w.tables[q], b);
          OneSided(w, p, q, req, env, x, k);
        }
      }
      assert false;
    }
  }

  /** A share of a process with itself leaves a record that names its own process. */
  lemma SelfShare(w: World, p: nat, req: Request, env: Env, x: nat, k: nat)
    requires Ledger(w) && p in w.live && Admitted(w, p, p, req) && env.phys.Some? && env.mapLocal && env.mapRemote
    requires var v := Create(w, p, p, req, env).1; Rec(v, x, k) && (!Rec(w, x, k) || At(w, x, k) != At(v, x, k))
    ensures At(Create(w, p, p, req, env).1, x, k).pid == x
  {
    hide Records, Paired, Separate, NoLeak;
    var a := Block(w, p, req, env.phys.value);
    InsertIs(w.tables[p], a);
    InsertIs(Insert(w.tables[p], a), a);
  }

  /** With one full table the other side's record is attached to nothing. */
  lemma OneSided(w: World, p: nat, q: nat, req: Request, env: Env, x: nat, k: nat)
    requires Ledger(w) && p in w.live && q in w.live && p != q && FreshFrames(w, req, env)
    requires Admitted(w, p, q, req) && env.phys.Some? && env.mapLocal && env.mapRemote
    requires !HasRoom(w.tables[p]) || !HasRoom(w.tables[q])
    requires var v := Create(w, p, q, req, env).1; Rec(v, x, k) && (!Rec(w, x, k) || At(w, x, k) != At(v, x, k))
    ensures var v := Create(w, p, q, req, env).1; At(v, x, k).attached && !HasMate(v, x, k)
  {
    hide Paired, Separate, NoLeak;
    var phys := env.phys.value;
    var a, b := Block(w, q, req, phys), Block(w, p, req, phys);
    InsertIs(w.tables[p], a);
    InsertIs(w.tables[q], b);
    var v := Create(w, p, q, req, env).1;
    var other := if x == p then q else p;
    assert v.tables[other] == w.tables[other];
    assert At(v, x, k).phys == phys && At(v, x, k).pid == other;
    forall j | Rec(v, other, j) ensures !Mates(v, x, k, other, j) {
      assert Rec(w, other, j) && At(v, other, j) == At(w, other, j);
      FirstFrame(At(w, other, j));
      FirstFrame(a);
      assert Frames(a) == Frames(Block(w, 0, req, phys));
    }
  }

  /**
   Creation keeps the ledger exactly when the request is refused, or nothing
   could be allocated, or it completes: both mappings succeed, two distinct
   processes are named and both tables have a free slot.
   */
  lemma CreateLedgerExactly(w: World, p: nat, q: nat, req: Request, env: Env)
    requires Ledger(w) && p in w.live && q in w.live && FreshFrames(w, req, env)
    ensures Ledger(Create(w, p, q, req, env).1) <==>
      !Admitted(w, p, q, req) || env.phys.None? || Completes(w, p, q, env)
  {
    hide Records, Paired, Separate, NoLeak;
    if Admitted(w, p, q, req) && env.phys.Some? {
      if Completes(w, p, q, env) {
        var i, j := CreateCompletes(w, p, q, req, env);
        PairLedger(w, Create(w, p, q, req, env).1, p, i, q, j,
                   Block(w, q, req, env.phys.value), Block(w, p, req, env.phys.value));
      } else {
        CreateWastes(w, p, q, req, env);
      }
    }
  }

  /** A share with itself is never freed: after the process dies its first frame is handed out with no record left. */
  lemma SelfShareLeaks(w: World, p: nat, req: Request, env: Env)
    requires Ledger(w) && p in w.live && FreshFrames(w, req, env)
    requires Admitted(w, p, p, req) && env.phys.Some? && env.mapLocal && env.mapRemote
    ensures
      var v := Create(w, p, p, req, env).1;
      var z := Kill(v, p);
      env.phys.value in z.frames && !Covers(z, env.phys.value)
  {
    hide Paired, Separate, NoLeak, ReleaseLoop;
    var phys := env.phys.value;
    var a := Block(w, p, req, phys);
    var v := Create(w, p, p, req, env).1;
    var v1 := v.(live := v.live - {p});
    var z := Kill(v, p);
    FirstFrame(a);
    assert Frames(a) == Frames(Block(w, 0, req, phys));
    InsertIs(w.tables[p], a);
    InsertIs(Insert(w.tables[p], a), a);
    var n := |v.tables[p]|;
    forall k | Rec(v, p, k) ensures At(v, p, k) == a || (Rec(w, p, k) && At(v, p, k) == At(w, p, k)) {
    }
    forall k | Rec(v1, p, k) ensures At(v1, p, k).coreId == v1.core && (At(v1, p, k).attached || phys !in Frames(At(v1, p, k))) {
      assert Rec(v, p, k);
    }
    LoopFrames(v1, p, None, n, phys);
    assert !Freed(v1, p, None, n, phys);
    forall x, k | Rec(z, x, k) ensures phys !in Frames(At(z, x, k)) {
      LoopOtherTable(v1, p, None, n, x);
      assert Rec(w, x, k) && Frames(At(z, x, k)) == Frames(At(w, x, k));
    }
  }

  // ------------------------------------------------------------ process birth

  lemma SpawnLedger(w: World, p: nat, phys: nat)
    requires Ledger(w) && p !in w.tables && p != KERNEL_PID
    requires Frames(Share(KERNEL_PID, w.core, 0, phys, 2 * PAGESIZE, false)) !! w.frames
    ensures Ledger(Spawn(w, p, phys))
  {
    var s := Share(KERNEL_PID, w.core, 0, phys, 2 * PAGESIZE, false);
    var v := Spawn(w, p, phys);
    InsertIs(EmptyTable(), s);
    assert EmptyTable()[0].None?;
    var i :| 0 <= i < MAX_SHARES && v.tables[p] == EmptyTable()[i := Some(s)];
    assert Rec(v, p, i) && At(v, p, i) == s;
    forall x, k | Rec(v, x, k) ensures (x == p && k == i) || (Rec(w, x, k) && At(v, x, k) == At(w, x, k)) {
    }
    SpawnPaired(w, v, p, i, s);
    SpawnSeparate(w, v, p, i, s);
    hide Paired, Separate;
    forall f | f in v.frames ensures Covers(v, f) {
      if f in w.frames {
        assert Covers(w, f);
        var x, k :| Rec(w, x, k) && f in Frames(At(w, x, k));
        assert Rec(v, x, k) && f in Frames(At(v, x, k));
      } else {
        assert f in Frames(At(v, p, i));
      }
    }
    forall x, k | Rec(v, x, k)
      ensures At(v, x, k).coreId == v.core && At(v, x, k).size > 0 && At(v, x, k).pid != x
      ensures Frames(At(v, x, k)) <= v.frames
    {
    }
  }

  /** A new process shares two pages with the kernel and has 31 slots left; nothing else changes. */
  lemma SpawnExactly(w: World, p: nat, phys: nat)
    ensures
      var t := seq(32, i => if i == 0 then Some(Share(65533, w.core, 0, phys, 0x2000, false)) else None);
      Spawn(w, p, phys)
        == World(w.core, w.tables[p := t], w.live + {p}, w.frames + {phys, phys + 0x1000}, w.doubleFree)
  {
    var s := Share(KERNEL_PID, w.core, 0, phys, 2 * PAGESIZE, false);
    FirstSlot(s);
    assert Frames(s) == {phys, phys + 0x1000} by {
      assert FramesFrom(phys, 0x2000, 0x1000) == {phys + 0x1000} + FramesFrom(phys, 0x2000, 0x2000);
    }
    assert EmptyTable()[0 := Some(s)] == seq(32, i => if i == 0 then Some(s) else None);
  }

  /** `v` is `w` with a new process `p` holding the single detached record `s` in slot `i`. */
  ghost predicate Born(w: World, v: World, p: nat, i: nat, s: Share) {
    && Rec(v, p, i) && At(v, p, i) == s && !s.attached && Frames(s) !! w.frames
    && p !in w.tables && w.tables.Keys <= v.tables.Keys
    && (forall x, k :: Rec(w, x, k) ==> Rec(v, x, k) && At(v, x, k) == At(w, x, k))
    && (forall x, k :: Rec(v, x, k) ==> (x == p && k == i) || Rec(w, x, k))
  }

  lemma SpawnPaired(w: World, v: World, p: nat, i: nat, s: Share)
    requires Ledger(w) && Born(w, v, p, i, s)
    ensures Paired(v)
  {
    forall x, k | Rec(v, x, k) && At(v, x, k).attached ensures HasMate(v, x, k) {
      assert Rec(w, x, k) && HasMate(w, x, k);
      var y := At(w, x, k).pid;
      var m :| Rec(w, y, m) && Mates(w, x, k, y, m);
      assert Mates(v, x, k, y, m);
    }
  }

  lemma SpawnSeparate(w: World, v: World, p: nat, i: nat, s: Share)
    requires Ledger(w) && Born(w, v, p, i, s)
    ensures Separate(v)
  {
    forall x, k, y, m | Rec(v, x, k) && Rec(v, y, m) && (x != y || k != m)
      ensures Mates(v, x, k, y, m) || Frames(At(v, x, k)) !! Frames(At(v, y, m))
    {
      if Rec(w, x, k) && Rec(w, y, m) {
        assert Mates(w, x, k, y, m) || Frames(At(w, x, k)) !! Frames(At(w, y, m));
      } else if Rec(w, x, k) {
        assert Frames(At(w, x, k)) <= w.frames;
      } else if Rec(w, y, m) {
        assert Frames(At(w, y, m)) <= w.frames;
      }
    }
  }

  // -------------------------------------------------------------- unique keys

  /** Within a process at most one record exists per remote process and tag (all are of one core). */
  ghost predicate Unique(w: World) {
    forall p, i, j ::
      (Rec(w, p, i) && Rec(w, p, j)
       && At(w, p, i).pid == At(w, p, j).pid && At(w, p, i).tagId == At(w, p, j).tagId) ==> i == j
  }

  ghost predicate HasKey(w: World, p: nat, pid: nat, tagId: nat) {
    exists k :: Rec(w, p, k) && At(w, p, k).pid == pid && At(w, p, k).tagId == tagId
  }

  lemma PrunedUnique(w: World, v: World, p: nat, only: Option<nat>)
    requires Unique(w) && Pruned(w, v, p, only)
    ensures Unique(v)
  {
    forall q, i, j | Rec(v, q, i) && Rec(v, q, j)
      && At(v, q, i).pid == At(v, q, j).pid && At(v, q, i).tagId == At(v, q, j).tagId
      ensures i == j
    {
      assert Rec(w, q, i) && Rec(w, q, j);
    }
  }

  lemma PairUnique(w: World, v: World, p: nat, i: nat, q: nat, j: nat, a: Share, b: Share)
    requires Unique(w) && PairAdded(w, v, p, i, q, j, a, b)
    ensures Unique(v) <==> !HasKey(w, p, q, a.tagId) && !HasKey(w, q, p, a.tagId)
  {
    if HasKey(w, p, q, a.tagId) {
      var k :| Rec(w, p, k) && At(w, p, k).pid == q && At(w, p, k).tagId == a.tagId;
      assert Rec(v, p, k) && Rec(v, p, i) && k != i;
    }
    if HasKey(w, q, p, a.tagId) {
      var k :| Rec(w, q, k) && At(w, q, k).pid == p && At(w, q, k).tagId == a.tagId;
      assert Rec(v, q, k) && Rec(v, q, j) && k != j;
    }
    if !HasKey(w, p, q, a.tagId) && !HasKey(w, q, p, a.tagId) {
      forall x, k, m | Rec(v, x, k) && Rec(v, x, m)
        && At(v, x, k).pid == At(v, x, m).pid && At(v, x, k).tagId == At(v, x, m).tagId
        ensures k == m
      {
        if Rec(w, x, k) && Rec(w, x, m) {
          assert At(w, x, k) == At(v, x, k) && At(w, x, m) == At(v, x, m);
        }
      }
    }
  }

  /** A completed creation keeps keys unique exactly when neither side held the key before. */
  lemma CreateUniqueExactly(w: World, p: nat, q: nat, req: Request, env: Env)
    requires Ledger(w) && Unique(w) && p in w.live && q in w.live && FreshFrames(w, req, env)
    requires Admitted(w, p, q, req) && env.phys.Some? && Completes(w, p, q, env)
    ensures Unique(Create(w, p, q, req, env).1) <==> !HasKey(w, p, q, req.tagId) && !HasKey(w, q, p, req.tagId)
  {
    hide Ledger, Unique, Create;
    var i, j := CreateCompletes(w, p, q, req, env);
    var a, b := Block(w, q, req, env.phys.value), Block(w, p, req, env.phys.value);
    PairUnique(w, Create(w, p, q, req, env).1, p, i, q, j, a, b);
  }

  /** The request names the process and the core it is made for. */
  predicate Truthful(w: World, q: nat, req: Request) {
    req.pid == q && req.coreId == w.core
  }

  /**
   For a truthful request the AlreadyExists and DetachInProgress checks rule out
   the key on both sides: on the far side an attached record would have its
   counterpart here, and a detached one is refused.
   */
  lemma TruthfulKeyFree(w: World, p: nat, q: nat, req: Request)
    requires Ledger(w) && Unique(w) && p in w.live && q in w.live
    requires Truthful(w, q, req) && Admitted(w, p, q, req)
    ensures !HasKey(w, p, q, req.tagId) && !HasKey(w, q, p, req.tagId)
  {
    hide Separate, NoLeak;
    FindFromIs(w.tables[p], q, w.core, req.tagId, 0);
    FindFromIs(w.tables[q], p, w.core, req.tagId, 0);
    forall k: nat | Rec(w, p, k) ensures !(At(w, p, k).pid == q && At(w, p, k).tagId == req.tagId) {
      assert !Matches(w.tables[p][k], q, w.core, req.tagId);
    }
    if HasKey(w, q, p, req.tagId) {
      var k: nat :| Rec(w, q, k) && At(w, q, k).pid == p && At(w, q, k).tagId == req.tagId;
      assert Matches(w.tables[q][k], p, w.core, req.tagId);
      MateKey(w, q, FindFrom(w.tables[q], p, w.core, req.tagId, 0).value);
    }
  }

  /** The counterpart of an attached record carries the same tag. */
  lemma MateKey(w: World, q: nat, r: nat)
    requires Ledger(w) && Rec(w, q, r) && At(w, q, r).attached
    ensures HasKey(w, At(w, q, r).pid, q, At(w, q, r).tagId)
  {
    hide Records, Separate, NoLeak;
    assert HasMate(w, q, r);
    var p := At(w, q, r).pid;
    var m :| Rec(w, p, m) && Mates(w, q, r, p, m);
    assert At(w, p, m).pid == q && At(w, p, m).tagId == At(w, q, r).tagId;
  }

  // --------------------------------------------------------------- whole runs

  datatype Step =
    | DoSpawn(p: nat, phys: nat)
    | DoCreate(p: nat, q: nat, req: Request, env: Env)
    | DoDelete(p: nat, pid: nat)
    | DoKill(p: nat)

  /**
   Callers are live, new processes take any free process ID (also one used
   before), the allocator hands out free frames, and creation requests, truthful
   or not, are refused, cannot allocate, or complete.
   */
  predicate Enabled(w: World, step: Step) {
    match step
    case DoSpawn(p, phys) =>
      && p !in w.tables && p != KERNEL_PID
      && Frames(Share(KERNEL_PID, w.core, 0, phys, 2 * PAGESIZE, false)) !! w.frames
    case DoCreate(p, q, req, env) =>
      && p in w.live && q in w.live && p in w.tables && q in w.tables
      && FreshFrames(w, req, env)
      && (!Admitted(w, p, q, req) || env.phys.None? || Completes(w, p, q, env))
    case DoDelete(p, _) => p in w.live && p in w.tables
    case DoKill(p) => p in w.live && p in w.tables
  }

  function Apply(w: World, step: Step): World
    requires Enabled(w, step)
  {
    match step
    case DoSpawn(p, phys) => Spawn(w, p, phys)
    case DoCreate(p, q, req, env) => Create(w, p, q, req, env).1
    case DoDelete(p, pid) => RemoveShares(w, p, pid)
    case DoKill(p) => Kill(w, p)
  }

  predicate Possible(w: World, steps: seq<Step>)
    decreases |steps|
  {
    steps == [] || (Enabled(w, steps[0]) && Possible(Apply(w, steps[0]), steps[1..]))
  }

  function Run(w: World, steps: seq<Step>): World
    requires Possible(w, steps)
    decreases |steps|
  {
    if steps == [] then w else Run(Apply(w, steps[0]), steps[1..])
  }

  function Boot(core: nat): World {
    World(core, map[], {}, {}, false)
  }

  /** Creation requests name the process and the core they are made for. */
  predicate Honest(w: World, step: Step) {
    step.DoCreate? ==> Truthful(w, step.q, step.req)
  }

  predicate HonestRun(w: World, steps: seq<Step>)
    requires Possible(w, steps)
    decreases |steps|
  {
    steps == [] || (Honest(w, steps[0]) && HonestRun(Apply(w, steps[0]), steps[1..]))
  }

  lemma CreateUnique(w: World, p: nat, q: nat, req: Request, env: Env)
    requires Ledger(w) && Unique(w) && Enabled(w, DoCreate(p, q, req, env)) && Truthful(w, q, req)
    ensures Unique(Create(w, p, q, req, env).1)
  {
    hide Ledger, Unique;
    if Admitted(w, p, q, req) && env.phys.Some? {
      TruthfulKeyFree(w, p, q, req);
      CreateUniqueExactly(w, p, q, req, env);
    }
  }

  lemma SpawnUnique(w: World, p: nat, phys: nat)
    requires Unique(w) && Ledger(w) && p !in w.tables
    ensures Unique(Spawn(w, p, phys))
  {
    hide Records, Paired, Separate, NoLeak;
    var s := Share(KERNEL_PID, w.core, 0, phys, 2 * PAGESIZE, false);
    var v := Spawn(w, p, phys);
    InsertIs(EmptyTable(), s);
    assert EmptyTable()[0].None?;
    var n :| 0 <= n < MAX_SHARES && v.tables[p] == EmptyTable()[n := Some(s)];
    forall q, i, j | Rec(v, q, i) && Rec(v, q, j)
      && At(v, q, i).pid == At(v, q, j).pid && At(v, q, i).tagId == At(v, q, j).tagId
      ensures i == j
    {
      if q != p {
        assert Rec(w, q, i) && Rec(w, q, j);
        assert At(w, q, i) == At(v, q, i) && At(w, q, j) == At(v, q, j);
      }
    }
  }

  lemma StepLedger(w: World, step: Step)
    requires Ledger(w) && Enabled(w, step)
    ensures Ledger(Apply(w, step))
  {
    hide Ledger, Pruned, Create, RemoveShares, Kill, Spawn;
    match step
    case DoSpawn(p, phys) => SpawnLedger(w, p, phys);
    case DoCreate(p, q, req, env) => CreateLedgerExactly(w, p, q, req, env);
    case DoDelete(p, pid) => RemoveLedger(w, p, pid);
    case DoKill(p) => KillLedger(w, p);
  }

  lemma StepUnique(w: World, step: Step)
    requires Ledger(w) && Unique(w) && Enabled(w, step) && Honest(w, step)
    ensures Unique(Apply(w, step))
  {
    hide Ledger, Unique, Pruned, Create, RemoveShares, Kill, Spawn;
    match step
    case DoSpawn(p, phys) => SpawnUnique(w, p, phys);
    case DoCreate(p, q, req, env) => CreateUnique(w, p, q, req, env);
    case DoDelete(p, pid) =>
      RemoveLedger(w, p, pid);
      PrunedUnique(w, RemoveShares(w, p, pid), p, Some(pid));
    case DoKill(p) =>
      KillLedger(w, p);
      PrunedUnique(w, Kill(w, p), p, None);
  }

  /**
   In every run of process births, share creations, deletions and process
   deaths, with process IDs reused freely, the ledger holds.
   */
  lemma {:induction false} RunLedger(w: World, steps: seq<Step>)
    requires Ledger(w) && Possible(w, steps)
    ensures Ledger(Run(w, steps))
    decreases |steps|
  {
    hide Ledger, Apply, Enabled;
    if steps != [] {
      StepLedger(w, steps[0]);
      RunLedger(Apply(w, steps[0]), steps[1..]);
    }
  }

  /** If the requests are truthful too, no process ever holds two records with one key. */
  lemma {:induction false} RunUnique(w: World, steps: seq<Step>)
    requires Ledger(w) && Unique(w) && Possible(w, steps) && HonestRun(w, steps)
    ensures Unique(Run(w, steps))
    decreases |steps|
  {
    hide Ledger, Unique, Apply, Enabled, Honest;
    if steps != [] {
      StepLedger(w, steps[0]);
      StepUnique(w, steps[0]);
      RunUnique(Apply(w, steps[0]), steps[1..]);
    }
  }

  lemma BootLedger(core: nat, steps: seq<Step>)
    requires Possible(Boot(core), steps)
    ensures Ledger(Run(Boot(core), steps))
    ensures HonestRun(Boot(core), steps) ==> Unique(Run(Boot(core), steps))
  {
    RunLedger(Boot(core), steps);
    if HonestRun(Boot(core), steps) {
      RunUnique(Boot(core), steps);
    }
  }

  /** The only records that cover frame `f`. */
  ghost predicate OnlyHolders(w: World, f: nat, p: nat, i: nat, q: nat, j: nat) {
    forall x, k :: Rec(w, x, k) && f in Frames(At(w, x, k)) ==> (x == p && k == i) || (x == q && k == j)
  }

  lemma SharersAreMates(w: World, p: nat, i: nat, q: nat, j: nat, f: nat)
    requires Ledger(w) && Rec(w, p, i) && Rec(w, q, j) && (p != q || i != j)
    requires f in Frames(At(w, p, i)) && f in Frames(At(w, q, j))
    ensures Mates(w, p, i, q, j)
  {
  }

  /**
   What the ledger means for one frame that is handed out: it is held by exactly
   two attached records that name each other, or by exactly one detached record.
   */
  lemma FrameHolders(w: World, f: nat) returns (p: nat, i: nat, q: nat, j: nat)
    requires Ledger(w) && f in w.frames
    ensures Rec(w, p, i) && f in Frames(At(w, p, i)) && OnlyHolders(w, f, p, i, q, j)
    ensures At(w, p, i).attached ==> Rec(w, q, j) && Mates(w, p, i, q, j) && f in Frames(At(w, q, j))
    ensures !At(w, p, i).attached ==> q == p && j == i
  {
    hide Records;
    assert Covers(w, f);
    p, i :| Rec(w, p, i) && f in Frames(At(w, p, i));
    q, j := p, i;
    if At(w, p, i).attached {
      assert HasMate(w, p, i);
      q := At(w, p, i).pid;
      j :| Rec(w, q, j) && Mates(w, p, i, q, j);
    }
    forall x, k | Rec(w, x, k) && f in Frames(At(w, x, k))
      ensures (x == p && k == i) || (x == q && k == j)
    {
      if !(x == p && k == i) {
        SharersAreMates(w, p, i, x, k, f);
        if !(x == q && k == j) {
          SharersAreMates(w, q, j, x, k, f);
        }
      }
    }
  }

  /** A step returns a frame to the allocator exactly when it removes the last record that covers it. */
  lemma FreedExactlyWithLastRecord(w: World, step: Step, f: nat)
    requires Ledger(w) && Enabled(w, step)
    ensures
      var v := Apply(w, step);
      && (f in w.frames && f !in v.frames <==> Covers(w, f) && !Covers(v, f))
      && !v.doubleFree
  {
    hide Apply, Enabled, Paired, Separate;
    StepLedger(w, step);
    FramesCovered(w, f);
    FramesCovered(Apply(w, step), f);
  }

  lemma FramesCovered(w: World, f: nat)
    requires Ledger(w)
    ensures f in w.frames <==> Covers(w, f)
  {
    hide Paired, Separate;
  }

  // -------------------------------------------------- the kernel event channel

  /** Every live process still has the record of its kernel event channel. */
  ghost predicate KernelChannels(w: World) {
    forall p :: p in w.live ==> exists k :: Rec(w, p, k) && At(w, p, k).pid == KERNEL_PID
  }

  /** A delete call keeps all kernel event channels exactly when it does not name the kernel. */
  lemma DeleteKeepsKernelChannelsExactly(w: World, p: nat, pid: nat)
    requires Ledger(w) && p in w.live && KernelChannels(w)
    ensures KernelChannels(RemoveShares(w, p, pid)) <==> pid != KERNEL_PID
  {
    hide Records, Paired, Separate, NoLeak, ReleaseLoop;
    RemoveLedger(w, p, pid);
    var v := RemoveShares(w, p, pid);
    if pid != KERNEL_PID {
      forall q | q in v.live ensures exists k :: Rec(v, q, k) && At(v, q, k).pid == KERNEL_PID {
        var k :| Rec(w, q, k) && At(w, q, k).pid == KERNEL_PID;
        assert Rec(v, q, k);
      }
    } else {
      assert p in v.live;
    }
  }

  // ------------------------------------------------------- a run with a double key

  lemma {:induction false} FramesWithin(phys: nat, size: nat, i: nat)
    ensures forall f :: f in FramesFrom(phys, size, i) ==> phys <= f < phys + size
    decreases size - i
  {
    if i < size {
      FramesWithin(phys, size, i + PAGESIZE);
    }
  }

  /** Births from an empty table: both processes hold one record, for the kernel, in their first slot. */
  lemma TwoBirths(core: nat, x: nat, y: nat)
    requires x + 2 * PAGESIZE <= y
    ensures Enabled(Boot(core), DoSpawn(1, x)) && Enabled(Spawn(Boot(core), 1, x), DoSpawn(2, y))
    ensures
      var w := Spawn(Spawn(Boot(core), 1, x), 2, y);
      && Ledger(w) && Unique(w) && w.live == {1, 2} && w.tables.Keys == {1, 2} && w.core == core
      && (forall f :: f in w.frames ==> f < y + 2 * PAGESIZE)
      && (forall p, k :: Rec(w, p, k) ==> k == 0 && At(w, p, k).pid == KERNEL_PID)
  {
    hide Ledger, Unique, Frames;
    var s := Share(KERNEL_PID, core, 0, x, 2 * PAGESIZE, false);
    var t := Share(KERNEL_PID, core, 0, y, 2 * PAGESIZE, false);
    FramesOf(s);
    FramesOf(t);
    var a := Spawn(Boot(core), 1, x);
    BootIsFine(core);
    StepLedger(Boot(core), DoSpawn(1, x));
    StepUnique(Boot(core), DoSpawn(1, x));
    StepLedger(a, DoSpawn(2, y));
    StepUnique(a, DoSpawn(2, y));
    FirstSlot(s);
    FirstSlot(t);
  }

  lemma BootIsFine(core: nat)
    ensures Ledger(Boot(core)) && Unique(Boot(core))
  {
  }

  lemma FramesOf(s: Share)
    ensures forall f :: f in Frames(s) ==> s.phys <= f < s.phys + s.size
  {
    FramesWithin(s.phys, s.size, 0);
  }

  lemma FirstSlot(s: Share)
    ensures Insert(EmptyTable(), s) == EmptyTable()[0 := Some(s)]
  {
    assert EmptyTable()[0].None?;
    InsertIs(EmptyTable(), s);
  }

  /**
   The run: two births, process 1 shares one page with process 2, and then asks for
   another share with process 2 under the same tag with the number of a third process
   in the request. The search for an existing share looks for the third process, so
   the request is carried out and process 1 holds two records with one key.
   */
  lemma DoubleKeyRun(core: nat) returns (steps: seq<Step>)
    ensures Possible(Boot(core), steps) && !Unique(Run(Boot(core), steps))
  {
    hide Ledger, Unique, Create, Frames, Spawn;
    var w := Spawn(Spawn(Boot(core), 1, 0x10000), 2, 0x20000);
    TwoBirths(core, 0x10000, 0x20000);
    var first, second := Request(2, core, 0, PAGESIZE), Request(3, core, 0, PAGESIZE);
    var env, more := Env(Some(0x30000), true, true), Env(Some(0x40000), true, true);
    var a := DoCreate(1, 2, first, env);
    var b := DoCreate(1, 2, second, more);
    FirstShare(w, first, env, 0x30000);
    var v := Create(w, 1, 2, first, env).1;
    SecondShare(v, second, more);
    var u := Create(v, 1, 2, second, more).1;
    steps := [DoSpawn(1, 0x10000), DoSpawn(2, 0x20000), a, b];
    var m := Spawn(Boot(core), 1, 0x10000);
    Four(Boot(core), m, w, v, u, steps);
  }

  /** Four enabled steps make a run. */
  lemma Four(a: World, b: World, c: World, d: World, e: World, steps: seq<Step>)
    requires |steps| == 4
    requires Enabled(a, steps[0]) && Apply(a, steps[0]) == b && Enabled(b, steps[1]) && Apply(b, steps[1]) == c
    requires Enabled(c, steps[2]) && Apply(c, steps[2]) == d && Enabled(d, steps[3]) && Apply(d, steps[3]) == e
    ensures Possible(a, steps) && Run(a, steps) == e
  {
    hide Enabled, Apply;
    assert Possible(e, steps[4..]) && Run(e, steps[4..]) == e;
    assert steps[3..][1..] == steps[4..];
    assert Possible(d, steps[3..]) && Run(d, steps[3..]) == e;
    assert steps[2..][1..] == steps[3..];
    assert Possible(c, steps[2..]) && Run(c, steps[2..]) == e;
    assert steps[1..][1..] == steps[2..];
    assert Possible(b, steps[1..]) && Run(b, steps[1..]) == e;
  }

  /** Process 1 and 2 hold only their kernel records, and share one page truthfully. */
  lemma FirstShare(w: World, req: Request, env: Env, top: nat)
    requires Ledger(w) && Unique(w) && w.live == {1, 2} && w.tables.Keys == {1, 2}
    requires forall f :: f in w.frames ==> f < top
    requires forall p, k :: Rec(w, p, k) ==> k == 0 && At(w, p, k).pid == KERNEL_PID
    requires req == Request(2, w.core, 0, PAGESIZE) && env == Env(Some(top), true, true)
    ensures Enabled(w, DoCreate(1, 2, req, env)) && Admitted(w, 1, 2, req) && Completes(w, 1, 2, env)
    ensures
      var v := Create(w, 1, 2, req, env).1;
      && Ledger(v) && Unique(v) && v.live == {1, 2} && v.tables.Keys == {1, 2} && v.core == w.core
      && (forall f :: f in v.frames ==> f < top + PAGESIZE) && top in v.frames && HasKey(v, 1, 2, 0)
      && HasRoom(v.tables[1]) && HasRoom(v.tables[2])
      && (forall k :: Rec(v, 1, k) ==> At(v, 1, k).pid == KERNEL_PID || At(v, 1, k).pid == 2)
      && (forall k :: Rec(v, 2, k) ==> At(v, 2, k).pid == KERNEL_PID || At(v, 2, k).attached)
  {
    hide Unique, Records, Paired, Separate, NoLeak, Create, Frames;
    FramesOf(Block(w, 0, req, top));
    FramesOf(Block(w, 2, req, top));
    FirstFrame(Block(w, 2, req, top));
    FindFromIs(w.tables[1], 2, w.core, 0, 0);
    FindFromIs(w.tables[2], 1, w.core, 0, 0);
    assert forall k :: 0 <= k < |w.tables[1]| && w.tables[1][k].Some? ==> Rec(w, 1, k);
    assert forall k :: 0 <= k < |w.tables[2]| && w.tables[2][k].Some? ==> Rec(w, 2, k);
    assert !Rec(w, 1, 1) && !Rec(w, 1, 2) && !Rec(w, 2, 1) && !Rec(w, 2, 2);
    assert w.tables[1][1].None? && w.tables[2][1].None?;
    assert Enabled(w, DoCreate(1, 2, req, env));
    StepLedger(w, DoCreate(1, 2, req, env));
    StepUnique(w, DoCreate(1, 2, req, env));
    var i, j := CreateCompletes(w, 1, 2, req, env);
    var v := Create(w, 1, 2, req, env).1;
    assert Rec(v, 1, i) && At(v, 1, i).pid == 2;
    var x, y := if i == 1 then 2 else 1, if j == 1 then 2 else 1;
    assert !Rec(v, 1, x) && !Rec(v, 2, y);
    assert v.tables[1][x].None? && v.tables[2][y].None?;
  }

  lemma SecondShare(v: World, req: Request, env: Env)
    requires Ledger(v) && Unique(v) && v.live == {1, 2} && v.tables.Keys == {1, 2}
    requires (forall f :: f in v.frames ==> f < 0x40000) && HasKey(v, 1, 2, 0)
    requires HasRoom(v.tables[1]) && HasRoom(v.tables[2])
    requires forall k :: Rec(v, 1, k) ==> At(v, 1, k).pid == KERNEL_PID || At(v, 1, k).pid == 2
    requires forall k :: Rec(v, 2, k) ==> At(v, 2, k).pid == KERNEL_PID || At(v, 2, k).attached
    requires req == Request(3, v.core, 0, PAGESIZE) && env == Env(Some(0x40000), true, true)
    ensures Enabled(v, DoCreate(1, 2, req, env)) && !Unique(Create(v, 1, 2, req, env).1)
  {
    hide Unique, Records, Paired, Separate, NoLeak, Create, Frames;
    FramesOf(Block(v, 0, req, 0x40000));
    FindFromIs(v.tables[1], 3, v.core, 0, 0);
    FindFromIs(v.tables[2], 1, v.core, 0, 0);
    assert forall k :: 0 <= k < |v.tables[1]| && v.tables[1][k].Some? ==> Rec(v, 1, k);
    assert forall k :: 0 <= k < |v.tables[2]| && v.tables[2][k].Some? ==> Rec(v, 2, k);
    CreateUniqueExactly(v, 1, 2, req, env);
  }
}
