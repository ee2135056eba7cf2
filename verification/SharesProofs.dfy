/** The share ledger is kept by every operation; the cases in which creation breaks it are characterised exactly. */
module SharesProofs {
  import opened Basics
  import opened SharesSpec

  // ------------------------------------------------- what a release loop does

  /** Releasing a record of `p` never marks another record of `p`, and all its records are of this core. */
  ghost predicate Releasable(w: World, p: nat) {
    && p in w.tables && w.live <= w.tables.Keys
    && forall i :: Rec(w, p, i) ==> (At(w, p, i).pid != p || p !in w.live) && At(w, p, i).coreId == w.core
  }

  /** One of the first `n` slots of `p` is released while attached to `q`. */
  ghost predicate Touched(w: World, p: nat, only: Option<nat>, n: nat, q: nat) {
    exists k: nat :: k < n && Rec(w, p, k) && Selected(Some(At(w, p, k)), only) && At(w, p, k).attached && At(w, p, k).pid == q
  }

  /** One of the first `n` slots of `p` is released detached and owns frame `f`. */
  ghost predicate Freed(w: World, p: nat, only: Option<nat>, n: nat, f: nat) {
    exists k: nat :: k < n && Rec(w, p, k) && Selected(Some(At(w, p, k)), only) && !At(w, p, k).attached && f in Frames(At(w, p, k))
  }

  /** The detached records of `p` own frames that are handed out, and no frame twice. */
  ghost predicate OwnsFrames(w: World, p: nat) {
    && (forall i :: Rec(w, p, i) && !At(w, p, i).attached ==> Frames(At(w, p, i)) <= w.frames)
    && (forall i, j :: Rec(w, p, i) && Rec(w, p, j) && i != j && !At(w, p, i).attached && !At(w, p, j).attached ==>
          Frames(At(w, p, i)) !! Frames(At(w, p, j)))
  }

  lemma MarkTwice(t: Table, pid: nat, core: nat)
    ensures MarkDetached(MarkDetached(t, pid, core), pid, core) == MarkDetached(t, pid, core)
  {
  }

  /** One round of the loop, seen from the table it started with. */
  lemma LoopRound(w: World, p: nat, only: Option<nat>, n: nat)
    requires Releasable(w, p) && 0 < n <= |w.tables[p]|
    requires ReleaseLoop(w, p, only, n - 1).tables[p][n - 1] == w.tables[p][n - 1]
    ensures
      var u, v, r := ReleaseLoop(w, p, only, n - 1), ReleaseLoop(w, p, only, n), w.tables[p][n - 1];
      if !Selected(r, only) then v == u
      else
        var s := r.value;
        && s.coreId == w.core
        && v.tables[p] == u.tables[p][n - 1 := None]
        && (forall q :: q in w.tables && q != p ==>
              v.tables[q] == if s.attached && s.pid == q && q in w.live then MarkDetached(u.tables[q], p, w.core) else u.tables[q])
        && v.frames == (if s.attached then u.frames else u.frames - Frames(s))
        && v.doubleFree == (u.doubleFree || (!s.attached && !(Frames(s) <= u.frames)))
  {
    if Selected(w.tables[p][n - 1], only) {
      assert Rec(w, p, n - 1) && At(w, p, n - 1) == w.tables[p][n - 1].value;
    }
  }

  lemma LoopNone(w: World, p: nat, only: Option<nat>)
    requires p in w.tables
    ensures ReleaseLoop(w, p, only, 0) == w
  {
  }

  /** Own table: the selected slots below `n` are gone, the rest is as it was. */
  lemma {:induction false} LoopOwnTable(w: World, p: nat, only: Option<nat>, n: nat, i: nat)
    requires Releasable(w, p) && n <= |w.tables[p]| && i < |w.tables[p]|
    ensures ReleaseLoop(w, p, only, n).tables[p][i] ==
      if i < n && Selected(w.tables[p][i], only) then None else w.tables[p][i]
    decreases n
  {
    hide ReleaseLoop, MarkDetached;
    if n > 0 {
      LoopOwnTable(w, p, only, n - 1, i);
      LoopOwnTable(w, p, only, n - 1, n - 1);
      LoopRound(w, p, only, n);
    } else {
      LoopNone(w, p, only);
    }
  }

  /** What one more slot adds to the processes touched and the frames freed. */
  lemma OneSlotMore(w: World, p: nat, only: Option<nat>, n: nat, q: nat, f: nat)
    requires p in w.tables && 0 < n <= |w.tables[p]|
    ensures
      var r := w.tables[p][n - 1];
      Touched(w, p, only, n, q) <==>
        Touched(w, p, only, n - 1, q) || (Selected(r, only) && r.value.attached && r.value.pid == q)
    ensures
      var r := w.tables[p][n - 1];
      Freed(w, p, only, n, f) <==>
        Freed(w, p, only, n - 1, f) || (Selected(r, only) && !r.value.attached && f in Frames(r.value))
  {
    hide Frames;
    var r := w.tables[p][n - 1];
    if Selected(r, only) {
      assert Rec(w, p, n - 1) && At(w, p, n - 1) == r.value;
    }
  }

  /** Other tables: marked exactly when an attached record for that process was released. */
  lemma {:induction false} LoopOtherTable(w: World, p: nat, only: Option<nat>, n: nat, q: nat)
    requires Releasable(w, p) && n <= |w.tables[p]| && q in w.tables && q != p
    ensures ReleaseLoop(w, p, only, n).tables[q] ==
      if q in w.live && Touched(w, p, only, n, q) then MarkDetached(w.tables[q], p, w.core) else w.tables[q]
    decreases n
  {
    if n > 0 {
      hide ReleaseLoop, MarkDetached, Touched, Frames;
      LoopOtherTable(w, p, only, n - 1, q);
      LoopOwnTable(w, p, only, n - 1, n - 1);
      LoopRound(w, p, only, n);
      MarkTwice(w.tables[q], p, w.core);
      OneSlotMore(w, p, only, n, q, 0);
    }
  }

  lemma {:induction false} LoopFrames(w: World, p: nat, only: Option<nat>, n: nat, f: nat)
    requires Releasable(w, p) && n <= |w.tables[p]|
    ensures f in ReleaseLoop(w, p, only, n).frames <==> f in w.frames && !Freed(w, p, only, n, f)
    decreases n
  {
    if n > 0 {
      hide ReleaseLoop, MarkDetached, Freed, Frames;
      LoopFrames(w, p, only, n - 1, f);
      LoopOwnTable(w, p, only, n - 1, n - 1);
      LoopRound(w, p, only, n);
      OneSlotMore(w, p, only, n, 0, f);
    }
  }

  lemma {:induction false} LoopFreesOnce(w: World, p: nat, only: Option<nat>, n: nat)
    requires Releasable(w, p) && n <= |w.tables[p]| && OwnsFrames(w, p) && !w.doubleFree
    ensures !ReleaseLoop(w, p, only, n).doubleFree
    decreases n
  {
    hide Release;
    if n > 0 {
      LoopFreesOnce(w, p, only, n - 1);
      LoopOwnTable(w, p, only, n - 1, n - 1);
      LoopRound(w, p, only, n);
      var r := w.tables[p][n - 1];
      if Selected(r, only) && !r.value.attached {
        assert Rec(w, p, n - 1) && At(w, p, n - 1) == r.value;
        forall f | f in Frames(r.value) ensures f in ReleaseLoop(w, p, only, n - 1).frames {
          LoopFrames(w, p, only, n - 1, f);
          assert !Freed(w, p, only, n - 1, f);
        }
      }
    }
  }

  // --------------------------------------------------- releasing keeps the ledger

  predicate Wants(only: Option<nat>, pid: nat) {
    only.None? || only.value == pid
  }

  /** Frame `f` belongs to a selected record of `p` that is its block's last. */
  ghost predicate Returned(w: World, p: nat, only: Option<nat>, f: nat) {
    exists k :: Rec(w, p, k) && Wants(only, At(w, p, k).pid) && !At(w, p, k).attached && f in Frames(At(w, p, k))
  }

  /** A record of another process after `p` released, detached if it named `p`. */
  function Cut(s: Share, p: nat, wanted: bool): Share {
    if s.pid == p && wanted then s.(attached := false) else s
  }

  /** `v` is `w` without the selected records of `p`, their counterparts detached and their own frames returned. */
  ghost predicate Pruned(w: World, v: World, p: nat, only: Option<nat>) {
    && v.core == w.core && !v.doubleFree && Shapes(v)
    && (forall q, j :: Rec(v, q, j) <==> Rec(w, q, j) && !(q == p && Wants(only, At(w, q, j).pid)))
    && (forall q, j :: Rec(v, q, j) ==> At(v, q, j) == Cut(At(w, q, j), p, Wants(only, q)))
    && (forall f :: f in v.frames <==> f in w.frames && !Returned(w, p, only, f))
  }

  lemma PrunedRecords(w: World, v: World, p: nat, only: Option<nat>)
    requires Ledger(w) && Pruned(w, v, p, only)
    ensures Records(v)
  {
    hide Paired, NoLeak, Shapes, FramesFrom;
    forall q, j | Rec(v, q, j)
      ensures At(v, q, j).coreId == v.core && At(v, q, j).size > 0 && At(v, q, j).pid != q
      ensures Frames(At(v, q, j)) <= v.frames
    {
      assert Rec(w, q, j);
      assert Frames(At(v, q, j)) == Frames(At(w, q, j));
      forall f | f in Frames(At(w, q, j)) ensures f in v.frames {
        forall k | Rec(w, p, k) && Wants(only, At(w, p, k).pid) && !At(w, p, k).attached
          ensures f !in Frames(At(w, p, k))
        {
          assert p != q || k != j;
          assert Mates(w, p, k, q, j) || Frames(At(w, p, k)) !! Frames(At(w, q, j));
        }
      }
    }
  }

  /** Both ends of a block survive together. */
  lemma MateSurvives(w: World, v: World, p: nat, only: Option<nat>, q: nat, j: nat, x: nat, k: nat)
    requires Pruned(w, v, p, only) && Rec(v, q, j) && At(v, q, j).attached
    requires Rec(w, q, j) && Rec(w, x, k) && Mates(w, q, j, x, k)
    ensures Rec(v, x, k) && Mates(v, q, j, x, k)
  {
    hide Shapes, FramesFrom, Returned;
    assert At(v, q, j) == Cut(At(w, q, j), p, Wants(only, q));
    assert Rec(v, x, k);
    assert At(v, x, k) == Cut(At(w, x, k), p, Wants(only, x));
  }

  lemma PrunedPaired(w: World, v: World, p: nat, only: Option<nat>)
    requires Ledger(w) && Pruned(w, v, p, only)
    ensures Paired(v)
  {
    forall q, j | Rec(v, q, j) && At(v, q, j).attached
      ensures HasMate(v, q, j)
    {
      PrunedPairedAt(w, v, p, only, q, j);
    }
  }

  lemma PrunedPairedAt(w: World, v: World, p: nat, only: Option<nat>, q: nat, j: nat)
    requires Ledger(w) && Pruned(w, v, p, only) && Rec(v, q, j) && At(v, q, j).attached
    ensures HasMate(v, q, j)
  {
    hide Records, Separate, NoLeak, Shapes, FramesFrom, Returned, Mates;
    assert Rec(w, q, j) && At(v, q, j) == Cut(At(w, q, j), p, Wants(only, q));
    assert HasMate(w, q, j);
    var x := At(w, q, j).pid;
    var k :| Rec(w, x, k) && Mates(w, q, j, x, k);
    MateSurvives(w, v, p, only, q, j, x, k);
  }

  lemma PrunedSeparate(w: World, v: World, p: nat, only: Option<nat>)
    requires Ledger(w) && Pruned(w, v, p, only)
    ensures Separate(v)
  {
    hide Records, Paired, NoLeak, Shapes, Returned, FramesFrom;
    forall a, i, b, j | Rec(v, a, i) && Rec(v, b, j) && (a != b || i != j)
      ensures Mates(v, a, i, b, j) || Frames(At(v, a, i)) !! Frames(At(v, b, j))
    {
      assert Rec(w, a, i) && Rec(w, b, j);
      assert Mates(w, a, i, b, j) || Frames(At(w, a, i)) !! Frames(At(w, b, j));
    }
  }

  lemma PrunedNoLeak(w: World, v: World, p: nat, only: Option<nat>)
    requires Ledger(w) && Pruned(w, v, p, only)
    ensures NoLeak(v)
  {
    hide Records, Separate, Shapes, FramesFrom;
    forall f | f in v.frames ensures Covers(v, f) {
      assert Covers(w, f);
      var q, j :| Rec(w, q, j) && f in Frames(At(w, q, j));
      if Rec(v, q, j) {
        assert f in Frames(At(v, q, j));
      } else {
        assert At(w, q, j).attached;
        assert HasMate(w, q, j);
        var x := At(w, q, j).pid;
        var k :| Rec(w, x, k) && Mates(w, q, j, x, k);
        assert Rec(v, x, k);
        assert f in Frames(At(v, x, k));
      }
    }
  }

  lemma PrunedLedger(w: World, v: World, p: nat, only: Option<nat>)
    requires Ledger(w) && Pruned(w, v, p, only)
    ensures Ledger(v)
  {
    hide Pruned, Records, Paired, Separate, NoLeak;
    PrunedRecords(w, v, p, only);
    PrunedPaired(w, v, p, only);
    PrunedSeparate(w, v, p, only);
    PrunedNoLeak(w, v, p, only);
    PrunedRest(w, v, p, only);
  }

  lemma PrunedRest(w: World, v: World, p: nat, only: Option<nat>)
    requires Pruned(w, v, p, only)
    ensures Shapes(v) && !v.doubleFree
  {
  }

  /** Whatever `p` still has attached to `q` is what `q` still has attached to `p`. */
  lemma UntouchedIsCut(w: World, p: nat, only: Option<nat>, q: nat, j: nat)
    requires Ledger(w) && Rec(w, q, j) && q != p && p in w.tables
    ensures Touched(w, p, only, |w.tables[p]|, q) || At(w, q, j) == Cut(At(w, q, j), p, Wants(only, q))
  {
    hide Records, Separate, NoLeak, Shapes;
    var s := At(w, q, j);
    if s.pid == p && s.attached && Wants(only, q) {
      assert HasMate(w, q, j);
      var k: nat :| Rec(w, p, k) && Mates(w, q, j, p, k);
      assert k < |w.tables[p]| && Selected(Some(At(w, p, k)), only);
      assert Touched(w, p, only, |w.tables[p]|, q);
    }
  }

  /** The loop over the whole table, for the state `w` itself or with `p` already off the process table. */
  lemma LoopRecords(w0: World, w: World, p: nat, only: Option<nat>, q: nat, j: nat)
    requires Ledger(w0) && p in w0.tables
    requires w == w0 || w == w0.(live := w0.live - {p})
    ensures
      var v := ReleaseLoop(w, p, only, |w.tables[p]|);
      && (Rec(v, q, j) <==> Rec(w0, q, j) && !(q == p && Wants(only, At(w0, q, j).pid)))
      && (Rec(v, q, j) ==> At(v, q, j) == Cut(At(w0, q, j), p, Wants(only, q)))
      && (q in w0.tables ==> |v.tables[q]| == |w0.tables[q]|)
  {
    hide ReleaseLoop, Paired, Separate, NoLeak;
    LoopReleasable(w0, w, p);
    var n := |w.tables[p]|;
    if q in w0.tables {
      if q == p {
        if j < n { LoopOwnTable(w, p, only, n, j); }
      } else {
        LoopOtherTable(w, p, only, n, q);
        assert Touched(w, p, only, n, q) <==> Touched(w0, p, only, n, q) by { TouchedSame(w0, w, p, only, n, q); }
        if Rec(w0, q, j) {
          UntouchedIsCut(w0, p, only, q, j);
        }
      }
    }
  }

  lemma TouchedSame(w0: World, w: World, p: nat, only: Option<nat>, n: nat, q: nat)
    requires w.tables == w0.tables
    ensures Touched(w, p, only, n, q) <==> Touched(w0, p, only, n, q)
    ensures forall f :: Freed(w, p, only, n, f) <==> Freed(w0, p, only, n, f)
  {
    assert forall k :: Rec(w, p, k) <==> Rec(w0, p, k);
    assert forall k :: Rec(w, p, k) ==> At(w, p, k) == At(w0, p, k);
  }

  lemma LoopReleasable(w0: World, w: World, p: nat)
    requires Ledger(w0) && p in w0.tables
    requires w == w0 || w == w0.(live := w0.live - {p})
    ensures Releasable(w, p) && OwnsFrames(w, p) && !w.doubleFree
  {
    forall i | Rec(w, p, i)
      ensures At(w, p, i).pid != p && At(w, p, i).coreId == w.core && Frames(At(w, p, i)) <= w.frames
    {
      assert Rec(w0, p, i) && At(w, p, i) == At(w0, p, i);
    }
    forall i, j | Rec(w, p, i) && Rec(w, p, j) && i != j && !At(w, p, i).attached && !At(w, p, j).attached
      ensures Frames(At(w, p, i)) !! Frames(At(w, p, j))
    {
      assert Rec(w0, p, i) && Rec(w0, p, j);
      assert Mates(w0, p, i, p, j) || Frames(At(w0, p, i)) !! Frames(At(w0, p, j));
    }
  }

  lemma LoopFramesAll(w0: World, w: World, p: nat, only: Option<nat>, f: nat)
    requires Ledger(w0) && p in w0.tables
    requires w == w0 || w == w0.(live := w0.live - {p})
    ensures f in ReleaseLoop(w, p, only, |w.tables[p]|).frames <==>
      f in w0.frames && !Returned(w0, p, only, f)
  {
    hide ReleaseLoop, Paired, Separate, NoLeak;
    var n := |w.tables[p]|;
    LoopReleasable(w0, w, p);
    LoopFrames(w, p, only, n, f);
    TouchedSame(w0, w, p, only, n, p);
    if Returned(w0, p, only, f) {
      var k: nat :| Rec(w0, p, k) && Wants(only, At(w0, p, k).pid) && !At(w0, p, k).attached && f in Frames(At(w0, p, k));
      assert k < n && Selected(Some(At(w0, p, k)), only);
      assert Freed(w0, p, only, n, f);
    }
  }

  /** Removing the shares with one process keeps the ledger. */
  lemma RemoveLedger(w: World, p: nat, pid: nat)
    requires Ledger(w) && p in w.live
    ensures Ledger(RemoveShares(w, p, pid)) && Pruned(w, RemoveShares(w, p, pid), p, Some(pid))
  {
    hide ReleaseLoop, Records, Paired, Separate, NoLeak;
    var v := RemoveShares(w, p, pid);
    forall q, j
      ensures Rec(v, q, j) <==> Rec(w, q, j) && !(q == p && Wants(Some(pid), At(w, q, j).pid))
      ensures Rec(v, q, j) ==> At(v, q, j) == Cut(At(w, q, j), p, Wants(Some(pid), q))
    {
      LoopRecords(w, w, p, Some(pid), q, j);
    }
    forall q | q in w.tables ensures |v.tables[q]| == |w.tables[q]| {
      LoopRecords(w, w, p, Some(pid), q, 0);
    }
    forall f
      ensures f in v.frames <==> f in w.frames && !Returned(w, p, Some(pid), f)
    {
      LoopFramesAll(w, w, p, Some(pid), f);
    }
    LoopReleasable(w, w, p);
    LoopFreesOnce(w, p, Some(pid), |w.tables[p]|);
    assert Pruned(w, v, p, Some(pid));
    PrunedLedger(w, v, p, Some(pid));
  }

  /** Process death keeps the ledger, whatever its shares and whoever holds the other ends. */
  lemma KillLedger(w: World, p: nat)
    requires Ledger(w) && p in w.live
    ensures Ledger(Kill(w, p)) && Pruned(w, Kill(w, p), p, None)
  {
    hide ReleaseLoop, Records, Paired, Separate, NoLeak;
    var w1 := w.(live := w.live - {p});
    var u := ReleaseLoop(w1, p, None, |w.tables[p]|);
    var v := Kill(w, p);
    assert v == u.(tables := u.tables - {p});
    forall q, j
      ensures Rec(v, q, j) <==> Rec(w, q, j) && !(q == p && Wants(None, At(w, q, j).pid))
      ensures Rec(v, q, j) ==> At(v, q, j) == Cut(At(w, q, j), p, Wants(None, q))
    {
      LoopRecords(w, w1, p, None, q, j);
      assert Rec(v, q, j) <==> q != p && Rec(u, q, j);
    }
    forall q | q in v.tables ensures |v.tables[q]| == |w.tables[q]| {
      LoopRecords(w, w1, p, None, q, 0);
    }
    forall f
      ensures f in v.frames <==> f in w.frames && !Returned(w, p, None, f)
    {
      LoopFramesAll(w, w1, p, None, f);
    }
    LoopReleasable(w, w1, p);
    LoopFreesOnce(w1, p, None, |w.tables[p]|);
    assert Pruned(w, v, p, None);
    PrunedLedger(w, v, p, None);
  }
}
