/** The ProcessShares class, each operation proved equal to its specification in SharesSpec. */
module ProcessSharesImpl {
  import opened Basics
  import opened SharesSpec

  /** The parts of the kernel that shares reach: the process table and the page allocator. */
  class Kernel {
    const core: nat
    var procs: map<nat, ProcessShares>
    var frames: set<nat>
    ghost var doubleFree: bool

    constructor (core: nat)
      ensures this.core == core && procs == map[] && frames == {} && !doubleFree
    {
      this.core := core;
      procs := map[];
      frames := {};
      doubleFree := false;
    }

    ghost predicate Valid()
      reads this
    {
      forall p :: p in procs ==> procs[p].pid == p
    }

    ghost function View(): World
      reads this, procs.Values
    {
      World(core, TablesOf(procs), procs.Keys, frames, doubleFree)
    }

    /** Process creation, with the block at `phys` for the kernel event channel. */
    method CreateProcess(p: nat, phys: nat)
      requires Valid() && p !in procs
      modifies this
      ensures Valid() && View() == Spawn(old(View()), p, phys)
    {
      var s := Share(KERNEL_PID, core, 0, phys, 2 * PAGESIZE, false);
      frames := frames + Frames(s);
      var shares := new ProcessShares(p);
      shares.Put(s);
      procs := procs[p := shares];
      assert TablesOf(procs) == old(TablesOf(procs))[p := shares.shares];
    }

    /** Process removal: off the process table first, then the destructor of its shares. */
    method Terminate(p: nat)
      requires Valid() && p in procs
      modifies this, procs.Values
      ensures Valid() && View() == Kill(old(View()), p)
    {
      ghost var w := View();
      var dying := procs[p];
      procs := procs - {p};
      assert dying.View(this).tables == w.tables;
      dying.ReleaseSelected(this, None);
      assert TablesOf(procs) == dying.View(this).tables - {p};
    }

    /** Returns the pages of a block one by one. */
    method ReleaseBlock(s: Share)
      modifies this`frames, this`doubleFree
      ensures frames == old(frames) - Frames(s)
      ensures doubleFree == (old(doubleFree) || !(Frames(s) <= old(frames)))
    {
      var i := 0;
      ghost var done: set<nat> := {};
      while i < s.size
        invariant Frames(s) == done + FramesFrom(s.phys, s.size, i)
        invariant forall f :: f in done ==> f < s.phys + i
        invariant frames == old(frames) - done
        invariant doubleFree == (old(doubleFree) || !(done <= old(frames)))
        decreases s.size - i
      {
        ghost var f := s.phys + i;
        doubleFree := doubleFree || f !in frames;
        frames := frames - {s.phys + i};
        done := done + {f};
        i := i + PAGESIZE;
      }
    }
  }

  ghost function TablesOf(procs: map<nat, ProcessShares>): map<nat, Table>
    reads procs.Values
  {
    map p | p in procs :: procs[p].shares
  }

  class ProcessShares {
    const pid: nat
    var shares: Table

    constructor (pid: nat)
      ensures this.pid == pid && shares == EmptyTable()
    {
      this.pid := pid;
      shares := EmptyTable();
    }

    /** The state as seen from these shares, which may belong to a process that has left the process table. */
    ghost function View(k: Kernel): World
      reads this, k, k.procs.Values
    {
      World(k.core, TablesOf(k.procs)[pid := shares], k.procs.Keys, k.frames, k.doubleFree)
    }

    ghost predicate Valid(k: Kernel)
      reads this, k
    {
      && (forall p :: p in k.procs ==> k.procs[p].pid == p)
      && (pid in k.procs ==> k.procs[pid] == this)
    }

    method FindShare(other: nat, coreId: nat, tagId: nat) returns (i: Option<nat>)
      ensures i == FindFrom(shares, other, coreId, tagId, 0)
    {
      var n := 0;
      while n < |shares|
        invariant 0 <= n <= |shares|
        invariant FindFrom(shares, other, coreId, tagId, n) == FindFrom(shares, other, coreId, tagId, 0)
      {
        if shares[n].Some? {
          var s := shares[n].value;
          if s.pid == other && s.coreId == coreId && s.tagId == tagId {
            return Some(n);
          }
        }
        n := n + 1;
      }
      i := None;
    }

    /** Marks every record for process `other` as detached. */
    method DetachAll(other: nat, coreId: nat)
      modifies this
      ensures shares == MarkDetached(old(shares), other, coreId)
    {
      var n := |shares|;
      for i := 0 to n
        invariant |shares| == n == |old(shares)|
        invariant forall j :: 0 <= j < i ==> shares[j] == MarkDetached(old(shares), other, coreId)[j]
        invariant forall j :: i <= j < n ==> shares[j] == old(shares)[j]
      {
        if shares[i].Some? && shares[i].value.pid == other && shares[i].value.coreId == coreId {
          shares := shares[i := Some(shares[i].value.(attached := false))];
        }
      }
    }

    /** Detaches the other end of slot `i` when that process is still there. */
    method DetachOther(k: Kernel, i: nat)
      requires Valid(k) && i < |shares| && shares[i].Some?
      modifies this, k.procs.Values
      ensures Valid(k) && |shares| == |old(shares)|
      ensures
        var s, w := old(shares[i].value), old(View(k));
        View(k) == if s.pid in w.live && s.pid in w.tables
                   then w.(tables := w.tables[s.pid := MarkDetached(w.tables[s.pid], pid, s.coreId)]) else w
    {
      var s := shares[i].value;
      ghost var w := View(k);
      if s.pid in k.procs {
        var other := k.procs[s.pid];
        other.DetachAll(pid, s.coreId);
        assert View(k).tables == w.tables[s.pid := MarkDetached(w.tables[s.pid], pid, s.coreId)];
      }
    }

    method ReleaseShare(k: Kernel, i: nat)
      requires Valid(k) && i < |shares| && shares[i].Some?
      modifies this, k`frames, k`doubleFree, k.procs.Values
      ensures Valid(k) && |shares| == |old(shares)|
      ensures View(k) == Release(old(View(k)), pid, i)
    {
      hide MarkDetached, FramesFrom;
      var s := shares[i].value;
      if s.attached {
        DetachOther(k, i);
      } else {
        k.ReleaseBlock(s);
      }
      DropSlot(k, i);
    }

    method DropSlot(k: Kernel, i: nat)
      requires Valid(k) && i < |shares|
      modifies this
      ensures Valid(k) && |shares| == |old(shares)|
      ensures var w := old(View(k)); View(k) == w.(tables := w.tables[pid := w.tables[pid][i := None]])
    {
      ghost var w := View(k);
      shares := shares[i := None];
      assert TablesOf(k.procs)[pid := shares] == w.tables[pid := w.tables[pid][i := None]];
    }

    /** removeShares (`only` names a process) and the destructor's loop (`only` is None). */
    method ReleaseSelected(k: Kernel, only: Option<nat>)
      requires Valid(k)
      modifies this, k`frames, k`doubleFree, k.procs.Values
      ensures Valid(k)
      ensures View(k) == ReleaseLoop(old(View(k)), pid, only, |old(shares)|)
    {
      hide Release;
      var n := |shares|;
      for i := 0 to n
        invariant Valid(k) && |shares| == n == |old(shares)|
        invariant View(k) == ReleaseLoop(old(View(k)), pid, only, i)
      {
        var s := shares[i];
        if s.Some? && (only.None? || s.value.pid == only.value) {
          ReleaseShare(k, i);
        }
      }
    }

    method RemoveShares(k: Kernel, other: nat)
      requires Valid(k)
      modifies this, k`frames, k`doubleFree, k.procs.Values
      ensures Valid(k) && View(k) == SharesSpec.RemoveShares(old(View(k)), pid, other)
    {
      ReleaseSelected(k, Some(other));
    }

    /** Index::insert: the first free slot, or nothing when the table is full. */
    method Put(s: Share)
      modifies this
      ensures shares == Insert(old(shares), s)
    {
      var n := 0;
      while n < |shares|
        invariant 0 <= n <= |shares| && shares == old(shares)
        invariant FreeFrom(shares, n) == FreeFrom(shares, 0)
      {
        if shares[n].None? {
          shares := shares[n := Some(s)];
          return;
        }
        n := n + 1;
      }
    }

    /** `env` is what the page allocator and the memory contexts answer. */
    method CreateShare(k: Kernel, instance: ProcessShares, req: Request, env: Env) returns (r: Result)
      requires Valid(k) && pid in k.procs && instance.pid in k.procs && k.procs[instance.pid] == instance
      modifies this, instance, k`frames
      ensures Valid(k)
      ensures (r, View(k)) == Create(old(View(k)), pid, instance.pid, req, env)
    {
      hide Insert, FindFrom, FramesFrom;
      ghost var w := View(k);
      assert w.tables[pid] == shares && w.tables[instance.pid] == instance.shares;
      if req.size == 0 {
        return InvalidArgument;
      }
      var found := FindShare(req.pid, req.coreId, req.tagId);
      if found.Some? {
        return AlreadyExists;
      }
      var remote := instance.FindShare(pid, req.coreId, req.tagId);
      if remote.Some? && remote.value < |instance.shares| && instance.shares[remote.value].Some?
         && !instance.shares[remote.value].value.attached {
        return DetachInProgress;
      }
      if env.phys.None? {
        return OutOfMemory;
      }
      var local := Share(instance.pid, k.core, req.tagId, env.phys.value, req.size, true);
      k.frames := k.frames + Frames(local);
      if !env.mapLocal || !env.mapRemote {
        return OutOfMemory;
      }
      Insert2(k, instance, local, Share(pid, k.core, req.tagId, env.phys.value, req.size, true));
      r := Success;
    }

    /** Records both ends. */
    method Insert2(k: Kernel, instance: ProcessShares, local: Share, remote: Share)
      requires Valid(k) && pid in k.procs && instance.pid in k.procs && k.procs[instance.pid] == instance
      modifies this, instance
      ensures Valid(k)
      ensures
        var w := old(View(k));
        var w1 := w.(tables := w.tables[pid := Insert(w.tables[pid], local)]);
        View(k) == w1.(tables := w1.tables[instance.pid := Insert(w1.tables[instance.pid], remote)])
    {
      hide Insert;
      PutFor(k, this, local);
      PutFor(k, instance, remote);
    }

    /** Records one end, in this process or another. */
    method PutFor(k: Kernel, instance: ProcessShares, s: Share)
      requires Valid(k) && pid in k.procs && instance.pid in k.procs && k.procs[instance.pid] == instance
      modifies instance
      ensures Valid(k)
      ensures
        var w := old(View(k));
        View(k) == w.(tables := w.tables[instance.pid := Insert(w.tables[instance.pid], s)])
    {
      hide Insert;
      ghost var w := View(k);
      instance.Put(s);
      assert View(k).tables == w.tables[instance.pid := Insert(w.tables[instance.pid], s)];
    }
  }
}
