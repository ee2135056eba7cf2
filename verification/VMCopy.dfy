/** The page-by-page copy between two address spaces of kernel/API/VMCopy.cpp refines a flat byte copy. */
module VMCopy {
  import opened Basics

  datatype Operation = Read | Write | ReadPhys | Other

  /** `Faulted` is a fault of the kernel's own access to the caller's buffer. */
  datatype Status = Success | AccessViolation | Faulted

  /** A page table: virtual page number to physical frame address. */
  type PageTable = map<nat, nat>

  /** The frame behind a remote address, if any; for ReadPhys the address is physical already. */
  function FrameOf(how: Operation, remote: PageTable, va: nat): Option<nat> {
    if how == ReadPhys then Some(va / PAGESIZE * PAGESIZE)
    else if va / PAGESIZE in remote then Some(remote[va / PAGESIZE])
    else None
  }

  /** The address has a frame other than frame zero. */
  predicate Good(how: Operation, remote: PageTable, va: nat) {
    FrameOf(how, remote, va).Some? && FrameOf(how, remote, va).value != 0
  }

  function RemoteByte(how: Operation, remote: PageTable, va: nat): nat
    requires Good(how, remote, va)
  {
    FrameOf(how, remote, va).value + va % PAGESIZE
  }

  predicate Mapped(local: PageTable, va: nat) {
    va / PAGESIZE in local
  }

  function LocalByte(local: PageTable, va: nat): nat
    requires Mapped(local, va)
  {
    local[va / PAGESIZE] + va % PAGESIZE
  }

  /** One call: who copies what where. */
  datatype Job = Job(how: Operation, local: PageTable, remote: PageTable, ours: nat, theirs: nat, size: nat) {

    predicate GoodAt(k: nat) {
      Good(how, remote, theirs + k)
    }

    predicate MappedAt(k: nat) {
      Mapped(local, ours + k)
    }

    function Theirs(k: nat): nat
      requires GoodAt(k)
    {
      RemoteByte(how, remote, theirs + k)
    }

    function Ours(k: nat): nat
      requires MappedAt(k)
    {
      LocalByte(local, ours + k)
    }

    /** Byte `k` can move: its remote address is good, and the caller's is mapped if it is accessed at all. */
    predicate Moves(k: nat) {
      GoodAt(k) && (how == Other || MappedAt(k))
    }

    /** What is mapped of both buffers is in memory. */
    ghost predicate InMemory(memSize: nat) {
      && (forall k: nat :: k < size && MappedAt(k) ==> Ours(k) < memSize)
      && (forall k: nat :: k < size && GoodAt(k) ==> Theirs(k) < memSize)
    }

    /** Byte `k` moves. */
    ghost function MoveByte(mem: seq<byte>, k: nat): (r: seq<byte>)
      requires InMemory(|mem|) && k < size && Moves(k)
      ensures |r| == |mem|
    {
      match how
      case Write => mem[Theirs(k) := mem[Ours(k)]]
      case Other => mem
      case _ => mem[Ours(k) := mem[Theirs(k)]]
    }

    /** The flat copy: the first `n` bytes move one after the other, whatever overlaps whatever. */
    ghost function Flat(mem: seq<byte>, n: nat): (r: seq<byte>)
      requires InMemory(|mem|) && n <= size && forall k: nat :: k < n ==> Moves(k)
      ensures |r| == |mem|
    {
      if n == 0 then mem else MoveByte(Flat(mem, n - 1), n - 1)
    }

    /** Moreover, the caller's buffer is mapped, the buffers share no byte, and the target maps no byte twice. */
    ghost predicate Valid(memSize: nat) {
      && InMemory(memSize)
      && (forall k: nat :: k < size ==> MappedAt(k))
      && (forall i: nat, j: nat :: i < size && j < size && GoodAt(j) ==> Ours(i) != Theirs(j))
      && (how != Write ==> forall i: nat, j: nat :: i < j < size ==> Ours(i) != Ours(j))
      && (how == Write ==> forall i: nat, j: nat :: i < j < size && GoodAt(i) && GoodAt(j) ==> Theirs(i) != Theirs(j))
    }

    /** Whether byte `a` of memory is written by the first `n` bytes of the job. */
    ghost predicate Target(a: nat, n: nat)
      requires n <= size
      requires forall k: nat :: k < size ==> MappedAt(k)
      requires forall k: nat :: k < n ==> GoodAt(k)
    {
      match how
      case Write => exists k: nat :: k < n && Theirs(k) == a
      case Other => false
      case _ => exists k: nat :: k < n && Ours(k) == a
    }

    /** The first `n` bytes have moved and nothing else has changed. */
    ghost predicate Moved(before: seq<byte>, after: seq<byte>, n: nat)
      requires |before| == |after| && Valid(|before|) && n <= size
      requires forall k: nat :: k < n ==> GoodAt(k)
    {
      && (forall k: nat :: k < n ==>
            match how
            case Write => after[Theirs(k)] == before[Ours(k)]
            case Other => true
            case _ => after[Ours(k)] == before[Theirs(k)])
      && (forall a: nat :: a < |before| && !Target(a, n) ==> after[a] == before[a])
    }
  }

  /** For ReadPhys byte `k` is the one at physical address `theirs + k`, which is good exactly behind page zero. */
  lemma PhysicalByte(job: Job, k: nat)
    requires job.how == ReadPhys
    ensures job.GoodAt(k) <==> job.theirs + k >= PAGESIZE
    ensures job.GoodAt(k) ==> job.Theirs(k) == job.theirs + k
  {
    var va := job.theirs + k;
    DivTimes(va, PAGESIZE);
    assert va == PAGESIZE * (va / PAGESIZE) + va % PAGESIZE;
  }

  /** For Read and Write it is the byte at the same offset of the frame that the remote page is mapped to. */
  lemma RemoteByteIs(job: Job, k: nat, page: nat, offset: nat)
    requires job.how == Read || job.how == Write
    requires offset < PAGESIZE && job.theirs + k == page * PAGESIZE + offset
    ensures job.GoodAt(k) <==> page in job.remote && job.remote[page] != 0
    ensures job.GoodAt(k) ==> job.Theirs(k) == job.remote[page] + offset
  {
    ModUnique(job.theirs + k, PAGESIZE, page, offset);
  }

  /** The caller's byte likewise. */
  lemma LocalByteIs(job: Job, k: nat, page: nat, offset: nat)
    requires offset < PAGESIZE && job.ours + k == page * PAGESIZE + offset
    ensures job.MappedAt(k) <==> page in job.local
    ensures job.MappedAt(k) ==> job.Ours(k) == job.local[page] + offset
  {
    ModUnique(job.ours + k, PAGESIZE, page, offset);
  }

  /** Within one page the remote frame and the offset advance together. */
  lemma SamePage(va: nat, j: nat)
    requires va % PAGESIZE + j < PAGESIZE
    ensures (va + j) / PAGESIZE == va / PAGESIZE && (va + j) % PAGESIZE == va % PAGESIZE + j
  {
  }

  lemma OneMore(job: Job, before: seq<byte>, mid: seq<byte>, n: nat)
    requires |before| == |mid| && job.Valid(|before|) && n < job.size
    requires forall k: nat :: k < n + 1 ==> job.GoodAt(k) && job.Moves(k)
    requires job.Moved(before, mid, n)
    ensures job.Moved(before, job.MoveByte(mid, n), n + 1)
  {
    assert job.GoodAt(n);
    var after := job.MoveByte(mid, n);
    match job.how
    case Write =>
      assert !job.Target(job.Ours(n), n);
      forall a: nat | a < |before| && !job.Target(a, n + 1) ensures after[a] == before[a] {
        assert a != job.Theirs(n);
        assert !job.Target(a, n);
      }
    case Other =>
    case _ =>
      assert !job.Target(job.Theirs(n), n);
      forall a: nat | a < |before| && !job.Target(a, n + 1) ensures after[a] == before[a] {
        assert a != job.Ours(n);
        assert !job.Target(a, n);
      }
  }

  /** Between buffers that share no byte the flat copy puts every byte in its place and changes nothing else. */
  lemma {:induction false} FlatMoves(job: Job, before: seq<byte>, n: nat)
    requires job.Valid(|before|) && n <= job.size && forall k: nat :: k < n ==> job.GoodAt(k) && job.Moves(k)
    ensures job.Moved(before, job.Flat(before, n), n)
  {
    hide Job.InMemory, Job.Moved, Job.Target, Job.MoveByte, Job.GoodAt, Job.Ours, Job.Theirs;
    if n > 0 {
      FlatMoves(job, before, n - 1);
      OneMore(job, before, job.Flat(before, n - 1), n - 1);
    } else {
      NothingMoved(job, before);
    }
  }

  lemma NothingMoved(job: Job, m: seq<byte>)
    requires job.Valid(|m|)
    ensures job.Moved(m, m, 0)
  {
  }

  /** Copies up to `bytes` bytes that lie within one remote page, through its frame at `paddr`. */
  method CopyPage(mem: array<byte>, job: Job, paddr: nat, total: nat, bytes: nat, ghost before: seq<byte>) returns (done: nat)
    requires |before| == mem.Length && job.InMemory(mem.Length) && total + bytes <= job.size
    requires forall k: nat :: k < total ==> job.Moves(k)
    requires mem[..] == job.Flat(before, total)
    requires (job.theirs + total) % PAGESIZE + bytes <= PAGESIZE
    requires FrameOf(job.how, job.remote, job.theirs + total) == Some(paddr) && paddr != 0
    modifies mem
    ensures done <= bytes && forall k: nat :: k < total + done ==> job.Moves(k)
    ensures done < bytes ==> job.GoodAt(total + done) && !job.Moves(total + done)
    ensures mem[..] == job.Flat(before, total + done)
  {
    hide Job.Flat, Job.MoveByte, Job.InMemory, Job.GoodAt, Job.MappedAt, Job.Ours, Job.Theirs, FrameOf;
    var pageOff := (job.theirs + total) % PAGESIZE;
    done := 0;
    while done < bytes
      invariant done <= bytes && forall k: nat :: k < total + done ==> job.Moves(k)
      invariant mem[..] == job.Flat(before, total + done)
    {
      ByteAddresses(job, mem.Length, paddr, total, done);
      var mine := job.ours + (total + done);
      if job.how != Other {
        if mine / PAGESIZE !in job.local {
          return;
        }
        CopyByte(mem, job, LocalByte(job.local, mine), paddr + pageOff + done, total + done);
      }
      FlatNext(job, before, total + done);
      done := done + 1;
    }
  }

  /** Where byte `j` of a page lies on both sides. */
  lemma ByteAddresses(job: Job, memSize: nat, paddr: nat, total: nat, j: nat)
    requires job.InMemory(memSize) && total + j < job.size && (job.theirs + total) % PAGESIZE + j < PAGESIZE
    requires FrameOf(job.how, job.remote, job.theirs + total) == Some(paddr) && paddr != 0
    ensures job.GoodAt(total + j) && (job.MappedAt(total + j) <==> (job.ours + (total + j)) / PAGESIZE in job.local)
    ensures job.Theirs(total + j) == paddr + (job.theirs + total) % PAGESIZE + j < memSize
    ensures job.MappedAt(total + j) ==>
      Mapped(job.local, job.ours + (total + j)) && job.Ours(total + j) == LocalByte(job.local, job.ours + (total + j)) < memSize
  {
    SamePage(job.theirs + total, j);
    assert job.theirs + total + j == job.theirs + (total + j);
    assert job.MappedAt(total + j) <==> Mapped(job.local, job.ours + (total + j));
  }

  lemma FlatNext(job: Job, mem: seq<byte>, n: nat)
    requires job.InMemory(|mem|) && n < job.size && forall k: nat :: k < n + 1 ==> job.Moves(k)
    ensures job.how == Other ==> job.Flat(mem, n + 1) == job.Flat(mem, n)
    ensures job.Flat(mem, n + 1) == job.MoveByte(job.Flat(mem, n), n)
  {
  }

  /** One byte of the copy, in the direction of the job. */
  method CopyByte(mem: array<byte>, job: Job, mine: nat, theirs: nat, ghost k: nat)
    requires job.InMemory(mem.Length) && k < job.size && job.GoodAt(k) && job.MappedAt(k)
    requires mine == job.Ours(k) < mem.Length && theirs == job.Theirs(k) < mem.Length
    modifies mem
    ensures job.Moves(k) && mem[..] == job.MoveByte(old(mem[..]), k)
  {
    hide Job.InMemory, Job.GoodAt, Job.MappedAt, Job.Ours, Job.Theirs;
    match job.how {
      case Write => mem[theirs] := mem[mine];
      case Other =>
      case _ => mem[mine] := mem[theirs];
    }
  }

  /**
   The page-by-page loop is the flat copy of exactly the bytes in front of the first
   one that cannot move (`moved` of them), for any starting offset and length. It ends
   there silently with Success at a frame zero, with AccessViolation at a missing remote
   mapping, and with a fault at a missing mapping of the caller.
   */
  method VMCopyHandler(mem: array<byte>, job: Job) returns (status: Status, ghost moved: nat)
    requires job.InMemory(mem.Length)
    modifies mem
    ensures moved <= job.size && (forall k: nat :: k < moved ==> job.Moves(k) && job.GoodAt(k))
    ensures moved < job.size ==> !job.Moves(moved)
    ensures moved == job.size <==> forall k: nat :: k < job.size ==> job.Moves(k)
    ensures mem[..] == job.Flat(old(mem[..]), moved)
    ensures job.Valid(mem.Length) ==> job.Moved(old(mem[..]), mem[..], moved)
    ensures status == AccessViolation <==>
      moved < job.size && FrameOf(job.how, job.remote, job.theirs + moved).None?
    ensures status == Faulted <==> moved < job.size && job.GoodAt(moved)
  {
    hide Job.Moved, Job.Target, Job.Flat;
    ghost var before := mem[..];
    var total: nat := 0;
    FlatNothing(job, before);
    while total < job.size
      invariant total <= job.size && forall k: nat :: k < total ==> job.Moves(k) && job.GoodAt(k)
      invariant mem[..] == job.Flat(before, total)
    {
      var theirAddr := job.theirs + total;
      var paddr;
      if job.how == ReadPhys {
        paddr := theirAddr / PAGESIZE * PAGESIZE;
      } else if theirAddr / PAGESIZE in job.remote {
        paddr := job.remote[theirAddr / PAGESIZE];
      } else {
        assert !job.GoodAt(total);
        FlatMovesIf(job, before, total);
        return AccessViolation, total;
      }
      var pageOff := theirAddr % PAGESIZE;
      var bytes := if PAGESIZE - pageOff < job.size - total then PAGESIZE - pageOff else job.size - total;
      if paddr == 0 {
        assert !job.GoodAt(total);
        FlatMovesIf(job, before, total);
        return Success, total;
      }
      var done := CopyPage(mem, job, paddr, total, bytes, before);
      total := total + done;
      if done < bytes {
        FlatMovesIf(job, before, total);
        return Faulted, total;
      }
    }
    FlatMovesIf(job, before, total);
    return Success, total;
  }

  lemma FlatNothing(job: Job, mem: seq<byte>)
    requires job.InMemory(|mem|)
    ensures job.Flat(mem, 0) == mem
  {
  }

  lemma FlatMovesIf(job: Job, before: seq<byte>, n: nat)
    requires job.InMemory(|before|) && n <= job.size && forall k: nat :: k < n ==> job.Moves(k) && job.GoodAt(k)
    ensures job.Valid(|before|) ==> job.Moved(before, job.Flat(before, n), n)
  {
    if job.Valid(|before|) {
      FlatMoves(job, before, n);
    }
  }

  /** Reading back what was just written changes nothing: the two directions agree on every address. */
  lemma ReadBack(job: Job, before: seq<byte>)
    requires job.how == Write && job.Valid(|before|) && job.(how := Read).Valid(|before|)
    requires forall k: nat :: k < job.size ==> job.GoodAt(k) && job.(how := Read).GoodAt(k)
    ensures
      var written := job.Flat(before, job.size);
      job.(how := Read).Flat(written, job.size) == written
  {
    hide Job.Moved, Job.InMemory, Job.Flat, Job.Ours, Job.Theirs, Job.GoodAt, Job.MappedAt;
    var back := job.(how := Read);
    FlatMoves(job, before, job.size);
    var written := job.Flat(before, job.size);
    FlatMoves(back, written, job.size);
    var after := back.Flat(written, job.size);
    forall a: nat | a < |after| ensures after[a] == written[a] {
      ReadBackByte(job, before, written, after, a);
    }
  }

  lemma ReadBackByte(job: Job, before: seq<byte>, written: seq<byte>, after: seq<byte>, a: nat)
    requires job.how == Write && |before| == |written| == |after| && a < |after|
    requires job.Valid(|before|) && job.(how := Read).Valid(|before|)
    requires forall k: nat :: k < job.size ==> job.GoodAt(k) && job.(how := Read).GoodAt(k)
    requires job.Moved(before, written, job.size)
    requires job.(how := Read).Moved(written, after, job.size)
    ensures after[a] == written[a]
  {
    hide Mapped, Good, LocalByte, RemoteByte;
    var back := job.(how := Read);
    if back.Target(a, job.size) {
      var k: nat :| k < job.size && back.Ours(k) == a;
      SameAddresses(job, k);
      assert after[back.Ours(k)] == written[back.Theirs(k)];
      assert written[job.Theirs(k)] == before[job.Ours(k)];
      assert !job.Target(a, job.size);
    }
  }

  /** Both directions use the same addresses. */
  lemma SameAddresses(job: Job, k: nat)
    requires job.how == Write && job.GoodAt(k) && job.MappedAt(k)
    ensures var back := job.(how := Read); back.GoodAt(k) && back.MappedAt(k)
    ensures var back := job.(how := Read); back.Theirs(k) == job.Theirs(k) && back.Ours(k) == job.Ours(k)
  {
  }
}
