/** Bit maps (lib/libstd/BitArray.cpp): finding and setting a run of clear bits. */
module BitArrays {
  import opened Basics

  /** The first clear bit at or after `start`. */
  function FirstClear(bits: seq<bool>, start: nat): (r: Option<nat>)
    ensures r.Some? ==> start <= r.value < |bits| && !bits[r.value]
    ensures r.Some? ==> forall k :: start <= k < r.value ==> bits[k]
    ensures r.None? ==> forall k :: start <= k < |bits| ==> bits[k]
    decreases |bits| - start
  {
    if start >= |bits| then None
    else if !bits[start] then Some(start)
    else FirstClear(bits, start + 1)
  }

  /** The number of clear bits. */
  function Clear(bits: seq<bool>): (r: nat)
    ensures r <= |bits|
  {
    if bits == [] then 0 else (if bits[0] then 0 else 1) + Clear(bits[1..])
  }

  lemma {:induction false} ClearZero(bits: seq<bool>)
    ensures Clear(bits) == 0 <==> forall k :: 0 <= k < |bits| ==> bits[k]
    ensures Clear(bits) == |bits| <==> forall k :: 0 <= k < |bits| ==> !bits[k]
  {
    if bits != [] {
      ClearZero(bits[1..]);
      assert forall k :: 0 <= k < |bits[1..]| ==> bits[1..][k] == bits[k + 1];
      assert (forall k :: 0 <= k < |bits| ==> bits[k]) <==> bits[0] && forall k :: 0 <= k < |bits[1..]| ==> bits[1..][k];
      assert (forall k :: 0 <= k < |bits| ==> !bits[k]) <==> !bits[0] && forall k :: 0 <= k < |bits[1..]| ==> !bits[1..][k];
    }
  }

  lemma {:induction false} ClearAppend(bits: seq<bool>, value: bool)
    ensures Clear(bits + [value]) == Clear(bits) + (if value then 0 else 1)
  {
    if bits != [] {
      ClearAppend(bits[1..], value);
      assert (bits + [value])[1..] == bits[1..] + [value];
    }
  }

  lemma {:induction false} ClearUpdate(bits: seq<bool>, k: nat, value: bool)
    requires k < |bits|
    ensures Clear(bits[k := value]) == Clear(bits) + (if bits[k] then 1 else 0) - (if value then 1 else 0)
  {
    if k == 0 {
      assert bits[k := value][1..] == bits[1..];
    } else {
      ClearUpdate(bits[1..], k - 1, value);
      assert bits[k := value][1..] == bits[1..][k - 1 := value];
    }
  }

  /** A run of `n` clear bits at `f`, not before `start` and on the boundary. */
  ghost predicate Fit(bits: seq<bool>, start: nat, boundary: nat, n: nat, f: nat)
    requires boundary > 0
  {
    && start <= f && f % boundary == 0 && f + n <= |bits|
    && forall k :: f <= k < f + n ==> !bits[k]
  }

  ghost predicate FirstFit(bits: seq<bool>, start: nat, boundary: nat, n: nat, f: nat)
    requires boundary > 0
  {
    Fit(bits, start, boundary, n, f) && forall g: nat :: g < f ==> !Fit(bits, start, boundary, n, g)
  }

  ghost predicate NoFit(bits: seq<bool>, start: nat, boundary: nat, n: nat)
    requires boundary > 0
  {
    forall f: nat :: !Fit(bits, start, boundary, n, f)
  }

  /** The first run from `start` on, or the first one of all if there is none from `start` on. */
  ghost predicate NextFit(bits: seq<bool>, start: nat, boundary: nat, n: nat, f: nat)
    requires boundary > 0
  {
    || FirstFit(bits, start, boundary, n, f)
    || (NoFit(bits, start, boundary, n) && FirstFit(bits, 0, boundary, n, f))
  }

  lemma NextFitFits(bits: seq<bool>, start: nat, boundary: nat, n: nat, f: nat)
    requires boundary > 0 && NextFit(bits, start, boundary, n, f)
    ensures Fit(bits, 0, boundary, n, f) && !NoFit(bits, 0, boundary, n)
  {
    assert Fit(bits, 0, boundary, n, f);
  }

  /** On an empty bit map the search from the front answers the first bit. */
  lemma FirstOfAll(bits: seq<bool>, f: nat)
    requires bits != [] && (forall k :: 0 <= k < |bits| ==> !bits[k]) && NextFit(bits, 0, 1, 1, f)
    ensures f == 0
  {
    assert Fit(bits, 0, 1, 1, 0);
  }

  /** For a single bit on any boundary the first run is the first clear bit. */
  lemma OneBitFit(bits: seq<bool>, start: nat)
    ensures
      var r := FirstClear(bits, start);
      if r.Some? then FirstFit(bits, start, 1, 1, r.value) else NoFit(bits, start, 1, 1)
  {
    var r := FirstClear(bits, start);
    forall g: nat | r.None? || g < r.value ensures !Fit(bits, start, 1, 1, g) {
      if start <= g && g + 1 <= |bits| {
        assert bits[g];
      }
    }
  }

  /** `bits` with the bits from `lo` up to `hi` set. */
  function Filled(bits: seq<bool>, lo: nat, hi: nat): (r: seq<bool>)
    ensures |r| == |bits|
  {
    seq(|bits|, k requires 0 <= k < |bits| => (lo <= k < hi) || bits[k])
  }

  /** The search of setNext has `found` bits of a run at `from` and has not passed any complete run. */
  ghost predicate InRun(bits: seq<bool>, start: nat, boundary: nat, n: nat, from: nat, found: nat, i: nat)
    requires boundary > 0
  {
    && start <= from && from % boundary == 0 && i == from + found && found < n && i <= |bits|
    && (forall k :: from <= k < i ==> !bits[k])
    && forall f: nat :: f < from ==> !Fit(bits, start, boundary, n, f)
  }

  /** Where the search for `n` bits stands at bit `i`; with `n` zero it only looks for a clear bit. */
  ghost predicate Searching(bits: seq<bool>, start: nat, boundary: nat, n: nat, from: nat, found: nat, i: nat)
    requires boundary > 0
  {
    if n == 0 then
      from == found == 0 && forall k :: start <= k < i && k < |bits| ==> bits[k]
    else if found == 0 then
      from == 0 && forall f: nat :: f < i ==> !Fit(bits, start, boundary, n, f)
    else
      InRun(bits, start, boundary, n, from, found, i)
  }

  /** What the search answers: it sets the bits from `f` up to `last`. */
  ghost predicate Found(bits: seq<bool>, start: nat, boundary: nat, n: nat, f: nat, last: nat)
    requires boundary > 0
  {
    if n == 0 then
      FirstClear(bits, start) == Some(last) && f == if last % boundary == 0 then last else 0
    else
      FirstFit(bits, start, boundary, n, f) && last + 1 == f + n
  }

  ghost predicate NothingFound(bits: seq<bool>, start: nat, boundary: nat, n: nat)
    requires boundary > 0
  {
    if n == 0 then FirstClear(bits, start).None? else NoFit(bits, start, boundary, n)
  }

  lemma SearchStarts(bits: seq<bool>, start: nat, boundary: nat, n: nat)
    requires boundary > 0
    ensures Searching(bits, start, boundary, n, 0, 0, start)
  {
  }

  /** Set bits from `i` up to `next` end an incomplete run: no complete one starts before `next`. */
  lemma SearchSkips(bits: seq<bool>, start: nat, boundary: nat, n: nat, from: nat, found: nat, i: nat, next: nat)
    requires boundary > 0 && Searching(bits, start, boundary, n, from, found, i)
    requires i < next <= |bits| && forall k :: i <= k < next ==> bits[k]
    ensures Searching(bits, start, boundary, n, 0, 0, next)
  {
    if n > 0 {
      forall f: nat | f < next ensures !Fit(bits, start, boundary, n, f) {
        if f >= i {
          assert bits[f];
        } else if found > 0 && f >= from {
          assert bits[i] && f <= i < f + n;
        }
      }
    }
  }

  /** A clear bit starts a run on the boundary or continues one, and may complete it. */
  lemma SearchSteps(bits: seq<bool>, start: nat, boundary: nat, n: nat, from: nat, found: nat, i: nat)
    requires boundary > 0 && Searching(bits, start, boundary, n, from, found, i) && start <= i < |bits| && !bits[i]
    ensures
      var from' := if found == 0 && i % boundary == 0 then i else from;
      var found' := if found > 0 then found + 1 else if i % boundary == 0 then 1 else 0;
      if found' >= n then Found(bits, start, boundary, n, from', i)
      else Searching(bits, start, boundary, n, from', found', i + 1)
  {
  }

  lemma SearchEnds(bits: seq<bool>, start: nat, boundary: nat, n: nat, from: nat, found: nat, i: nat)
    requires boundary > 0 && Searching(bits, start, boundary, n, from, found, i) && i >= |bits|
    ensures NothingFound(bits, start, boundary, n)
  {
  }

  class BitArray {
    const bits: array<bool>
    var ones: int

    ghost predicate Valid()
      reads this, bits
    {
      ones + Clear(bits[..]) == bits.Length
    }

    constructor (bitCount: nat)
      ensures Valid() && fresh(bits) && bits[..] == seq(bitCount, _ => false)
    {
      bits := new bool[bitCount](_ => false);
      ones := 0;
      new;
      ClearZero(bits[..]);
      assert bits[..] == seq(bitCount, _ => false);
    }

    /** BitArray::count(false), kept up to date by `Set`. */
    function Count(): (r: int)
      requires Valid()
      reads this, bits
      ensures r == Clear(bits[..])
    {
      bits.Length - ones
    }

    /** A bit outside the array is ignored. */
    method Set(bit: nat, value: bool)
      requires Valid()
      modifies this`ones, bits
      ensures Valid()
      ensures bits[..] == if bit < bits.Length then old(bits[..])[bit := value] else old(bits[..])
    {
      if bit >= bits.Length {
        return;
      }
      ClearUpdate(bits[..], bit, value);
      var current := bits[bit];
      if current != value {
        if value {
          bits[bit] := true;
          ones := ones + 1;
        } else {
          bits[bit] := false;
          ones := ones - 1;
        }
      }
      assert bits[..] == old(bits[..])[bit := value];
    }

    /** Both ends are included. */
    method SetRange(from: nat, end: nat)
      requires Valid()
      modifies this`ones, bits
      ensures Valid() && bits[..] == Filled(old(bits[..]), from, end + 1)
    {
      var i := from;
      while i <= end
        invariant from <= i && (i <= end + 1 || i == from)
        invariant Valid() && bits[..] == Filled(old(bits[..]), from, i)
        decreases end + 1 - i
      {
        Set(i, true);
        assert bits[..] == Filled(old(bits[..]), from, i + 1);
        i := i + 1;
      }
      assert Filled(old(bits[..]), from, i) == Filled(old(bits[..]), from, end + 1);
    }

    /** Whether the `width` bits of the word that holds bit `i` are all set. */
    predicate WordFull(i: nat, width: nat)
      requires width > 0 && i / width * width + width <= bits.Length
      reads bits
    {
      forall k :: i / width * width <= k < i / width * width + width ==> bits[k]
    }

    /** The start of the next word: the search goes on there when the word of bit `i` is full. */
    method SkipWord(i: nat, width: nat) returns (skip: bool, next: nat)
      requires width > 0
      ensures skip ==> i < next <= bits.Length && forall k :: i <= k < next ==> bits[k]
    {
      skip, next := false, i;
      if bits.Length > width && i < bits.Length - width {
        DivTimes(i, width);
        if WordFull(i, width) {
          assert i == width * (i / width) + i % width;
          skip, next := true, i + (width - i % width);
        }
      }
    }

    /**
     Finds the first run from `start` on that is long enough and on the boundary,
     skipping full words, and sets it. A search for no bits at all is different: it
     stops at the first clear bit and sets everything up to it from bit 0 when that
     bit is not on the boundary.
     */
    method SetNext(count: nat, start: nat, boundary: nat) returns (bit: Option<nat>, ghost last: nat)
      requires Valid() && boundary > 0
      modifies this`ones, bits
      ensures Valid()
      ensures bit.None? ==> bits[..] == old(bits[..]) && NothingFound(old(bits[..]), start, boundary, count)
      ensures bit.Some? ==> bits[..] == Filled(old(bits[..]), bit.value, last + 1)
      ensures bit.Some? ==> Found(old(bits[..]), start, boundary, count, bit.value, last)
    {
      hide Searching, Found, NothingFound, Filled, Clear, WordFull;
      ghost var b := bits[..];
      var from, found, i := 0, 0, start;
      last := 0;
      SearchStarts(b, start, boundary, count);
      while i < bits.Length
        invariant start <= i && bits[..] == b && ones == old(ones)
        invariant Searching(b, start, boundary, count, from, found, i)
        decreases bits.Length - i
      {
        var skip, next := SkipWord(i, 32);
        if !skip {
          skip, next := SkipWord(i, 8);
        }
        if skip {
          SearchSkips(b, start, boundary, count, from, found, i, next);
          from, found, i := 0, 0, next;
          continue;
        }
        if !bits[i] {
          SearchSteps(b, start, boundary, count, from, found, i);
          if found == 0 {
            if i % boundary == 0 {
              from, found := i, 1;
            }
          } else {
            found := found + 1;
          }
          if found >= count {
            last := i;
            SetRange(from, i);
            return Some(from), last;
          }
        } else {
          SearchSkips(b, start, boundary, count, from, found, i, i + 1);
          from, found := 0, 0;
        }
        i := i + 1;
      }
      SearchEnds(b, start, boundary, count, from, found, i);
      return None, last;
    }
  }
}
