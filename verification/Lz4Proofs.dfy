/** The block decoder undoes the encoder, for every well-formed block. */
module Lz4Proofs {
  import opened Basics
  import opened Lz4Format
  import opened Lz4Decode

  /** `x` stands at position `pos` of `data`. */
  predicate Here(data: Bytes, pos: nat, x: Bytes) {
    pos + |x| <= |data| && data[pos..pos + |x|] == x
  }

  lemma HereSplit(data: Bytes, pos: nat, x: Bytes, y: Bytes)
    requires Here(data, pos, x + y)
    ensures Here(data, pos, x) && Here(data, pos + |x|, y)
  {
    assert data[pos..pos + |x|] == (x + y)[..|x|];
    assert data[pos + |x|..pos + |x| + |y|] == (x + y)[|x|..];
  }

  lemma HereAt(data: Bytes, pos: nat, x: Bytes, i: nat)
    requires Here(data, pos, x) && i < |x|
    ensures data[pos + i] == x[i]
  {
    assert data[pos..pos + |x|][i] == x[i];
  }

  // ----------------------------------------------------------------- lengths

  lemma {:induction false} ExtraDecodes(data: Bytes, pos: nat, n: nat, value: nat, count: nat)
    requires Here(data, pos, Extra(n)) && value + n < U32
    ensures DecodeExtra(data, pos, value, count) == Done(Length(value + n, count + |Extra(n)| - 1))
    decreases n
  {
    HereAt(data, pos, Extra(n), 0);
    if n >= 255 {
      HereSplit(data, pos, [255], Extra(n - 255));
      ExtraDecodes(data, pos + 1, n - 255, value + 255, count + 1);
    }
  }

  /** Lengths of any number of continuation bytes decode to themselves. */
  lemma LengthDecodes(data: Bytes, pos: nat, n: nat)
    requires Here(data, pos, LengthBytes(n)) && n < U32
    ensures IntegerDecode(data, pos, Nibble(n)) == Done(Length(n, |LengthBytes(n)|))
  {
    if n >= 15 {
      ExtraDecodes(data, pos, n - 15, 15, 1);
    }
  }

  // ----------------------------------------------------------------- matches

  /** An ascending copy makes each target byte equal its source byte as that stands afterwards. */
  lemma {:induction false} CopyWithinIs(buf: Bytes, dst: nat, off: nat, n: nat)
    requires 1 <= off <= dst && dst + n <= |buf|
    ensures
      var r := CopyWithin(buf, dst, dst - off, n);
      && r[..dst] == buf[..dst] && r[dst + n..] == buf[dst + n..]
      && (forall j :: dst <= j < dst + n ==> r[j] == r[j - off])
    decreases n
  {
    if n > 0 {
      var b := buf[dst := buf[dst - off]];
      CopyWithinIs(b, dst + 1, off, n - 1);
      var r := CopyWithin(buf, dst, dst - off, n);
      assert r[..dst] == r[..dst + 1][..dst] == b[..dst + 1][..dst];
      assert r[dst] == r[..dst + 1][dst] == b[..dst + 1][dst];
      assert r[dst - off] == r[..dst + 1][dst - off] == b[..dst + 1][dst - off];
    }
  }

  lemma ModShift(i: nat, m: nat)
    requires 1 <= m <= i
    ensures (i - m) % m == i % m
  {
    var q := (i - m) / m;
    assert i - m == m * q + (i - m) % m;
    assert m * (q + 1) == m * q + m;
    ModUnique(i, m, q + 1, (i - m) % m);
  }

  lemma {:induction false} OverlapIsPeriodic(r: Bytes, dst: nat, off: nat, n: nat, i: nat)
    requires 1 <= off <= dst && dst + n <= |r| && i < n
    requires forall j :: dst <= j < dst + n ==> r[j] == r[j - off]
    ensures r[dst + i] == r[dst - off + i % off]
    decreases i
  {
    var j := dst + i;
    assert r[j] == r[j - off];
    if i >= off {
      OverlapIsPeriodic(r, dst, off, n, i - off);
      ModShift(i, off);
    } else {
      ModUnique(i, off, 0, i);
    }
  }

  /** The overlapping copy appends exactly the match bytes, also when the match is longer than its offset. */
  lemma CopyIsMatch(buf: Bytes, base: nat, out: Bytes, off: nat, n: nat)
    requires 1 <= off <= |out| && base + |out| + n <= |buf|
    requires buf[base..base + |out|] == out
    ensures
      var dst := base + |out|;
      var r := CopyWithin(buf, dst, dst - off, n);
      && r[base..dst + n] == out + Match(out, off, n)
      && r[..base] == buf[..base] && r[dst + n..] == buf[dst + n..]
  {
    var dst := base + |out|;
    var r := CopyWithin(buf, dst, dst - off, n);
    CopyWithinIs(buf, dst, off, n);
    assert r[..base] == r[..dst][..base] == buf[..dst][..base];
    assert r[base..dst] == r[..dst][base..] == buf[..dst][base..] == out;
    forall i | 0 <= i < n ensures r[dst + i] == Match(out, off, n)[i] {
      OverlapIsPeriodic(r, dst, off, n, i);
      assert r[base..dst][|out| - off + i % off] == r[dst - off + i % off];
    }
    assert r[base..dst + n] == r[base..dst] + r[dst..dst + n];
    assert r[dst..dst + n] == Match(out, off, n);
  }

  // ------------------------------------------------------------------- steps

  /** `p` has produced exactly `out` at `base`, and the bytes outside are those of `buf0`. */
  ghost predicate Produced(buf0: Bytes, base: nat, out: Bytes, p: Progress) {
    && |p.buf| == |buf0| && p.made == |out| && base + |out| <= |buf0|
    && p.buf[base..base + |out|] == out
    && p.buf[..base] == buf0[..base] && p.buf[base + |out|..] == buf0[base + |out|..]
  }

  /** The token, the literal length and the literals of a sequence. */
  function Front(literals: Bytes, low: nat): Bytes
    requires low <= 15
  {
    [Token(Nibble(|literals|), low)] + LengthBytes(|literals|) + literals
  }

  lemma PasteProduced(buf0: Bytes, base: nat, out: Bytes, buf: Bytes, src: Bytes)
    requires |buf| == |buf0| && base + |out| + |src| <= |buf0|
    requires buf[base..base + |out|] == out && buf[..base] == buf0[..base]
    requires buf[base + |out|..] == buf0[base + |out|..]
    ensures
      var r := Paste(buf, base + |out|, src);
      && r[base..base + |out + src|] == out + src
      && r[..base] == buf0[..base] && r[base + |out + src|..] == buf0[base + |out + src|..]
  {
    var at, n := base + |out|, |src|;
    var r := Paste(buf, at, src);
    assert r[base..at + n] == r[base..at] + r[at..at + n];
    assert r[base..at] == buf[base..at];
    assert r[at..at + n] == src;
    assert r[..base] == buf[..base];
    assert r[at + n..] == buf[at + n..] == buf[at..][n..] == buf0[at..][n..];
  }

  lemma LiteralDecodes(data: Bytes, base: nat, p: Progress, buf0: Bytes, out: Bytes, literals: Bytes, low: nat)
    requires low <= 15 && Here(data, p.pos, Front(literals, low)) && |literals| < U32
    requires Produced(buf0, base, out, p) && base + |out| + |literals| <= |buf0|
    ensures data[p.pos] == Token(Nibble(|literals|), low)
    ensures
      var r := LiteralStep(data, base, p);
      && r.Done? && r.value.pos == p.pos + |Front(literals, low)|
      && Produced(buf0, base, out + literals, r.value)
  {
    hide LengthBytes, Token, Nibble, IntegerDecode, Paste;
    var head, len := [Token(Nibble(|literals|), low)], LengthBytes(|literals|);
    assert Front(literals, low) == head + (len + literals);
    HereSplit(data, p.pos, head, len + literals);
    HereSplit(data, p.pos + 1, len, literals);
    HereAt(data, p.pos, head, 0);
    LengthDecodes(data, p.pos + 1, |literals|);
    PasteProduced(buf0, base, out, p.buf, literals);
  }

  lemma MatchDecodes(data: Bytes, token: byte, base: nat, p: Progress, buf0: Bytes, out: Bytes, offset: nat, len: nat)
    requires 1 <= offset <= 65535 && offset <= |out| && 4 <= len < U32
    requires Here(data, p.pos, Le16(offset) + LengthBytes(len - 4))
    requires token as nat % 16 == Nibble(len - 4)
    requires Produced(buf0, base, out, p) && base + |out| + len <= |buf0|
    ensures
      var r := MatchStep(data, token, base, p);
      && r.Done? && r.value.pos == p.pos + 2 + |LengthBytes(len - 4)|
      && Produced(buf0, base, out + Match(out, offset, len), r.value)
  {
    hide LengthBytes, Le16, Nibble, CopyWithin, Produced, Match;
    HereSplit(data, p.pos, Le16(offset), LengthBytes(len - 4));
    OffsetDecodes(data, p.pos, offset);
    LengthDecodes(data, p.pos + 2, len - 4);
    CopyProduces(base, p, buf0, out, offset, len, p.pos + 2 + |LengthBytes(len - 4)|);
  }

  lemma OffsetDecodes(data: Bytes, pos: nat, offset: nat)
    requires offset <= 65535 && Here(data, pos, Le16(offset))
    ensures |Le16(offset)| == 2 && data[pos] as nat + 256 * data[pos + 1] as nat == offset
  {
    HereAt(data, pos, Le16(offset), 0);
    HereAt(data, pos, Le16(offset), 1);
  }

  lemma CopyProduces(base: nat, p: Progress, buf0: Bytes, out: Bytes, offset: nat, len: nat, next: nat)
    requires 1 <= offset <= |out| && Produced(buf0, base, out, p) && base + |out| + len <= |buf0|
    ensures p.made == |out| && |p.buf| == |buf0|
    ensures
      var dst := base + |out|;
      Produced(buf0, base, out + Match(out, offset, len),
               Progress(next, |out| + len, CopyWithin(p.buf, dst, dst - offset, len)))
  {
    var dst := base + |out|;
    CopyIsMatch(p.buf, base, out, offset, len);
    assert buf0[dst..][len..] == buf0[dst + len..];
    assert p.buf[dst..][len..] == p.buf[dst + len..];
  }

  /** From any point between two sequences the decoder produces the rest of the expansion, up to the cut at `size`. */
  lemma {:induction false} DecodeFrom(data: Bytes, end: nat, base: nat, size: nat, p: Progress,
                                      buf0: Bytes, out: Bytes, seqs: seq<Sequence>, last: Last)
    requires ValidFrom(out, seqs) && (last.Last? ==> last.low < 16)
    requires Here(data, p.pos, EncodeFrom(out, seqs, last)) && end == p.pos + |EncodeFrom(out, seqs, last)|
    requires Produced(buf0, base, out, p)
    requires base + |CutFrom(out, seqs, last, size)| <= |buf0|
    requires |ExpandFrom(out, seqs, last)| < U32
    ensures
      var r := Decode(data, end, base, size, p);
      r.Done? && Produced(buf0, base, CutFrom(out, seqs, last, size), r.value)
    decreases |seqs|
  {
    MadeIs(buf0, base, out, p);
    if |out| < size {
      if seqs == [] {
        if last.Last? {
          assert EncodeLast(last) == Front(last.literals, last.low);
          LiteralDecodes(data, base, p, buf0, out, last.literals, last.low);
        } else {
          assert out + [] == out;
        }
      } else {
        DecodeOne(data, end, base, size, p, buf0, out, seqs, last);
      }
    }
  }

  lemma {:induction false} DecodeOne(data: Bytes, end: nat, base: nat, size: nat, p: Progress,
                                     buf0: Bytes, out: Bytes, seqs: seq<Sequence>, last: Last)
    requires seqs != [] && ValidFrom(out, seqs) && (last.Last? ==> last.low < 16) && |out| < size
    requires Here(data, p.pos, EncodeFrom(out, seqs, last)) && end == p.pos + |EncodeFrom(out, seqs, last)|
    requires Produced(buf0, base, out, p)
    requires base + |CutFrom(out, seqs, last, size)| <= |buf0|
    requires |ExpandFrom(out, seqs, last)| < U32
    ensures
      var r := Decode(data, end, base, size, p);
      r.Done? && Produced(buf0, base, CutFrom(out, seqs, last, size), r.value)
    decreases |seqs|, 0
  {
    hide Produced, ExpandFrom, CutFrom, LiteralStep, MatchStep, EncodeFrom, Apply, Front, Token, LengthBytes, Le16;
    var s, rest := seqs[0], EncodeFrom(Apply(out, seqs[0]), seqs[1..], last);
    var low := Nibble(s.matchLen - 4);
    var front, back := Front(s.literals, low), Le16(s.offset) + LengthBytes(s.matchLen - 4);
    ExpandSteps(out, seqs, last);
    CutSteps(out, seqs, last, size);
    MadeIs(buf0, base, out, p);
    EncodeSteps(out, seqs, last);
    HereSplit(data, p.pos, front, back + rest);
    HereSplit(data, p.pos + |front|, back, rest);
    LiteralDecodes(data, base, p, buf0, out, s.literals, low);
    var q := LiteralStep(data, base, p).value;
    MatchDecodes(data, data[p.pos], base, q, buf0, out + s.literals, s.offset, s.matchLen);
    var r := MatchStep(data, data[p.pos], base, q).value;
    assert Decode(data, end, base, size, p) == Decode(data, end, base, size, r);
    DecodeFrom(data, end, base, size, r, buf0, Apply(out, s), seqs[1..], last);
  }

  lemma CutSteps(out: Bytes, seqs: seq<Sequence>, last: Last, size: nat)
    requires seqs != [] && ValidFrom(out, seqs) && |out| < size
    ensures CutFrom(out, seqs, last, size) == CutFrom(Apply(out, seqs[0]), seqs[1..], last, size)
    ensures |out| + |seqs[0].literals| + seqs[0].matchLen <= |CutFrom(out, seqs, last, size)|
  {
    assert Apply(out, seqs[0]) <= CutFrom(Apply(out, seqs[0]), seqs[1..], last, size);
  }

  /** The cut is a prefix of the expansion, all of it when that ends before `size` or at it, and else at least `size` bytes. */
  lemma {:induction false} CutIsPrefix(out: Bytes, seqs: seq<Sequence>, last: Last, size: nat)
    requires ValidFrom(out, seqs)
    ensures CutFrom(out, seqs, last, size) <= ExpandFrom(out, seqs, last)
    ensures |CutFrom(out, seqs, last, size)| < size ==> CutFrom(out, seqs, last, size) == ExpandFrom(out, seqs, last)
    ensures |ExpandFrom(out, seqs, last)| <= size ==> CutFrom(out, seqs, last, size) == ExpandFrom(out, seqs, last)
    decreases |seqs|
  {
    hide Apply;
    if |out| >= size {
      if seqs != [] {
        ExpandSteps(out, seqs, last);
      }
    } else if seqs != [] {
      CutIsPrefix(Apply(out, seqs[0]), seqs[1..], last, size);
    }
  }

  lemma EncodeSteps(out: Bytes, seqs: seq<Sequence>, last: Last)
    requires seqs != [] && ValidFrom(out, seqs) && (last.Last? ==> last.low < 16)
    ensures
      var s := seqs[0];
      && EncodeFrom(out, seqs, last) ==
           Front(s.literals, Nibble(s.matchLen - 4))
           + ((Le16(s.offset) + LengthBytes(s.matchLen - 4)) + EncodeFrom(Apply(out, s), seqs[1..], last))
      && |Front(s.literals, Nibble(s.matchLen - 4))| >= 1 && |Le16(s.offset)| == 2
      && Apply(out, s) == (out + s.literals) + Match(out + s.literals, s.offset, s.matchLen)
  {
    hide Token, LengthBytes, Match, EncodeFrom;
    EncodeUnfold(out, seqs, last);
  }

  lemma EncodeUnfold(out: Bytes, seqs: seq<Sequence>, last: Last)
    requires seqs != [] && ValidFrom(out, seqs) && (last.Last? ==> last.low < 16)
    ensures EncodeFrom(out, seqs, last) == EncodeSequence(seqs[0]) + EncodeFrom(Apply(out, seqs[0]), seqs[1..], last)
  {
  }

  lemma MadeIs(buf0: Bytes, base: nat, out: Bytes, p: Progress)
    requires Produced(buf0, base, out, p)
    ensures p.made == |out|
  {
  }

  /** One sequence of the expansion, and the bounds it implies. */
  lemma ExpandSteps(out: Bytes, seqs: seq<Sequence>, last: Last)
    requires seqs != [] && ValidFrom(out, seqs)
    ensures ExpandFrom(out, seqs, last) == ExpandFrom(Apply(out, seqs[0]), seqs[1..], last)
    ensures |out| + |seqs[0].literals| + seqs[0].matchLen <= |ExpandFrom(out, seqs, last)|
  {
    assert Apply(out, seqs[0]) <= ExpandFrom(Apply(out, seqs[0]), seqs[1..], last);
  }

  /** Decoding with room for `size` bytes asked for writes exactly the cut of the expansion. */
  lemma DecodeCuts(data: Bytes, pos: nat, b: Block, buf: Bytes, base: nat, size: nat)
    requires ValidBlock(b) && Here(data, pos, EncodeBlock(b))
    requires base + |Cut(b, size)| <= |buf| && |Expand(b)| < U32
    ensures
      var r := Decode(data, pos + |EncodeBlock(b)|, base, size, Progress(pos, 0, buf));
      && r.Done? && r.value.made == |Cut(b, size)|
      && r.value.buf == Paste(buf, base, Cut(b, size))
  {
    hide Decode, ExpandFrom, CutFrom, EncodeFrom, ValidFrom;
    var p := Progress(pos, 0, buf);
    var end := pos + |EncodeBlock(b)|;
    assert Produced(buf, base, [], p);
    DecodeFrom(data, end, base, size, p, buf, [], b.seqs, b.last);
    ProducedIsPaste(buf, base, Cut(b, size), Decode(data, end, base, size, p).value);
  }

  /**
   Round trip: decoding the encoding of any well-formed block, wherever it stands
   in the data and whatever follows it, writes exactly its expansion and nothing else.
   */
  lemma DecodeUndoesEncode(data: Bytes, pos: nat, b: Block, buf: Bytes, base: nat, size: nat)
    requires ValidBlock(b) && Here(data, pos, EncodeBlock(b))
    requires |Expand(b)| <= size && base + size <= |buf| && |Expand(b)| < U32
    ensures
      var r := Decode(data, pos + |EncodeBlock(b)|, base, size, Progress(pos, 0, buf));
      && r.Done? && r.value.made == |Expand(b)|
      && r.value.buf == Paste(buf, base, Expand(b))
  {
    hide Decode, ExpandFrom, CutFrom, EncodeFrom, ValidFrom;
    CutIsPrefix([], b.seqs, b.last, size);
    DecodeCuts(data, pos, b, buf, base, size);
  }

  lemma ProducedIsPaste(buf: Bytes, base: nat, out: Bytes, p: Progress)
    requires Produced(buf, base, out, p)
    ensures p.made == |out| && p.buf == Paste(buf, base, out)
  {
    var n := |out|;
    assert p.buf == p.buf[..base] + p.buf[base..base + n] + p.buf[base + n..];
  }

  // -------------------------------------------------------- writes on any input

  lemma {:induction false} CopyWithinFrame(buf: Bytes, dst: nat, src: nat, n: nat)
    requires dst + n <= |buf| && src + n <= |buf|
    ensures
      var r := CopyWithin(buf, dst, src, n);
      r[..dst] == buf[..dst] && r[dst + n..] == buf[dst + n..]
    decreases n
  {
    if n > 0 {
      CopyWithinFrame(buf[dst := buf[src]], dst + 1, src + 1, n - 1);
      var r := CopyWithin(buf, dst, src, n);
      assert r[..dst + 1][..dst] == r[..dst] && buf[dst := buf[src]][..dst + 1][..dst] == buf[..dst];
    }
  }

  /** `q` follows from `p`: more bytes produced, and only those written. */
  ghost predicate OnlyBetween(base: nat, p: Progress, q: Progress) {
    && p.made <= q.made && |q.buf| == |p.buf|
    && forall k :: 0 <= k < |p.buf| && !(base + p.made <= k < base + q.made) ==> q.buf[k] == p.buf[k]
  }

  lemma StepsWriteBetween(data: Bytes, token: byte, base: nat, p: Progress)
    ensures p.pos < |data| && LiteralStep(data, base, p).Done? ==> OnlyBetween(base, p, LiteralStep(data, base, p).value)
    ensures MatchStep(data, token, base, p).Done? ==> OnlyBetween(base, p, MatchStep(data, token, base, p).value)
  {
    hide IntegerDecode, CopyWithin;
    var r := MatchStep(data, token, base, p);
    if r.Done? {
      var n := r.value.made - p.made;
      var off := data[p.pos] as nat + 256 * data[p.pos + 1] as nat;
      var dst := base + p.made;
      CopyWithinFrame(p.buf, dst, dst - off, n);
      forall k | 0 <= k < |p.buf| && !(dst <= k < dst + n) ensures r.value.buf[k] == p.buf[k] {
        if k < dst {
          assert r.value.buf[..dst][k] == p.buf[..dst][k];
        } else {
          assert r.value.buf[dst + n..][k - dst - n] == p.buf[dst + n..][k - dst - n];
        }
      }
    }
  }

  /** Whatever the input, the decoder writes only where it counts. */
  lemma {:induction false} DecodeWritesBetween(data: Bytes, end: nat, base: nat, size: nat, p: Progress)
    ensures
      var r := Decode(data, end, base, size, p);
      r.Done? ==> OnlyBetween(base, p, r.value)
    decreases |data| - p.pos
  {
    hide LiteralStep, MatchStep;
    if p.pos < end && p.made < size && p.pos < |data| {
      StepsWriteBetween(data, data[p.pos], base, p);
      var l := LiteralStep(data, base, p);
      if l.Done? && l.value.pos < end {
        StepsWriteBetween(data, data[p.pos], base, l.value);
        var m := MatchStep(data, data[p.pos], base, l.value);
        if m.Done? {
          DecodeWritesBetween(data, end, base, size, m.value);
        }
      }
    }
  }
}
