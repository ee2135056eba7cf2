/** The LZ4 block format, after the LZ4 Block Format Description ("Compressed block format"): an encoder and its meaning. */
module Lz4Format {
  import opened Basics

  type Bytes = seq<byte>

  /** Literals followed by a copy of `matchLen` bytes from `offset` bytes back. */
  datatype Sequence = Sequence(literals: Bytes, offset: nat, matchLen: nat)

  /** The closing sequence, which holds literals only; a decoder ignores the low half of its token. */
  datatype Last = NoLast | Last(literals: Bytes, low: nat)

  datatype Block = Block(seqs: seq<Sequence>, last: Last)

  // ----------------------------------------------------------------- meaning

  /** The bytes a match yields: the last `offset` bytes of `out`, repeated as often as needed. */
  function Match(out: Bytes, offset: nat, len: nat): (r: Bytes)
    requires 1 <= offset <= |out|
    ensures |r| == len
  {
    seq(len, i requires 0 <= i < len => out[|out| - offset + i % offset])
  }

  predicate ValidSequence(out: Bytes, s: Sequence) {
    && 1 <= s.offset <= 65535 && s.offset <= |out| + |s.literals|
    && s.matchLen >= 4
  }

  function Apply(out: Bytes, s: Sequence): Bytes
    requires ValidSequence(out, s)
  {
    out + s.literals + Match(out + s.literals, s.offset, s.matchLen)
  }

  /** Every match of `seqs` reaches back into bytes that are there, starting after `out`. */
  predicate ValidFrom(out: Bytes, seqs: seq<Sequence>)
    decreases |seqs|
  {
    seqs == [] || (ValidSequence(out, seqs[0]) && ValidFrom(Apply(out, seqs[0]), seqs[1..]))
  }

  function ExpandFrom(out: Bytes, seqs: seq<Sequence>, last: Last): (r: Bytes)
    requires ValidFrom(out, seqs)
    ensures out <= r
    decreases |seqs|
  {
    if seqs == [] then out + (if last.Last? then last.literals else [])
    else ExpandFrom(Apply(out, seqs[0]), seqs[1..], last)
  }

  /** The expansion cut behind the first sequence with which it reaches `size` bytes. */
  function CutFrom(out: Bytes, seqs: seq<Sequence>, last: Last, size: nat): (r: Bytes)
    requires ValidFrom(out, seqs)
    ensures out <= r
    decreases |seqs|
  {
    if |out| >= size then out
    else if seqs == [] then out + (if last.Last? then last.literals else [])
    else CutFrom(Apply(out, seqs[0]), seqs[1..], last, size)
  }

  predicate ValidBlock(b: Block) {
    ValidFrom([], b.seqs) && (b.last.Last? ==> b.last.low < 16)
  }

  function Expand(b: Block): Bytes
    requires ValidBlock(b)
  {
    ExpandFrom([], b.seqs, b.last)
  }

  function Cut(b: Block, size: nat): Bytes
    requires ValidBlock(b)
  {
    CutFrom([], b.seqs, b.last, size)
  }

  // ---------------------------------------------------------------- encoding

  /** The continuation bytes of a length: 255 as long as it lasts, then the rest. */
  function Extra(n: nat): (r: Bytes)
    ensures |r| >= 1
  {
    if n < 255 then [n as byte] else [255] + Extra(n - 255)
  }

  /** The bytes that follow a token half for length `n`. */
  function LengthBytes(n: nat): Bytes {
    if n < 15 then [] else Extra(n - 15)
  }

  function Nibble(n: nat): (r: nat)
    ensures r <= 15
  {
    if n < 15 then n else 15
  }

  function Token(high: nat, low: nat): (r: byte)
    requires high <= 15 && low <= 15
    ensures r as int / 16 == high && r as int % 16 == low
  {
    (high * 16 + low) as byte
  }

  function Le16(n: nat): Bytes
    requires n < 0x1_0000
  {
    [(n % 256) as byte, (n / 256) as byte]
  }

  function EncodeSequence(s: Sequence): (r: Bytes)
    requires s.offset <= 65535 && s.matchLen >= 4
    ensures |r| >= 1
  {
    [Token(Nibble(|s.literals|), Nibble(s.matchLen - 4))]
    + LengthBytes(|s.literals|) + s.literals + Le16(s.offset) + LengthBytes(s.matchLen - 4)
  }

  function EncodeLast(last: Last): Bytes
    requires last.Last? ==> last.low < 16
  {
    if last.NoLast? then []
    else [Token(Nibble(|last.literals|), last.low)] + LengthBytes(|last.literals|) + last.literals
  }

  function EncodeFrom(out: Bytes, seqs: seq<Sequence>, last: Last): Bytes
    requires ValidFrom(out, seqs) && (last.Last? ==> last.low < 16)
    decreases |seqs|
  {
    if seqs == [] then EncodeLast(last)
    else EncodeSequence(seqs[0]) + EncodeFrom(Apply(out, seqs[0]), seqs[1..], last)
  }

  function EncodeBlock(b: Block): Bytes
    requires ValidBlock(b)
  {
    EncodeFrom([], b.seqs, b.last)
  }
}

/** What Lz4Decompressor::decompress does, as a function on the input bytes and the whole output buffer. */
module Lz4Decode {
  import opened Basics
  import opened Lz4Format

  const U32: nat := 0x1_0000_0000

  /**
   `Fault` stands for an access outside the input data or the output buffer,
   and for a failed assertion; the source checks none of the former.
   */
  datatype Result<T> = Fault | Done(value: T)

  /** A decoded length and the number of continuation bytes it took. */
  datatype Length = Length(value: nat, bytes: nat)

  /** The loop of integerDecode at position `pos` with the value so far; 32-bit arithmetic. */
  function DecodeExtra(data: Bytes, pos: nat, value: nat, count: nat): Result<Length>
    decreases |data| - pos
  {
    if pos >= |data| then Fault
    else
      var v := (value + data[pos] as nat) % U32;
      if data[pos] < 255 then Done(Length(v, count)) else DecodeExtra(data, pos + 1, v, count + 1)
  }

  function IntegerDecode(data: Bytes, pos: nat, initial: nat): Result<Length> {
    if initial < 15 then Done(Length(initial, 0)) else DecodeExtra(data, pos, initial, 1)
  }

  /** Ascending byte-by-byte copy from the input into the buffer. */
  function Paste(buf: Bytes, at: nat, src: Bytes): (r: Bytes)
    requires at + |src| <= |buf|
    ensures |r| == |buf|
  {
    buf[..at] + src + buf[at + |src|..]
  }

  /** Ascending byte-by-byte copy inside the buffer, source and target possibly overlapping. */
  function CopyWithin(buf: Bytes, dst: nat, src: nat, n: nat): (r: Bytes)
    requires dst + n <= |buf| && src + n <= |buf|
    ensures |r| == |buf|
    decreases n
  {
    if n == 0 then buf else CopyWithin(buf[dst := buf[src]], dst + 1, src + 1, n - 1)
  }

  /** Progress inside a block: input position, bytes produced, buffer. */
  datatype Progress = Progress(pos: nat, made: nat, buf: Bytes)

  /** After the literals of one sequence; `token` decides the match that follows. */
  function LiteralStep(data: Bytes, base: nat, p: Progress): (r: Result<Progress>)
    requires p.pos < |data|
    ensures r.Done? ==> p.pos < r.value.pos && |r.value.buf| == |p.buf|
  {
    match IntegerDecode(data, p.pos + 1, data[p.pos] as nat / 16)
    case Fault => Fault
    case Done(lit) =>
      var from := p.pos + 1 + lit.bytes;
      if from + lit.value > |data| || base + p.made + lit.value > |p.buf| then Fault
      else
        Done(Progress(from + lit.value, p.made + lit.value,
                      Paste(p.buf, base + p.made, data[from..from + lit.value])))
  }

  function MatchStep(data: Bytes, token: byte, base: nat, p: Progress): (r: Result<Progress>)
    ensures r.Done? ==> p.pos < r.value.pos && |r.value.buf| == |p.buf|
  {
    if p.pos + 2 > |data| then Fault
    else
      var off := data[p.pos] as nat + 256 * data[p.pos + 1] as nat;
      if off > p.made then Fault
      else
        match IntegerDecode(data, p.pos + 2, token as nat % 16)
        case Fault => Fault
        case Done(len) =>
          var n := (len.value + 4) % U32;
          if base + p.made + n > |p.buf| then Fault
          else
            Done(Progress(p.pos + 2 + len.bytes, p.made + n,
                          CopyWithin(p.buf, base + p.made, base + p.made - off, n)))
  }

  /** The loop of decompress from `p` on, over a block that ends at `end`. */
  function Decode(data: Bytes, end: nat, base: nat, size: nat, p: Progress): (r: Result<Progress>)
    ensures r.Done? ==> |r.value.buf| == |p.buf|
    decreases |data| - p.pos
  {
    if p.pos >= end || p.made >= size then Done(p)
    else if p.pos >= |data| then Fault
    else
      match LiteralStep(data, base, p)
      case Fault => Fault
      case Done(q) =>
        if q.pos >= end then Done(q)
        else
          match MatchStep(data, data[p.pos], base, q)
          case Fault => Fault
          case Done(r) => Decode(data, end, base, size, r)
  }
}
