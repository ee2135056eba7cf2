/** The Lz4Decompressor class: its loops, proved equal to the decoder specification and undoing the encoder. */
module Lz4Decompressors {
  import opened Basics
  import opened Lz4Format
  import opened Lz4Decode
  import opened Lz4Proofs
  import opened Lz4Frame

  /** MemoryBlock::copy from the input into the output. */
  method CopyIn(dst: array<byte>, at: nat, src: Bytes)
    requires at + |src| <= dst.Length
    modifies dst
    ensures dst[..] == Paste(old(dst[..]), at, src)
  {
    for k := 0 to |src|
      invariant forall i :: 0 <= i < dst.Length ==>
        dst[i] == if at <= i < at + k then src[i - at] else old(dst[i])
    {
      dst[at + k] := src[k];
    }
  }

  /** MemoryBlock::copy inside the output, where source and target may overlap. */
  method CopyOver(dst: array<byte>, to: nat, from: nat, n: nat)
    requires to + n <= dst.Length && from + n <= dst.Length
    modifies dst
    ensures dst[..] == CopyWithin(old(dst[..]), to, from, n)
  {
    var k := 0;
    while k < n
      invariant 0 <= k <= n
      invariant CopyWithin(dst[..], to + k, from + k, n - k) == CopyWithin(old(dst[..]), to, from, n)
    {
      ghost var b := dst[..];
      dst[to + k] := dst[from + k];
      assert dst[..] == b[to + k := b[from + k]];
      k := k + 1;
    }
  }

  class Lz4Decompressor {
    const data: Bytes
    var frameDescSize: nat
    var blockChecksums: bool
    var contentChecksum: bool
    var contentSize: nat
    var blockMaximumSize: nat

    constructor (data: Bytes)
      ensures this.data == data && contentSize == 0 && frameDescSize == 3
    {
      this.data := data;
      frameDescSize, blockChecksums, contentChecksum := 3, false, false;
      contentSize, blockMaximumSize := 0, 0;
    }

    function CurrentHeader(): Header
      reads this
    {
      Header(frameDescSize, blockChecksums, contentChecksum, contentSize, blockMaximumSize)
    }

    /** `InvalidArgument` and `NotSupported` may leave fields half set, as in the source. */
    method Initialize() returns (r: InitResult)
      modifies this
      ensures r == Lz4Frame.Initialize(data, old(contentSize))
      ensures CurrentHeader() == Settled(data, old(CurrentHeader())) && (r.Ready? ==> CurrentHeader() == r.header)
      ensures forall f :: ValidFrame(f) && data == EncodeFrame(f) && old(contentSize) == 0 && |data| >= 27 ==>
        r == Ready(HeaderOf(f))
    {
      forall f | ValidFrame(f) && data == EncodeFrame(f)
        ensures Lz4Frame.Initialize(data, 0) == if |data| < 27 then InvalidArgument else Ready(HeaderOf(f))
      {
        InitializeExactly(f);
      }
      frameDescSize := 3;
      if |data| < 27 {
        return InvalidArgument;
      }
      if ReadLe32(data, 0) != FRAME_MAGIC {
        return InvalidArgument;
      }
      var flg := data[4] as nat;
      if flg / 64 != 1 {
        return InvalidArgument;
      }
      if flg / 32 % 2 == 0 {
        return NotSupported;
      }
      blockChecksums := flg / 16 % 2 == 1;
      if flg / 8 % 2 == 1 {
        contentSize := ReadLe64(data, 6);
        frameDescSize := frameDescSize + 8;
      }
      if contentSize == 0 {
        return NotSupported;
      }
      contentChecksum := flg / 4 % 2 == 1;
      if flg % 2 == 1 {
        frameDescSize := frameDescSize + 4;
      }
      var code := data[5] as nat / 16;
      if code < 4 || code > 7 {
        return InvalidArgument;
      }
      blockMaximumSize := MaxBlock(code);
      r := Ready(CurrentHeader());
    }

    /** `Fault` when the input runs out. */
    method IntegerDecode(initial: nat, pos: nat) returns (r: Result<Length>)
      ensures r == Lz4Decode.IntegerDecode(data, pos, initial)
    {
      if initial < 15 {
        return Done(Length(initial, 0));
      }
      var value: nat, count: nat, next: nat := initial, 1, pos;
      while next < |data|
        invariant DecodeExtra(data, next, value, count) == DecodeExtra(data, pos, initial, 1)
        decreases |data| - next
      {
        var b := data[next];
        value := (value + b as nat) % U32;
        if b < 255 {
          return Done(Length(value, count));
        }
        next := next + 1;
        count := count + 1;
      }
      r := Fault;
    }

    /** The literals of one sequence, in place. */
    method CopyLiterals(output: array<byte>, base: nat, pos: nat, made: nat) returns (r: Result<(nat, nat)>)
      requires pos < |data|
      modifies output
      ensures
        var s := LiteralStep(data, base, Progress(pos, made, old(output[..])));
        match r
        case Fault => s.Fault?
        case Done(x) => s == Done(Progress(x.0, x.1, output[..]))
    {
      var lit := IntegerDecode(data[pos] as nat / 16, pos + 1);
      if lit.Fault? {
        return Fault;
      }
      var from := pos + 1 + lit.value.bytes;
      if from + lit.value.value > |data| || base + made + lit.value.value > output.Length {
        return Fault;
      }
      CopyIn(output, base + made, data[from..from + lit.value.value]);
      r := Done((from + lit.value.value, made + lit.value.value));
    }

    /** The match of one sequence, in place. */
    method CopyMatch(output: array<byte>, token: byte, base: nat, pos: nat, made: nat) returns (r: Result<(nat, nat)>)
      modifies output
      ensures
        var s := MatchStep(data, token, base, Progress(pos, made, old(output[..])));
        match r
        case Fault => s.Fault?
        case Done(x) => s == Done(Progress(x.0, x.1, output[..]))
    {
      if pos + 2 > |data| {
        return Fault;
      }
      var off := data[pos] as nat + 256 * data[pos + 1] as nat;
      if off > made {
        return Fault;
      }
      var len := IntegerDecode(token as nat % 16, pos + 2);
      if len.Fault? {
        return Fault;
      }
      var n := (len.value.value + 4) % U32;
      if base + made + n > output.Length {
        return Fault;
      }
      CopyOver(output, base + made, base + made - off, n);
      r := Done((pos + 2 + len.value.bytes, made + n));
    }

    /** Decompresses the block in data[start..end] to output[base..]; returns the number of bytes made. */
    method Decompress(output: array<byte>, start: nat, end: nat, base: nat, size: nat) returns (r: Result<nat>)
      modifies output
      ensures
        var d := Decode(data, end, base, size, Progress(start, 0, old(output[..])));
        match r
        case Fault => d.Fault?
        case Done(n) => d.Done? && n == d.value.made && output[..] == d.value.buf
    {
      hide LiteralStep, MatchStep;
      var pos: nat, made: nat := start, 0;
      ghost var d := Decode(data, end, base, size, Progress(start, 0, output[..]));
      while pos < end && made < size
        invariant Decode(data, end, base, size, Progress(pos, made, output[..])) == d
        decreases |data| - pos
      {
        if pos >= |data| {
          return Fault;
        }
        var token := data[pos];
        var lit := CopyLiterals(output, base, pos, made);
        if lit.Fault? {
          return Fault;
        }
        if lit.value.0 >= end {
          return Done(lit.value.1);
        }
        var m := CopyMatch(output, token, base, lit.value.0, lit.value.1);
        if m.Fault? {
          return Fault;
        }
        pos, made := m.value.0, m.value.1;
      }
      r := Done(made);
    }

    /**
     Reads blocks until at least `size` bytes are there or the frame ends; the last block
     may go beyond `size`. For the encoding of a frame this yields its contents up to the cut.
     */
    method Read(output: array<byte>, size: nat) returns (ok: bool)
      modifies output
      ensures
        var d := Lz4Frame.Read(data, CurrentHeader(), old(output[..]), size);
        ok == d.Done? && (ok ==> output[..] == d.value)
      ensures forall f |
        ValidFrame(f) && data == EncodeFrame(f) && CurrentHeader() == HeaderOf(f) && size == |Contents(f.items)| ::
        size <= output.Length ==> ok && output[..size] == Contents(f.items)
      ensures forall f |
        ValidFrame(f) && data == EncodeFrame(f) && CurrentHeader() == HeaderOf(f) ::
        |ItemsCut(f.items, size)| <= output.Length ==>
          ok && output[..] == Paste(old(output[..]), 0, ItemsCut(f.items, size))
    {
      hide Decode, Contents, EncodeFrame, HeaderOf, ItemsCut;
      ghost var b0 := output[..];
      forall f | ValidFrame(f) && data == EncodeFrame(f) && CurrentHeader() == HeaderOf(f) && |ItemsCut(f.items, size)| <= output.Length
        ensures Lz4Frame.Read(data, CurrentHeader(), b0, size) == Done(Paste(b0, 0, ItemsCut(f.items, size)))
      {
        ReadCuts(f, b0, size);
      }
      forall f |
        ValidFrame(f) && data == EncodeFrame(f) && CurrentHeader() == HeaderOf(f)
        && size == |Contents(f.items)| && size <= output.Length
        ensures Lz4Frame.Read(data, CurrentHeader(), b0, size) == Done(Paste(b0, 0, Contents(f.items)))
      {
        ReadUndoesEncode(f, b0);
      }
      ok := ReadBlocks(output, size);
    }

    method ReadBlocks(output: array<byte>, size: nat) returns (ok: bool)
      modifies output
      ensures
        var d := Lz4Frame.Read(data, CurrentHeader(), old(output[..]), size);
        ok == d.Done? && (ok ==> output[..] == d.value)
    {
      hide Decode, ReadLe32, Paste;
      var pos: nat, copied: nat := frameDescSize + 4, 0;
      ghost var h := CurrentHeader();
      ghost var d := Lz4Frame.Read(data, h, output[..], size);
      while copied < size && pos < |data|
        invariant CurrentHeader() == h
        invariant ReadLoop(data, h, pos, output[..], copied, size) == d
        decreases |data| - pos
      {
        if pos + 4 > |data| {
          return false;
        }
        var word := ReadLe32(data, pos);
        var n := word % HIGH_BIT;
        if n == 0 {
          break;
        }
        if n > blockMaximumSize {
          return false;
        }
        pos := pos + 4;
        var made := n;
        if word / HIGH_BIT % 2 == 1 {
          if pos + n > |data| || copied + n > output.Length {
            return false;
          }
          CopyIn(output, copied, data[pos..pos + n]);
        } else {
          var m := Decompress(output, pos, pos + n, copied, size - copied);
          if m.Fault? || m.value > blockMaximumSize {
            return false;
          }
          made := m.value;
        }
        copied := copied + made;
        pos := pos + n;
        if blockChecksums {
          pos := pos + 4;
        }
      }
      ok := true;
    }
  }
}
