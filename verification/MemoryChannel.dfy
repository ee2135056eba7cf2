/** The MemoryChannel class of lib/libipc, each call proved to be an uninterrupted run of the ring machine. */
module MemoryChannels {
  import opened Basics
  import opened Ring

  datatype Mode = Producer | Consumer

  datatype Result = Success | ChannelFull | NotFound

  /** A shared page: the ring head word at its start and the bytes behind it. */
  class Page {
    var head: nat
    var bytes: array<byte>

    constructor ()
      ensures head == 0 && fresh(bytes) && bytes[..] == Init().data
    {
      head := 0;
      bytes := new byte[PAGESIZE](_ => 0);
      new;
      assert bytes[..] == Init().data;
    }
  }

  /** MemoryBlock::copy into a buffer: ascending, byte by byte. */
  method CopyInto(dst: array<byte>, offset: nat, src: seq<byte>)
    requires offset + |src| <= dst.Length
    modifies dst
    ensures dst[..] == Blit(old(dst[..]), offset, src)
  {
    for k := 0 to |src|
      invariant forall i :: 0 <= i < dst.Length ==>
        dst[i] == if offset <= i < offset + k then src[i - offset] else old(dst[i])
    {
      dst[offset + k] := src[k];
    }
  }

  class MemoryChannel {
    const mode: Mode
    const config: Config
    const maximumMessages: nat
    var head: nat
    var data: Page
    var feedback: Page

    /** `data` and `feedback` become the channel's pages, as in setVirtual. */
    constructor (mode: Mode, config: Config, data: Page, feedback: Page)
      requires config.Valid()
      ensures this.mode == mode && this.config == config && maximumMessages == config.Max()
      ensures this.data == data && this.feedback == feedback && head == 0
    {
      this.mode := mode;
      this.config := config;
      this.maximumMessages := PAGESIZE / config.messageSize - 1;
      this.data := data;
      this.feedback := feedback;
      this.head := 0;
    }

    ghost predicate Valid()
      reads this, data, feedback
    {
      && config.Valid() && maximumMessages == config.Max()
      && data != feedback && data.bytes != feedback.bytes
      && data.bytes.Length == PAGESIZE
    }

    /** The pages and this endpoint's head are those of ring state `s`, with this endpoint between calls. */
    ghost predicate Endpoint(s: State)
      requires Valid()
      reads this, data, feedback, data.bytes
    {
      && Ring.Inv(config, s)
      && data.bytes[..] == s.data && data.head == s.dataHead && feedback.head == s.feedHead
      && (mode.Producer? ==> s.writer.WIdle? && head == s.whead)
      && (mode.Consumer? ==> s.reader.RIdle? && head == s.rhead)
    }

    /** A hard reset forgets; a soft reset is the restart step of this endpoint. */
    method Reset(hardReset: bool, ghost s: State)
      requires Valid() && Ring.Inv(config, s)
      requires data.bytes[..] == s.data && data.head == s.dataHead && feedback.head == s.feedHead
      modifies this`head
      ensures Valid()
      ensures hardReset ==> head == 0
      ensures !hardReset ==>
        Endpoint(Step(config, s, if mode.Producer? then RestartWriter else RestartReader))
    {
      StepInv(config, s, if mode.Producer? then RestartWriter else RestartReader);
      if hardReset {
        head := 0;
      } else if mode.Producer? {
        head := data.head;
      } else {
        head := feedback.head;
      }
    }

    method Read(ghost s: State) returns (r: Result, buffer: Msg)
      requires Valid() && mode.Consumer? && Endpoint(s)
      modifies this`head, feedback`head
      ensures Valid() && Endpoint(Run(config, s, ReadCall(config)))
      ensures r == NotFound <==> InFlight(s) == 0
      ensures r.Success? || r.NotFound?
      ensures r.Success? ==> |s.read| < |s.written| && buffer == s.written[|s.read|]
    {
      RunInv(config, s, ReadCall(config));
      ReadCallEffect(config, s);
      EmptyExactly(config, s);
      buffer := [];
      if data.head == head {
        return NotFound, buffer;
      }
      assert head < config.Max();
      SlotInPage(config, head);
      var offset := (head + 1) * config.messageSize;
      buffer := data.bytes[offset..offset + config.messageSize];
      assert Holds(config, s.data, |s.read|, s.written[|s.read|]);
      assert buffer == Slot(config, s.data, head);
      head := (head + 1) % maximumMessages;
      feedback.head := head;
      r := Success;
    }

    method Write(buffer: Msg, ghost s: State) returns (r: Result)
      requires Valid() && mode.Producer? && Endpoint(s) && |buffer| == config.messageSize
      modifies this`head, data`head, data.bytes
      ensures Valid() && Endpoint(Run(config, s, WriteCall(config, buffer)))
      ensures r == ChannelFull <==> InFlight(s) == config.Max() - 1
      ensures r == Success <==> Run(config, s, WriteCall(config, buffer)).written == s.written + [buffer]
    {
      hide Run, WriteCall, Blit;
      RunInv(config, s, WriteCall(config, buffer));
      WriteCallEffect(config, s, buffer);
      FullExactly(config, s);
      if (head + 1) % maximumMessages == feedback.head {
        return ChannelFull;
      }
      var offset := (head + 1) * config.messageSize;
      CopyInto(data.bytes, offset, buffer);
      head := (head + 1) % maximumMessages;
      data.head := head;
      r := Success;
    }
  }
}
