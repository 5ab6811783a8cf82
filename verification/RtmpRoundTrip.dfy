/** The sender against the receiver: what is sent is what is read, and the two channel memories
    stay equal over any run. */
module RtmpRoundTrip {
  import opened Bytes
  import opened RtmpWire
  import opened RtmpReceiver
  import opened RtmpReassembly
  import opened RtmpLiveness

  /** The messages whose header the receiver can read back: the channel number has a code of its
      own, the size fits its field, and the time does not collide with the escape value. */
  predicate Sendable(prev: Option<Header>, m: Message) {
    && 2 <= m.channel <= 319
    && |m.payload| < 0x100_0000
    && if ChooseHeader(prev, m).headerType.Large? then m.time < EXTENDED else m.time != EXTENDED
  }

  /** Headers that earlier sendable messages have left in a channel memory. */
  predicate OutOk(out: OutChannels) {
    forall ch <- out :: out[ch].channel == ch && out[ch].timestamp != EXTENDED && out[ch].dataSize < 0x100_0000
  }

  /** The stream id that each channel of the receiver currently carries. */
  type StreamIds = map<nat, uint32>

  /** The receiver's memory is the sender's, up to stream ids. */
  predicate Agree(out: OutChannels, ids: StreamIds, channels: InChannels) {
    && channels.Keys == out.Keys == ids.Keys
    && forall ch <- out :: channels[ch] == RawPacket.Packet(out[ch].(streamId := ids[ch]), None)
  }

  /** Compressed headers do not carry a stream id: the receiver goes by the last large header. */
  function CarriedId(out: OutChannels, ids: StreamIds, m: Message): uint32
    requires out.Keys == ids.Keys
  {
    if ChooseHeader(Lookup(out, m.channel), m).headerType.Large? then m.streamId else ids[m.channel]
  }

  /** The packet under construction after the first header of a message. */
  function Opened(out: OutChannels, ids: StreamIds, m: Message): RawPacket
    requires out.Keys == ids.Keys
  {
    Packet(Remembered(Lookup(out, m.channel), m).(streamId := CarriedId(out, ids, m)), Some([]))
  }

  // ----- One header

  lemma DecodeLarge(base: Packet, h: Header)
    requires h.headerType.Large?
    ensures var f := EncodeFields(h);
            DecodeFields(base, Large, f) ==
            RawPacket.Packet(base.header.(timestamp := if Extends(h) then base.header.timestamp else h.timestamp,
                                   dataSize := h.dataSize % 0x100_0000, packetType := h.packetType,
                                   streamId := h.streamId), None)
  {
    hide Encode24, Decode24, Encode32LE, Decode32LE;
    var time := if Extends(h) then EXTENDED else h.timestamp;
    var tail := Encode24(h.dataSize) + [h.packetType] + Encode32LE(h.streamId);
    var f := EncodeFields(h);
    assert f == Encode24(time) + tail;
    assert f[3..] == tail == Encode24(h.dataSize) + ([h.packetType] + Encode32LE(h.streamId));
    assert f[7..] == Encode32LE(h.streamId) + [];
    RoundTrip24(time, tail);
    RoundTrip24(h.dataSize, [h.packetType] + Encode32LE(h.streamId));
    RoundTrip32LE(h.streamId, []);
  }

  lemma DecodeMedium(base: Packet, h: Header)
    requires h.headerType.Medium? && h.timestamp < EXTENDED
    ensures DecodeFields(base, Medium, EncodeFields(h)) ==
            RawPacket.Packet(base.header.(timestamp := (base.header.timestamp + h.timestamp) % 0x1_0000_0000,
                                   dataSize := h.dataSize % 0x100_0000, packetType := h.packetType), None)
  {
    hide Encode24, Decode24;
    var tail := Encode24(h.dataSize) + [h.packetType];
    var f := EncodeFields(h);
    assert f == Encode24(h.timestamp) + tail;
    assert f[3..] == tail;
    RoundTrip24(h.timestamp, tail);
    RoundTrip24(h.dataSize, [h.packetType]);
  }

  lemma DecodeSmall(base: Packet, h: Header)
    requires h.headerType.Small? && h.timestamp < EXTENDED
    ensures DecodeFields(base, Small, EncodeFields(h)) ==
            RawPacket.Packet(base.header.(timestamp := (base.header.timestamp + h.timestamp) % 0x1_0000_0000),
                             base.buffer)
  {
    hide Encode24, Decode24;
    var f := EncodeFields(h);
    assert f == Encode24(h.timestamp) + [];
    RoundTrip24(h.timestamp, []);
  }

  lemma DecodeMinimum(base: Packet, h: Header)
    requires h.headerType.Minimum?
    ensures DecodeFields(base, Minimum, EncodeFields(h)) == base
  {
  }

  /** The first bytes of a header lead to the reading of the fields of its own type and channel,
      iff the channel has a code of its own. */
  lemma ReadBasic(channels: InChannels, t: HeaderType, channel: nat, more: seq<byte>)
    requires channel <= 319
    ensures var s := EncodeBasic(t, channel);
            && |s + more| >= |s|
            && (channel >= 2 ==> ReadHead(channels, s + more) == ReadFields(channels, t, channel, s + more, |s|))
            && (channel >= 2 ==> HeadChannel(s + more) == channel)
            && (channel < 2 ==> var r := ReadHead(channels, s + more);
                                r.Failed? || exists t', ch, at: nat ::
                                  ch >= 64 && at <= |s + more| && r == ReadFields(channels, t', ch, s + more, at))
  {
    hide ReadFields;
    var s := EncodeBasic(t, channel);
    var w := s + more;
    assert w[..|s|] == s;
    assert w[0] == s[0];
    if channel > 63 {
      assert w[1] == s[1];
    } else {
      assert w[0] / 64 == TypeCode(t) && w[0] % 64 == channel;
      if channel == 0 && |w| >= 2 {
        assert ReadHead(channels, w) == ReadFields(channels, t, 64 + (w[1] as int), w, 2);
      } else if channel == 1 && |w| >= 3 {
        assert ReadHead(channels, w) == ReadFields(channels, t, 0x100 * (w[2] as int) + w[1] + 64, w, 3);
      }
    }
  }

  lemma ReadFieldsChannel(channels: InChannels, t: HeaderType, channel: nat, w: seq<byte>, at: nat)
    requires at <= |w|
    requires forall ch <- channels :: channels[ch].header.channel == ch
    ensures var r := ReadFields(channels, t, channel, w, at);
            r.Head? ==> r.packet.header.channel == channel
  {
  }

  function HeadOf(out: OutChannels, m: Message): seq<byte>
    requires m.channel <= 319
  {
    EncodeHead(ChooseHeader(Lookup(out, m.channel), m))
  }

  /** The packet that the sender's header fields decode to, before an extended timestamp. */
  function Decoded(out: OutChannels, channels: InChannels, m: Message): RawPacket
    requires ChooseHeader(Lookup(out, m.channel), m).headerType.Large? || m.channel in channels
  {
    var h := ChooseHeader(Lookup(out, m.channel), m);
    DecodeFields(if h.headerType.Large? then RawPacket.Packet(Header(Large, 0, 0, 0, m.channel, 0), Some([]))
                 else channels[m.channel], h.headerType, EncodeFields(h))
  }

  /** The header fields as decoded: all as sent, but that the size is cut to 24 bits and that an
      escaped time is lost. */
  lemma DecodedAsSent(out: OutChannels, ids: StreamIds, channels: InChannels, m: Message)
    requires Agree(out, ids, channels) && OutOk(out)
    ensures var h := ChooseHeader(Lookup(out, m.channel), m);
            && (h.headerType.Large? || m.channel in channels)
            && var p := WithBuffer(Decoded(out, channels, m), h.headerType);
               p == RawPacket.Packet(Opened(out, ids, m).header.(
                   dataSize := |m.payload| % 0x100_0000,
                   timestamp := if Extends(h) then 0 else m.time), Some([]))
  {
    hide EncodeFields, DecodeFields;
    var h := ChooseHeader(Lookup(out, m.channel), m);
    match h.headerType
    case Large => DecodeLarge(RawPacket.Packet(Header(Large, 0, 0, 0, m.channel, 0), Some([])), h);
    case Medium => DecodeMedium(channels[m.channel], h);
    case Small => DecodeSmall(channels[m.channel], h);
    case Minimum => DecodeMinimum(channels[m.channel], h);
  }

  /** The message's time, size and type come out of the fields of a compressed header. */
  predicate Carries(base: Packet, t: HeaderType, f: seq<byte>, m: Message)
    requires |f| == FieldSize(t)
  {
    var h := DecodeFields(base, t, f).header;
    h.timestamp == m.time && h.dataSize == |m.payload| && h.packetType == m.packetType
  }

  predicate SmallerCarries(base: Packet, t: HeaderType, f: seq<byte>, m: Message, chosen: HeaderType) {
    |f| == FieldSize(t) < FieldSize(chosen) && Carries(base, t, f, m)
  }

  /** The time has wrapped around since the last message, by less than a compressed header holds. */
  predicate Wrapped(last: uint32, time: uint32) {
    time < last && time + 0x1_0000_0000 - last < EXTENDED
  }

  /** On a channel with a memory the sender's header is the smallest that will do, unless the time has
      wrapped around: it then sends a large one, although the receiver adds times modulo 2^32. */
  lemma SmallestHeaderIff(out: OutChannels, ids: StreamIds, channels: InChannels, m: Message)
    requires Agree(out, ids, channels) && OutOk(out) && m.channel in out && Sendable(Some(out[m.channel]), m)
    ensures var chosen := ChooseHeader(Some(out[m.channel]), m).headerType;
            (exists t, f :: SmallerCarries(channels[m.channel], t, f, m, chosen))
            <==> Wrapped(out[m.channel].timestamp, m.time)
  {
    hide DecodeFields, EncodeFields, Decode24;
    var base, last := channels[m.channel], out[m.channel];
    var chosen := ChooseHeader(Some(last), m).headerType;
    if Wrapped(last.timestamp, m.time) {
      var delta := m.time + 0x1_0000_0000 - last.timestamp;
      var h := Header(Medium, m.packetType, delta, 0, m.channel, |m.payload|);
      DecodeMedium(base, h);
      assert SmallerCarries(base, Medium, EncodeFields(h), m, chosen);
    }
    forall t, f | SmallerCarries(base, t, f, m, chosen)
      ensures Wrapped(last.timestamp, m.time)
    {
      NothingSmaller(base, last, t, f, m);
    }
  }

  lemma NothingSmaller(base: Packet, last: Header, t: HeaderType, f: seq<byte>, m: Message)
    requires base.header.timestamp == last.timestamp && base.header.dataSize == last.dataSize
    requires base.header.packetType == last.packetType
    requires SmallerCarries(base, t, f, m, ChooseHeader(Some(last), m).headerType)
    ensures Wrapped(last.timestamp, m.time)
  {
    hide Decode24;
  }

  function ExtensionOf(h: Header): seq<byte> {
    if Extends(h) then Encode32LE(h.timestamp) else []
  }

  /** A header on the wire, taken apart. */
  lemma HeadLayout(h: Header, more: seq<byte>)
    requires h.channel <= 319
    ensures var basic := EncodeBasic(h.headerType, h.channel);
            var w := EncodeHead(h) + more;
            && w == basic + (EncodeFields(h) + (ExtensionOf(h) + more))
            && w[|basic|..|basic| + FieldSize(h.headerType)] == EncodeFields(h)
            && |w| == |basic| + FieldSize(h.headerType) + |ExtensionOf(h)| + |more|
  {
    hide EncodeBasic, EncodeFields;
    var b, f, e := EncodeBasic(h.headerType, h.channel), EncodeFields(h), ExtensionOf(h);
    var w := EncodeHead(h) + more;
    ConcatAssociative(b + f, e, more);
    ConcatAssociative(b, f, e + more);
    assert w == b + (f + (e + more));
  }

  /** Channels 0 and 1 collide with the codes that announce longer channel numbers. */
  lemma LowChannelLost(out: OutChannels, ids: StreamIds, channels: InChannels, m: Message, more: seq<byte>)
    requires Agree(out, ids, channels) && OutOk(out) && m.channel < 2
    ensures ReadHead(channels, HeadOf(out, m) + more) != Head(Opened(out, ids, m), |HeadOf(out, m)|)
  {
    hide EncodeFields, EncodeBasic, EncodeHead, DecodeFields, ReadHead, ReadFields;
    var h := ChooseHeader(Lookup(out, m.channel), m);
    var tail := EncodeFields(h) + (ExtensionOf(h) + more);
    var w := HeadOf(out, m) + more;
    HeadLayout(h, more);
    ReadBasic(channels, h.headerType, m.channel, tail);
    var r := ReadHead(channels, w);
    if r.Head? {
      var t', ch, at: nat :| ch >= 64 && at <= |w| && r == ReadFields(channels, t', ch, w, at);
      ReadFieldsChannel(channels, t', ch, w, at);
    }
  }

  /** A header is read back, in full and no further, iff the message is sendable. Otherwise the
      receiver takes another channel, loses the time, cuts the size, or reads past the header. */
  lemma HeaderReadBack(out: OutChannels, ids: StreamIds, channels: InChannels, m: Message, more: seq<byte>)
    requires Agree(out, ids, channels) && OutOk(out) && m.channel <= 319
    ensures ReadHead(channels, HeadOf(out, m) + more) == Head(Opened(out, ids, m), |HeadOf(out, m)|)
            <==> Sendable(Lookup(out, m.channel), m)
  {
    hide EncodeFields, EncodeBasic, EncodeHead, DecodeFields, ReadHead;
    if m.channel < 2 {
      LowChannelLost(out, ids, channels, m, more);
    } else {
      var h := ChooseHeader(Lookup(out, m.channel), m);
      var basic := EncodeBasic(h.headerType, m.channel);
      var w := HeadOf(out, m) + more;
      HeadLayout(h, more);
      HeadLayout(h, []);
      ReadBasic(channels, h.headerType, m.channel, EncodeFields(h) + (ExtensionOf(h) + more));
      assert ReadHead(channels, w) == ReadFields(channels, h.headerType, m.channel, w, |basic|);
      DecodedAsSent(out, ids, channels, m);
    }
  }

  // ----- One message

  /** The message does not make the receiver change its chunk size. */
  predicate KeepsChunkSize(m: Message, size: nat) {
    ChunkAfter(size, m) == size
  }

  function MessageFrom(hd: Header, payload: seq<byte>): Message {
    Message(hd.channel, hd.packetType, hd.streamId, hd.timestamp, payload)
  }

  /** The receiver behind a message: it remembers the header, and takes note of a change of size. */
  function Closed(core: Core, hd: Header, payload: seq<byte>): Core {
    Core(core.channels[hd.channel := RawPacket.Packet(hd, None)],
         ChunkAfter(core.chunk, MessageFrom(hd, payload)))
  }

  /** A minimal header continues the packet that its channel has under construction. */
  lemma ReadContinuation(channels: InChannels, channel: nat)
    requires 2 <= channel <= 319 && channel in channels
    requires channels[channel].buffer.Some? && channels[channel].header.timestamp != EXTENDED
    ensures ReadHead(channels, EncodeBasic(Minimum, channel)) ==
            Head(channels[channel], |EncodeBasic(Minimum, channel)|)
  {
    var s := EncodeBasic(Minimum, channel);
    assert s + [] == s;
    ReadBasic(channels, Minimum, channel, []);
  }

  predicate UnderConstruction(core: Core, hd: Header, got: seq<byte>, rest: seq<byte>, size: nat) {
    && 2 <= hd.channel <= 319 && hd.timestamp != EXTENDED
    && hd.channel in core.channels && core.channels[hd.channel] == RawPacket.Packet(hd, Some(got))
    && |got| + |rest| == hd.dataSize && core.chunk == size
  }

  /** Continuation chunks complete the packet that their channel has under construction. */
  lemma {:induction false} ReceivePieces(core: Core, hd: Header, got: seq<byte>, rest: seq<byte>, size: nat)
    requires size > 0 && rest != [] && UnderConstruction(core, hd, got, rest, size)
    ensures var cs := Pieces(EncodeBasic(Minimum, hd.channel), rest, size);
            && WellFormed(core, cs)
            && Deliver(core, cs) == [MessageFrom(hd, got + rest)]
            && After(core, cs) == Closed(core, hd, got + rest)
    decreases |rest|
  {
    hide EncodeBasic, ReadHead, ChunkAfter;
    var head := EncodeBasic(Minimum, hd.channel);
    var n := Min(|rest|, size);
    ReadContinuation(core.channels, hd.channel);
    var cs := Pieces(head, rest, size);
    assert cs[0] == Chunk(head, rest[..n]) && cs[1..] == Pieces(head, rest[n..], size);
    ConcatAssociative(got, rest[..n], rest[n..]);
    assert rest == rest[..n] + rest[n..];
    if n == |rest| {
      assert rest[..n] == rest && rest[n..] == [];
    } else {
      var next := Receive(core, cs[0]).0;
      ReceivePieces(next, hd, got + rest[..n], rest[n..], size);
      assert Closed(next, hd, got + rest) == Closed(core, hd, got + rest);
    }
  }

  /** The first chunk of a message opens a packet with the message's fields. */
  lemma ReceiveFirst(core: Core, out: OutChannels, ids: StreamIds, m: Message, body: seq<byte>)
    requires Agree(out, ids, core.channels) && OutOk(out) && core.chunk > 0
    requires Sendable(Lookup(out, m.channel), m) && |body| == Min(|m.payload|, core.chunk)
    ensures var c := Chunk(HeadOf(out, m), body);
            ChunkOk(core, c) &&
            Receive(core, c) == Store(core, RawPacket.Packet(Opened(out, ids, m).header, Some(body)))
  {
    hide ReadHead, EncodeHead, Store;
    var head := HeadOf(out, m);
    assert head + [] == head;
    HeaderReadBack(out, ids, core.channels, m, []);
    assert [] + body == body;
  }

  /** The chunks of one message deliver that message, and leave the receiver with the header
      that the sender remembers. */
  lemma ReceiveMessage(core: Core, out: OutChannels, ids: StreamIds, m: Message, size: nat)
    requires Agree(out, ids, core.channels) && OutOk(out) && core.chunk == size > 0
    requires Sendable(Lookup(out, m.channel), m)
    ensures var cs := MessageChunks(ChooseHeader(Lookup(out, m.channel), m), m.payload, size);
            && WellFormed(core, cs)
            && Deliver(core, cs) == [m.(streamId := CarriedId(out, ids, m))]
            && After(core, cs) == Closed(core, Opened(out, ids, m).header, m.payload)
  {
    hide ReadHead, EncodeHead, EncodeBasic, ChunkAfter, Receive;
    var hd := Opened(out, ids, m).header;
    var n := Min(|m.payload|, size);
    var basic := EncodeBasic(Minimum, m.channel);
    var cs := MessageChunks(ChooseHeader(Lookup(out, m.channel), m), m.payload, size);
    var body, rest := m.payload[..n], m.payload[n..];
    assert cs[0] == Chunk(HeadOf(out, m), body) && cs[1..] == Pieces(basic, rest, size);
    ReceiveFirst(core, out, ids, m, body);
    assert m.payload == body + rest;
    assert MessageFrom(hd, m.payload) == m.(streamId := hd.streamId);
    var (next, ms) := Receive(core, cs[0]);
    if n == |m.payload| {
      assert body == m.payload && rest == [];
      assert ms == [MessageFrom(hd, m.payload)];
    } else {
      ReceivePieces(next, hd, body, rest, size);
      assert Closed(next, hd, m.payload) == Closed(core, hd, m.payload);
      assert ms == [];
    }
  }

  // ----- Runs of messages

  function NextIds(out: OutChannels, ids: StreamIds, m: Message): StreamIds
    requires out.Keys == ids.Keys
  {
    ids[m.channel := CarriedId(out, ids, m)]
  }

  /** Every message of the run is sendable after the ones before it. */
  predicate AllSendable(out: OutChannels, ms: seq<Message>, size: nat)
    decreases |ms|
  {
    ms == [] ||
    (Sendable(Lookup(out, ms[0].channel), ms[0]) && KeepsChunkSize(ms[0], size) &&
     AllSendable(NextOut(out, ms[0]), ms[1..], size))
  }

  /** The run as the receiver sees it: every message with the stream id its channel carries. */
  function AsRead(out: OutChannels, ids: StreamIds, ms: seq<Message>): seq<Message>
    requires out.Keys == ids.Keys
    decreases |ms|
  {
    if ms == [] then [] else
      [ms[0].(streamId := CarriedId(out, ids, ms[0]))] +
      AsRead(NextOut(out, ms[0]), NextIds(out, ids, ms[0]), ms[1..])
  }

  function IdsAfter(out: OutChannels, ids: StreamIds, ms: seq<Message>): StreamIds
    requires out.Keys == ids.Keys
    decreases |ms|
  {
    if ms == [] then ids else IdsAfter(NextOut(out, ms[0]), NextIds(out, ids, ms[0]), ms[1..])
  }

  /** No message under a compressed header has another stream id than the message before it on its
      channel. This is the sender's to see: its memory holds that message. */
  predicate SteadyIds(out: OutChannels, ms: seq<Message>)
    decreases |ms|
  {
    ms == [] ||
    ((ChooseHeader(Lookup(out, ms[0].channel), ms[0]).headerType.Large?
      || out[ms[0].channel].streamId == ms[0].streamId) &&
     SteadyIds(NextOut(out, ms[0]), ms[1..]))
  }

  function IdsOf(out: OutChannels): StreamIds {
    map ch | ch in out :: out[ch].streamId
  }

  lemma {:induction false} AllSendableChannels(out: OutChannels, ms: seq<Message>, size: nat)
    requires AllSendable(out, ms, size)
    ensures forall m <- ms :: m.channel <= 319
    decreases |ms|
  {
    if ms == [] {
    } else {
      AllSendableChannels(NextOut(out, ms[0]), ms[1..], size);
      assert forall m <- ms :: m == ms[0] || m in ms[1..];
    }
  }

  /** After a message the two memories agree again. */
  lemma StillAgree(core: Core, out: OutChannels, ids: StreamIds, m: Message)
    requires Agree(out, ids, core.channels) && OutOk(out) && Sendable(Lookup(out, m.channel), m)
    ensures OutOk(NextOut(out, m))
    ensures Agree(NextOut(out, m), NextIds(out, ids, m), Closed(core, Opened(out, ids, m).header, m.payload).channels)
  {
  }

  /** Any run: the chunks are well formed, the messages come out in order, each with the
      stream id its channel carries, and the memories of both ends agree afterwards. */
  lemma {:induction false} ReceiveRun(core: Core, out: OutChannels, ids: StreamIds, ms: seq<Message>, size: nat)
    requires Agree(out, ids, core.channels) && OutOk(out) && core.chunk == size > 0
    requires AllSendable(out, ms, size)
    ensures forall m <- ms :: m.channel <= 319
    ensures var cs := SentChunks(out, ms, size);
            && WellFormed(core, cs)
            && Deliver(core, cs) == AsRead(out, ids, ms)
            && Agree(SentMemory(out, ms), IdsAfter(out, ids, ms), After(core, cs).channels)
            && After(core, cs).chunk == size
    decreases |ms|
  {
    hide Sendable, MessageChunks, WellFormed, Deliver, After, OutOk, Closed, Opened, ChunkAfter;
    AllSendableChannels(out, ms, size);
    if ms == [] {
      EmptyRun(core);
    } else {
      var m := ms[0];
      var first := MessageChunks(ChooseHeader(Lookup(out, m.channel), m), m.payload, size);
      ReceiveMessage(core, out, ids, m, size);
      StillAgree(core, out, ids, m);
      var next := After(core, first);
      assert next.chunk == size by {
        KeepsChunk(core, out, ids, m);
      }
      ReceiveRun(next, NextOut(out, m), NextIds(out, ids, m), ms[1..], size);
      RunConcat(core, first, SentChunks(NextOut(out, m), ms[1..], size));
    }
  }

  lemma KeepsChunk(core: Core, out: OutChannels, ids: StreamIds, m: Message)
    requires out.Keys == ids.Keys
    ensures Closed(core, Opened(out, ids, m).header, m.payload).chunk == ChunkAfter(core.chunk, m)
  {
  }

  lemma EmptyRun(core: Core)
    ensures WellFormed(core, []) && Deliver(core, []) == [] && After(core, []) == core
  {
  }

  /** The receiver sees the messages as sent iff no compressed header changes a stream id. */
  lemma {:induction false} SteadyIff(out: OutChannels, ms: seq<Message>)
    ensures AsRead(out, IdsOf(out), ms) == ms <==> SteadyIds(out, ms)
    decreases |ms|
  {
    var ids := IdsOf(out);
    if ms == [] {
    } else {
      var read := AsRead(out, ids, ms);
      assert read == ms <==> read[0] == ms[0] && read[1..] == ms[1..] by {
        assert ms == [ms[0]] + ms[1..] && read == [read[0]] + read[1..];
      }
      assert read[1..] == AsRead(NextOut(out, ms[0]), NextIds(out, ids, ms[0]), ms[1..]);
      if CarriedId(out, ids, ms[0]) == ms[0].streamId {
        assert NextIds(out, ids, ms[0]) == IdsOf(NextOut(out, ms[0]));
        SteadyIff(NextOut(out, ms[0]), ms[1..]);
      }
    }
  }

  // ----- Whole sessions

  const NEW_CHUNK_SIZE: nat := 128
  const NEW_CORE: Core := Core(map[], NEW_CHUNK_SIZE)

  /** A new sender's run read by a new receiver, with any timing that never shows it a part of the
      header it is about to read: at any time a prefix of the messages has been delivered; and after
      as many further calls as there are chunks, each seeing the next one, all have. They are the
      messages that were sent iff no compressed header hides a change of stream id. */
  lemma SessionRoundTrip(ms: seq<Message>, history: seq<seq<Arrival>>, calls: seq<seq<Arrival>>)
    requires AllSendable(map[], ms, NEW_CHUNK_SIZE)
    ensures forall m <- ms :: m.channel <= 319
    ensures var cs := SentChunks(map[], ms, NEW_CHUNK_SIZE);
            var wire := Flatten(cs);
            FairHistory(Start(NEW_CORE), wire, history, cs) ==>
              var r := Updates(Start(NEW_CORE), wire, history);
              var last := Updates(r, wire, calls);
              && r.delivered <= AsRead(map[], map[], ms)
              && (!r.error && |calls| >= |cs| && AllProductive(r, wire, calls, cs) ==>
                  && (last.delivered == ms <==> SteadyIds(map[], ms))
                  && Agree(SentMemory(map[], ms), IdsAfter(map[], map[], ms), last.core.channels))
  {
    hide Updates, SentChunks, AllSendable, WellFormed, Deliver, After, Flatten, AllProductive;
    ReceiveRun(NEW_CORE, map[], map[], ms, NEW_CHUNK_SIZE);
    SteadyIff(map[], ms);
    var cs := SentChunks(map[], ms, NEW_CHUNK_SIZE);
    var wire := Flatten(cs);
    if FairHistory(Start(NEW_CORE), wire, history, cs) {
      var n := DeliversPrefix(NEW_CORE, cs, history);
      var r := Updates(Start(NEW_CORE), wire, history);
      if !r.error && |calls| >= |cs| && AllProductive(r, wire, calls, cs) {
        Completes(NEW_CORE, cs, history, calls);
      }
    }
  }

  lemma MessageParts(h: Header, payload: seq<byte>, size: nat)
    requires h.channel <= 319 && size > 0
    ensures forall c <- MessageChunks(h, payload, size) :: |c.body| <= size
  {
    hide EncodeHead, EncodeBasic, Pieces;
    var n := Min(|payload|, size);
    var pieces := Pieces(EncodeBasic(Minimum, h.channel), payload[n..], size);
    PiecesCarryPayload(EncodeBasic(Minimum, h.channel), payload[n..], size);
    forall c <- [Chunk(EncodeHead(h), payload[..n])] + pieces
      ensures |c.body| <= size
    {
      if c in pieces {
        var i :| 0 <= i < |pieces| && pieces[i] == c;
      }
    }
  }

  lemma {:induction false} SentParts(out: OutChannels, ms: seq<Message>, size: nat)
    requires size > 0 && forall m <- ms :: m.channel <= 319
    ensures forall c <- SentChunks(out, ms, size) :: |c.body| <= size
    decreases |ms|
  {
    hide MessageChunks, NextOut;
    if ms == [] {
    } else {
      MessageParts(ChooseHeader(Lookup(out, ms[0].channel), ms[0]), ms[0].payload, size);
      SentParts(NextOut(out, ms[0]), ms[1..], size);
    }
  }

  /** What a sender has sent can always be read through the cache, since its chunks are small. */
  lemma SessionFitsCache(ms: seq<Message>)
    requires AllSendable(map[], ms, NEW_CHUNK_SIZE)
    ensures forall m <- ms :: m.channel <= 319
    ensures var cs := SentChunks(map[], ms, NEW_CHUNK_SIZE);
            exists calls ::
              && (forall c <- calls :: |c| == PASSES)
              && FairHistory(Start(NEW_CORE), Flatten(cs), calls, cs)
              && CachedHistory(Start(NEW_CORE), Flatten(cs), calls)
              && Updates(Start(NEW_CORE), Flatten(cs), calls).delivered == AsRead(map[], map[], ms)
  {
    hide Updates, SentChunks, AllSendable, WellFormed, Deliver, After, Flatten, FairHistory, CachedHistory;
    ReceiveRun(NEW_CORE, map[], map[], ms, NEW_CHUNK_SIZE);
    var cs := SentChunks(map[], ms, NEW_CHUNK_SIZE);
    ClosedEndsMessage(NEW_CORE, cs);
    SentParts(map[], ms, NEW_CHUNK_SIZE);
    CacheCompletesIff(NEW_CORE, cs);
  }

  /** The plain domain of the protocol: it makes every run sendable. */
  predicate Plain(m: Message) {
    && 2 <= m.channel <= 319 && |m.payload| < 0x100_0000 && m.time < EXTENDED
    && m.packetType != CHUNK_SIZE_TYPE
  }

  lemma {:induction false} PlainIsSendable(out: OutChannels, ms: seq<Message>, size: nat)
    requires forall m <- ms :: Plain(m)
    ensures AllSendable(out, ms, size)
    decreases |ms|
  {
    if ms == [] {
    } else {
      assert Plain(ms[0]) && forall m <- ms[1..] :: m in ms;
      PlainIsSendable(NextOut(out, ms[0]), ms[1..], size);
    }
  }

  /** One stream id per channel is enough for all to arrive as sent. */
  lemma {:induction false} OneIdPerChannel(out: OutChannels, ms: seq<Message>, id: nat -> uint32)
    requires forall ch <- out :: out[ch].streamId == id(ch)
    requires forall m <- ms :: m.streamId == id(m.channel)
    ensures SteadyIds(out, ms)
    decreases |ms|
  {
    if ms == [] {
    } else {
      OneIdPerChannel(NextOut(out, ms[0]), ms[1..], id);
    }
  }

  /** A run is read up to its first message that is not sendable: behind the ones before it, that
      message's header is not taken for what it is. */
  lemma UnsendableStopsRun(ms: seq<Message>, m: Message, more: seq<byte>)
    requires AllSendable(map[], ms, NEW_CHUNK_SIZE) && m.channel <= 319
    requires !Sendable(Lookup(SentMemory(map[], ms), m.channel), m)
    ensures forall x <- ms :: x.channel <= 319
    ensures var out, ids := SentMemory(map[], ms), IdsAfter(map[], map[], ms);
            var cs := SentChunks(map[], ms, NEW_CHUNK_SIZE);
            && WellFormed(NEW_CORE, cs) && Deliver(NEW_CORE, cs) == AsRead(map[], map[], ms)
            && out.Keys == ids.Keys
            && ReadHead(After(NEW_CORE, cs).channels, HeadOf(out, m) + more) !=
               Head(Opened(out, ids, m), |HeadOf(out, m)|)
  {
    hide ReadHead, SentChunks, AllSendable, WellFormed, Deliver, After, Sendable;
    ReceiveRun(NEW_CORE, map[], map[], ms, NEW_CHUNK_SIZE);
    MemoryOk(map[], ms, NEW_CHUNK_SIZE);
    HeaderReadBack(SentMemory(map[], ms), IdsAfter(map[], map[], ms),
                   After(NEW_CORE, SentChunks(map[], ms, NEW_CHUNK_SIZE)).channels, m, more);
  }

  lemma {:induction false} MemoryOk(out: OutChannels, ms: seq<Message>, size: nat)
    requires OutOk(out) && AllSendable(out, ms, size)
    ensures OutOk(SentMemory(out, ms))
    decreases |ms|
  {
    if ms == [] {
    } else {
      MemoryOk(NextOut(out, ms[0]), ms[1..], size);
    }
  }
}
