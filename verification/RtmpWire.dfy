/** The chunk format of RTMP as the sender writes it (section 5.3.1 of Adobe's RTMP 1.0
    specification): headers of four sizes, and messages split over several chunks. */
module RtmpWire {
  import opened Bytes

  datatype HeaderType = Large | Medium | Small | Minimum

  /** `timestamp` is absolute in stored headers and in large ones on the wire, relative in
      medium and small ones. */
  datatype Header = Header(headerType: HeaderType, packetType: byte, timestamp: uint32,
                           streamId: uint32, channel: nat, dataSize: nat)

  datatype Message = Message(channel: nat, packetType: byte, streamId: uint32,
                             time: uint32, payload: seq<byte>)

  const HEADER_SIZE: nat := 18
  const EXTENDED: nat := 0xffffff
  const CHUNK_SIZE_TYPE: byte := 0x01
  const INVOKE_TYPE: byte := 0x14

  function TypeCode(t: HeaderType): (c: nat)
    ensures c < 4
  {
    match t case Large => 0 case Medium => 1 case Small => 2 case Minimum => 3
  }

  function TypeOfCode(c: nat): (t: HeaderType)
    requires c < 4
    ensures TypeCode(t) == c
  {
    if c == 0 then Large else if c == 1 then Medium else if c == 2 then Small else Minimum
  }

  /** The bytes of the message header that follow the channel, without an extended timestamp. */
  function FieldSize(t: HeaderType): nat {
    match t case Large => 11 case Medium => 7 case Small => 3 case Minimum => 0
  }

  /** The header the sender picks: as small as the last header on the channel allows. */
  function ChooseHeader(prev: Option<Header>, m: Message): Header {
    var full := Header(Large, m.packetType, m.time, m.streamId, m.channel, |m.payload|);
    if prev.None? || m.time < prev.value.timestamp || m.time - prev.value.timestamp >= EXTENDED then
      full
    else
      var delta := m.time - prev.value.timestamp;
      if prev.value.dataSize != |m.payload| || prev.value.packetType != m.packetType then
        full.(headerType := Medium, timestamp := delta)
      else if delta != 0 then
        full.(headerType := Small, timestamp := delta)
      else
        full.(headerType := Minimum, timestamp := delta)
  }

  /** What the sender remembers of a message: its header with the absolute time. */
  function Remembered(prev: Option<Header>, m: Message): Header {
    ChooseHeader(prev, m).(timestamp := m.time)
  }

  /** The header type and channel: one byte, or two for channels 64 to 319. */
  function EncodeBasic(t: HeaderType, channel: nat): (s: seq<byte>)
    requires channel <= 319
    ensures |s| == if channel > 63 then 2 else 1
  {
    if channel > 63 then [64 * TypeCode(t), channel - 64] else [64 * TypeCode(t) + channel]
  }

  predicate Extends(h: Header) {
    h.headerType.Large? && h.timestamp >= EXTENDED
  }

  function EncodeFields(h: Header): (s: seq<byte>)
    ensures |s| == FieldSize(h.headerType)
  {
    if h.headerType.Minimum? then [] else
      Encode24(if Extends(h) then EXTENDED else h.timestamp) +
      (if h.headerType.Small? then [] else
         Encode24(h.dataSize) + [h.packetType] +
         if h.headerType.Medium? then [] else Encode32LE(h.streamId))
  }

  /** A whole header. An extended timestamp is written least significant byte first. */
  function EncodeHead(h: Header): (s: seq<byte>)
    requires h.channel <= 319
    ensures |s| <= HEADER_SIZE
  {
    EncodeBasic(h.headerType, h.channel) + EncodeFields(h) +
    if Extends(h) then Encode32LE(h.timestamp) else []
  }

  /** One chunk: a header and the part of a payload that follows it. */
  datatype Chunk = Chunk(head: seq<byte>, body: seq<byte>)

  function ChunkBytes(c: Chunk): seq<byte> {
    c.head + c.body
  }

  function Flatten(cs: seq<Chunk>): seq<byte> {
    if cs == [] then [] else ChunkBytes(cs[0]) + Flatten(cs[1..])
  }

  /** A payload in pieces of `size` bytes, each behind the same header. */
  function Pieces(head: seq<byte>, payload: seq<byte>, size: nat): (cs: seq<Chunk>)
    requires size > 0
    decreases |payload|
  {
    if payload == [] then [] else
      var n := Min(|payload|, size);
      [Chunk(head, payload[..n])] + Pieces(head, payload[n..], size)
  }

  /** The chunks of one message: the first header, then a minimal header every `size` bytes. */
  function MessageChunks(h: Header, payload: seq<byte>, size: nat): (cs: seq<Chunk>)
    requires h.channel <= 319 && size > 0
  {
    var n := Min(|payload|, size);
    [Chunk(EncodeHead(h), payload[..n])] + Pieces(EncodeBasic(Minimum, h.channel), payload[n..], size)
  }

  type OutChannels = map<nat, Header>

  function Lookup<T>(m: map<nat, T>, k: nat): Option<T> {
    if k in m then Some(m[k]) else None
  }

  /** The sender's channel memory after one message. */
  function NextOut(out: OutChannels, m: Message): OutChannels {
    out[m.channel := Remembered(Lookup(out, m.channel), m)]
  }

  /** The chunks sent for a run of messages, starting from the channel memory `out`. */
  function SentChunks(out: OutChannels, ms: seq<Message>, size: nat): seq<Chunk>
    requires size > 0
    requires forall m <- ms :: m.channel <= 319
    decreases |ms|
  {
    if ms == [] then [] else
      MessageChunks(ChooseHeader(Lookup(out, ms[0].channel), ms[0]), ms[0].payload, size) +
      SentChunks(NextOut(out, ms[0]), ms[1..], size)
  }

  /** The sender's channel memory after a run. */
  function SentMemory(out: OutChannels, ms: seq<Message>): OutChannels
    decreases |ms|
  {
    if ms == [] then out else SentMemory(NextOut(out, ms[0]), ms[1..])
  }

  lemma {:induction false} FlattenConcat(a: seq<Chunk>, b: seq<Chunk>)
    ensures Flatten(a + b) == Flatten(a) + Flatten(b)
  {
    if a == [] {
      assert a + b == b;
    } else {
      var first := ChunkBytes(a[0]);
      calc {
        Flatten(a + b);
        { assert (a + b)[0] == a[0] && (a + b)[1..] == a[1..] + b; }
        first + Flatten(a[1..] + b);
        { FlattenConcat(a[1..], b); }
        first + (Flatten(a[1..]) + Flatten(b));
        { ConcatAssociative(first, Flatten(a[1..]), Flatten(b)); }
        Flatten(a) + Flatten(b);
      }
    }
  }

  /** The bodies of a message's chunks, without the headers. */
  function Bodies(cs: seq<Chunk>): seq<byte> {
    if cs == [] then [] else cs[0].body + Bodies(cs[1..])
  }

  /** Chunking loses nothing: the pieces carry the payload, and each but the last is full. */
  lemma {:induction false} PiecesCarryPayload(head: seq<byte>, payload: seq<byte>, size: nat)
    requires size > 0
    ensures var cs := Pieces(head, payload, size);
            && Bodies(cs) == payload
            && (forall i :: 0 <= i < |cs| ==> cs[i].head == head && 0 < |cs[i].body| <= size)
            && (forall i :: 0 <= i < |cs| - 1 ==> |cs[i].body| == size)
    decreases |payload|
  {
    if payload == [] {
    } else {
      var n := Min(|payload|, size);
      var rest := Pieces(head, payload[n..], size);
      PiecesCarryPayload(head, payload[n..], size);
      assert Pieces(head, payload, size) == [Chunk(head, payload[..n])] + rest;
      assert ([Chunk(head, payload[..n])] + rest)[1..] == rest;
      assert payload == payload[..n] + payload[n..];
      if n < size {
        assert payload[n..] == [];
      }
    }
  }

  /** The wire is longer than the payload by exactly the headers. */
  lemma {:induction false} PiecesLength(head: seq<byte>, payload: seq<byte>, size: nat)
    requires size > 0
    ensures |Flatten(Pieces(head, payload, size))| ==
            |payload| + |Pieces(head, payload, size)| * |head|
    decreases |payload|
  {
    if payload == [] {
    } else {
      var n := Min(|payload|, size);
      var rest := Pieces(head, payload[n..], size);
      PiecesLength(head, payload[n..], size);
      assert ([Chunk(head, payload[..n])] + rest)[1..] == rest;
      assert (|rest| + 1) * |head| == |rest| * |head| + |head|;
    }
  }
}
