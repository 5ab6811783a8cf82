/** The receiving half of an RTMP session: headers are rebuilt from the memory of each channel,
    and payloads are collected chunk by chunk, over reads that may have to be retried. */
module RtmpReceiver {
  import opened Bytes
  import opened RtmpWire

  /** A packet holds the payload bytes read so far, or no buffer once it has been processed. */
  datatype RawPacket = Packet(header: Header, buffer: Option<seq<byte>>)

  function BytesRead(p: RawPacket): nat {
    if p.buffer.Some? then |p.buffer.value| else 0
  }

  type Packet = p: RawPacket | BytesRead(p) <= p.header.dataSize
    witness Packet(Header(Large, 0, 0, 0, 0, 0), None)

  type InChannels = map<nat, Packet>

  predicate IsReady(p: Packet) {
    BytesRead(p) == p.header.dataSize
  }

  function Cleared(p: Packet): Packet {
    RawPacket.Packet(p.header, None)
  }

  function MessageOf(p: Packet): Message
    requires p.buffer.Some?
  {
    Message(p.header.channel, p.header.packetType, p.header.streamId, p.header.timestamp, p.buffer.value)
  }

  /** A header that is not read is missing a part, unless it refers to a channel without memory. */
  datatype HeadResult = Failed(consumed: nat, missing: bool) | Head(packet: Packet, consumed: nat)

  /** The packet that the header fields `f` describe, given the one they are relative to. */
  function DecodeFields(base: Packet, t: HeaderType, f: seq<byte>): Packet
    requires |f| == FieldSize(t)
  {
    if t.Minimum? then base else
      var stamp := Decode24(f);
      var time: uint32 :=
        if stamp == EXTENDED then base.header.timestamp
        else if t.Large? then stamp
        else (base.header.timestamp + stamp) % 0x1_0000_0000;
      var timed := RawPacket.Packet(base.header.(timestamp := time), base.buffer);
      if t.Small? then timed else
        var sized := Cleared(timed).header.(dataSize := Decode24(f[3..]), packetType := f[6]);
        if t.Medium? then RawPacket.Packet(sized, None)
        else RawPacket.Packet(sized.(streamId := Decode32LE(f[7..])), None)
  }

  /** A packet read on from its channel keeps its buffer; otherwise it gets a new one. */
  function WithBuffer(p: Packet, t: HeaderType): (q: Packet)
    ensures q.buffer.Some?
  {
    if p.buffer.Some? then p else RawPacket.Packet(p.header.(headerType := t), Some([]))
  }

  /** An absolute timestamp follows the header when the packet's time is the escape value. */
  function ReadExtended(p: Packet, t: HeaderType, w: seq<byte>, at: nat): (r: HeadResult)
    requires at <= |w|
    ensures r.consumed <= |w|
    ensures r.Failed? ==> r.missing
    ensures r.Head? ==> r.packet.buffer.Some?
  {
    if p.header.timestamp != EXTENDED then
      Head(WithBuffer(p, t), at)
    else if |w| < at + 4 then
      Failed(at, true)
    else
      var time := Decode32(w[at..at + 4]);
      Head(WithBuffer(RawPacket.Packet(p.header.(timestamp := time), p.buffer), t), at + 4)
  }

  function ReadFields(channels: InChannels, t: HeaderType, channel: nat, w: seq<byte>, at: nat): (r: HeadResult)
    requires at <= |w|
    ensures r.consumed <= |w|
    ensures r.Head? ==> r.packet.buffer.Some?
  {
    var n := FieldSize(t);
    if !t.Large? && channel !in channels then
      Failed(at, false)
    else if |w| < at + n then
      Failed(at, true)
    else
      var base := if t.Large? then RawPacket.Packet(Header(t, 0, 0, 0, channel, 0), Some([])) else channels[channel];
      ReadExtended(DecodeFields(base, t, w[at..at + n]), t, w, at + n)
  }

  /** The channel that a header names, if it is there, and how many bytes that took. */
  function ReadChannel(w: seq<byte>): (r: (Option<nat>, nat))
    requires w != []
    ensures 1 <= r.1 <= |w|
  {
    var low := w[0] % 64;
    if low == 0 then
      if |w| < 2 then (None, 1) else (Some(64 + (w[1] as int)), 2)
    else if low == 1 then
      if |w| < 3 then (None, 1) else (Some(0x100 * (w[2] as int) + 64 + (w[1] as int)), 3)
    else
      (Some(low), 1)
  }

  /** Reads a header from the available bytes `w`. Every part of it is read whole or not at
      all, and a part that is missing loses the parts before it. */
  function ReadHead(channels: InChannels, w: seq<byte>): (r: HeadResult)
    ensures r.consumed <= |w|
    ensures r.Head? ==> r.packet.buffer.Some?
  {
    if w == [] then Failed(0, true) else
      var (channel, at) := ReadChannel(w);
      if channel.None? then Failed(at, true) else ReadFields(channels, TypeOfCode(w[0] / 64), channel.value, w, at)
  }

  /** The channel that a header names, as far as its bytes are there. */
  function HeadChannel(w: seq<byte>): nat {
    if w == [] then 0 else
      match ReadChannel(w).0
      case None => 0
      case Some(channel) => channel
  }

  /** The receiver between packets: its channel memory and the size of incoming chunks. */
  datatype Core = Core(channels: InChannels, chunk: int)

  function AsInt32(w: uint32): int {
    if w < 0x8000_0000 then w else w - 0x1_0000_0000
  }

  predicate IsResize(m: Message) {
    m.packetType == CHUNK_SIZE_TYPE && |m.payload| >= 4
  }

  function ChunkAfter(chunk: int, m: Message): int {
    if IsResize(m) then AsInt32(Decode32(m.payload)) else chunk
  }

  /** How many payload bytes the next read of a packet asks for. */
  function Expected(p: Packet, chunk: nat): nat {
    Min(p.header.dataSize - BytesRead(p), chunk)
  }

  function Extended(p: Packet, body: seq<byte>): (q: Packet)
    requires p.buffer.Some? && BytesRead(p) + |body| <= p.header.dataSize
    ensures q.buffer.Some? && q.header == p.header
  {
    RawPacket.Packet(p.header, Some(p.buffer.value + body))
  }

  /** Stores a packet whose read has ended; a complete one is handed on and only its header kept. */
  function Store(core: Core, p: Packet): (r: (Core, seq<Message>))
    requires p.buffer.Some?
    ensures |r.1| <= 1
  {
    var ch := p.header.channel;
    if IsReady(p) then
      (Core(core.channels[ch := Cleared(p)], ChunkAfter(core.chunk, MessageOf(p))), [MessageOf(p)])
    else
      (Core(core.channels[ch := p], core.chunk), [])
  }

  // ----- Whole chunks

  /** The chunk is what the receiver expects to read next. */
  predicate ChunkOk(core: Core, c: Chunk) {
    && core.chunk >= 0
    && var r := ReadHead(core.channels, c.head);
       && r.Head? && r.consumed == |c.head|
       && |c.body| == Expected(r.packet, core.chunk)
  }

  function Receive(core: Core, c: Chunk): (Core, seq<Message>)
    requires ChunkOk(core, c)
  {
    Store(core, Extended(ReadHead(core.channels, c.head).packet, c.body))
  }

  predicate WellFormed(core: Core, cs: seq<Chunk>)
    decreases |cs|
  {
    cs == [] || (ChunkOk(core, cs[0]) && WellFormed(Receive(core, cs[0]).0, cs[1..]))
  }

  /** The messages completed by a run of chunks. */
  function Deliver(core: Core, cs: seq<Chunk>): seq<Message>
    requires WellFormed(core, cs)
    decreases |cs|
  {
    if cs == [] then [] else Receive(core, cs[0]).1 + Deliver(Receive(core, cs[0]).0, cs[1..])
  }

  /** The receiver after a run of chunks. */
  function After(core: Core, cs: seq<Chunk>): Core
    requires WellFormed(core, cs)
    decreases |cs|
  {
    if cs == [] then core else After(Receive(core, cs[0]).0, cs[1..])
  }

  lemma {:induction false} RunConcat(core: Core, a: seq<Chunk>, b: seq<Chunk>)
    requires WellFormed(core, a) && WellFormed(After(core, a), b)
    ensures WellFormed(core, a + b)
    ensures After(core, a + b) == After(After(core, a), b)
    ensures Deliver(core, a + b) == Deliver(core, a) + Deliver(After(core, a), b)
    decreases |a|
  {
    hide ChunkOk, Receive;
    if a == [] {
      assert a + b == b;
    } else {
      assert (a + b)[0] == a[0] && (a + b)[1..] == a[1..] + b;
      var (next, ms) := Receive(core, a[0]);
      RunConcat(next, a[1..], b);
      ConcatAssociative(ms, Deliver(next, a[1..]), Deliver(After(core, a), b));
    }
  }

  // ----- Bytes that arrive bit by bit

  /** What is visible of the peer's bytes during one pass of the read loop: a number of bytes
      when the header is read and another when the payload is; and whether the socket fails a
      reader that wants more. */
  datatype Arrival = Arrival(head: nat, body: nat, fails: bool)

  datatype Rx = Rx(core: Core, incomplete: Option<Packet>, delivered: seq<Message>, pos: nat, error: bool)

  /** The bytes from `pos` on that are among the first `seen` of the stream. */
  function Visible(wire: seq<byte>, pos: nat, seen: nat): seq<byte> {
    var end := Min(seen, |wire|);
    if pos <= end then wire[pos..end] else []
  }

  /** A read of `n` bytes turns to a socket that fails: for want of bytes, or with none there. */
  predicate Misses(w: seq<byte>, n: nat, fails: bool) {
    fails && (|w| < n || w == [])
  }

  /** Reads payload for `p`, or keeps it for the next pass. */
  function ReadBody(rx: Rx, p: Packet, wire: seq<byte>, seen: nat, fails: bool): (r: Rx)
    requires rx.core.chunk >= 0 && p.buffer.Some?
    ensures rx.delivered <= r.delivered
    ensures r.delivered == rx.delivered ==> r.core.chunk == rx.core.chunk
  {
    var w := Visible(wire, rx.pos, seen);
    var n := Expected(p, rx.core.chunk);
    var error := rx.error || Misses(w, n, fails);
    if |w| < n then
      rx.(incomplete := Some(p), error := error)
    else
      var (core, messages) := Store(rx.core, Extended(p, w[..n]));
      Rx(core, None, rx.delivered + messages, rx.pos + n, error)
  }

  predicate RxOk(rx: Rx) {
    rx.core.chunk >= 0 && (rx.incomplete.Some? ==> rx.incomplete.value.buffer.Some?)
  }

  /** One pass of the read loop. */
  function Tick(rx: Rx, wire: seq<byte>, a: Arrival): (r: Rx)
    requires RxOk(rx)
    ensures rx.delivered <= r.delivered
    ensures r.delivered == rx.delivered ==> RxOk(r)
  {
    if rx.incomplete.Some? then
      ReadBody(rx.(incomplete := None), rx.incomplete.value, wire, a.body, a.fails)
    else
      match ReadHead(rx.core.channels, Visible(wire, rx.pos, a.head))
      case Failed(n, missing) => rx.(pos := rx.pos + n, error := rx.error || (missing && a.fails))
      case Head(p, n) => ReadBody(rx.(pos := rx.pos + n), p, wire, a.body, a.fails)
  }

  lemma SignBit(s: seq<byte>)
    requires |s| >= 4
    ensures AsInt32(Decode32(s)) < 0 <==> s[0] >= 0x80
  {
  }

  /** The chunk size turns negative, and stops the program, iff a pass completes a chunk-size
      message of at least four bytes of which the first is 0x80 or more. */
  lemma ChunkSizeBreaksIff(rx: Rx, wire: seq<byte>, a: Arrival)
    requires RxOk(rx)
    ensures var r := Tick(rx, wire, a);
            !RxOk(r) <==>
              && r.delivered != rx.delivered
              && var m := r.delivered[|r.delivered| - 1];
                 m.packetType == CHUNK_SIZE_TYPE && |m.payload| >= 4 && m.payload[0] >= 0x80
  {
    hide ReadHead, Decode32, AsInt32, Extended, Visible, Expected;
    var r := Tick(rx, wire, a);
    if r.delivered != rx.delivered {
      var m := r.delivered[|r.delivered| - 1];
      if |m.payload| >= 4 {
        SignBit(m.payload);
      }
    }
  }

  /** One call of `update` on a connected session: passes until one completes a message. */
  function Update(rx: Rx, wire: seq<byte>, arrivals: seq<Arrival>): Rx
    requires RxOk(rx)
    decreases |arrivals|
  {
    if arrivals == [] || rx.error then rx else
      var r := Tick(rx, wire, arrivals[0]);
      if r.delivered != rx.delivered then r else Update(r, wire, arrivals[1..])
  }

  /** A call goes on, pass by pass, until one has completed a message or raised the error flag; so it
      completes one message at most. */
  lemma {:induction false} UpdatePasses(rx: Rx, wire: seq<byte>, arrivals: seq<Arrival>, a: Arrival)
    requires RxOk(rx)
    ensures Update(rx, wire, []) == rx
    ensures var r := Update(rx, wire, arrivals);
            && rx.delivered <= r.delivered && |r.delivered| <= |rx.delivered| + 1
            && (r.delivered == rx.delivered ==> RxOk(r))
            && Update(rx, wire, arrivals + [a]) ==
               if r.error || r.delivered != rx.delivered then r else Tick(r, wire, a)
    decreases |arrivals|
  {
    hide ReadHead, Store, Extended;
    if arrivals == [] {
      assert [] + [a] == [a] && [a][1..] == [];
    } else {
      assert (arrivals + [a])[0] == arrivals[0] && (arrivals + [a])[1..] == arrivals[1..] + [a];
      var r := Tick(rx, wire, arrivals[0]);
      if !rx.error && r.delivered == rx.delivered {
        UpdatePasses(r, wire, arrivals[1..], a);
      }
    }
  }

  /** Any number of calls. A negative chunk size stops the program on an assertion. */
  function Updates(rx: Rx, wire: seq<byte>, calls: seq<seq<Arrival>>): Rx
    decreases |calls|
  {
    if calls == [] || !RxOk(rx) then rx else
      Updates(Update(rx, wire, calls[0]), wire, calls[1..])
  }
}
