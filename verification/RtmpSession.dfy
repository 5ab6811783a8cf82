/** The session object: it sends messages from a buffer it overwrites as it goes, reads packets
    into its channel memory, and acknowledges what it has read. */
module RtmpSession {
  import opened Bytes
  import opened RtmpWire
  import opened RtmpReceiver
  import opened RtmpReassembly
  import opened RtmpLiveness
  import opened RtmpRoundTrip
  import opened RtmpSender
  import opened RtmpDispatch
  import Handshake

  /** How sending ended: in full, cut short by the socket, or in full but without a memory of
      it, because the method name of an invocation could not be read back. */
  datatype SendResult = Sent | WriteFailed | BadInvoke

  const STRING_TAG: byte := 0x02

  /** The string that names the method of an invocation lies within the payload. */
  predicate NamesMethod(payload: seq<byte>) {
    |payload| >= 3 && Decode16(payload[1..3]) <= |payload| - 3
  }

  function MessageToSend(header: Header, payload: seq<byte>, now: uint32): Message {
    Message(header.channel, header.packetType, header.streamId, now, payload)
  }

  /** The rest of a message on the wire: payload that needs no further header, then pieces. */
  function Tail(head: seq<byte>, payload: seq<byte>, size: nat): seq<byte>
    requires size > 0
  {
    var n := Min(|payload|, size);
    payload[..n] + Flatten(Pieces(head, payload[n..], size))
  }

  lemma WireIsHeadAndTail(h: Header, payload: seq<byte>, size: nat)
    requires h.channel <= 319 && size > 0
    ensures Flatten(MessageChunks(h, payload, size)) ==
            EncodeHead(h) + Tail(EncodeBasic(Minimum, h.channel), payload, size)
  {
    var n := Min(|payload|, size);
    var cs := MessageChunks(h, payload, size);
    var pieces := Pieces(EncodeBasic(Minimum, h.channel), payload[n..], size);
    assert cs[1..] == pieces;
    ConcatAssociative(EncodeHead(h), payload[..n], Flatten(pieces));
  }

  lemma TailStep(head: seq<byte>, payload: seq<byte>, size: nat)
    requires size > 0 && payload != []
    ensures var n := Min(|payload|, size);
            Tail(head, payload, size) ==
            payload[..n] + if payload[n..] == [] then [] else head + Tail(head, payload[n..], size)
  {
    var n := Min(|payload|, size);
    var rest := payload[n..];
    if rest != [] {
      var k := Min(|rest|, size);
      var pieces := Pieces(head, rest[k..], size);
      assert Pieces(head, rest, size)[1..] == pieces;
      ConcatAssociative(head, rest[..k], Flatten(pieces));
    }
  }

  /** Sending what is pending and one chunk of the rest leaves the next header pending. */
  lemma TailAdvance(whole: seq<byte>, sent: seq<byte>, pending: seq<byte>, head: seq<byte>, rest: seq<byte>, size: nat)
    requires size > 0 && whole == sent + pending + Tail(head, rest, size)
    ensures var n := Min(|rest|, size);
            var sent' := sent + (pending + rest[..n]);
            whole == sent' + (if rest[n..] == [] then [] else head) + Tail(head, rest[n..], size)
    ensures sent + (pending + rest[..Min(|rest|, size)]) <= whole
  {
    hide Tail;
    var n := Min(|rest|, size);
    var next := if rest[n..] == [] then [] else head;
    if rest == [] {
      NoTail(head, size);
      assert pending + rest[..n] == pending;
    } else {
      TailStep(head, rest, size);
    }
    if rest[n..] == [] {
      NoTail(head, size);
    }
    assert Tail(head, rest, size) == rest[..n] + (next + Tail(head, rest[n..], size));
    ConcatAssociative(sent + pending, rest[..n], next + Tail(head, rest[n..], size));
    ConcatAssociative(sent, pending, rest[..n]);
    ConcatAssociative(sent + (pending + rest[..n]), next, Tail(head, rest[n..], size));
  }

  /** How much of a payload no continuation header ever overwrites. */
  function Kept(size: nat): (k: nat)
    ensures k <= size
  {
    if size <= 128 then size else 126
  }

  lemma NoTail(head: seq<byte>, size: nat)
    requires size > 0
    ensures Tail(head, [], size) == []
  {
  }

  lemma CutShort(whole: seq<byte>, sent: seq<byte>, part: seq<byte>, n: nat)
    requires sent + part <= whole && n <= |part|
    ensures sent + part[..n] <= whole
  {
    assert whole[..|sent| + |part|] == sent + part;
    assert whole[..|sent| + n] == whole[..|sent| + |part|][..|sent| + n];
  }

  /** Writing one chunk after another writes the message as far as there is room. */
  lemma WrittenSoFar(before: seq<byte>, whole: seq<byte>, room: nat, written: seq<byte>)
    requires written <= before + whole && |written| == |before| + Min(|whole|, room)
    ensures written == before + whole[..Min(|whole|, room)]
  {
    assert written == (before + whole)[..|written|];
  }

  // ----- Acknowledgements

  /** How much has been read, how much of it was known when last acknowledged, and how often. */
  datatype Window = Window(bytesIn: nat, bytesInSent: nat, acks: nat)

  function AfterRead(w: Window, n: nat, bandwidth: nat): Window {
    if n == 0 then w else
      var total := w.bytesIn + n;
      if total > w.bytesInSent + bandwidth / 2 then Window(total, total, w.acks + 1)
      else Window(total, w.bytesInSent, w.acks)
  }

  function AfterReads(w: Window, ns: seq<nat>, bandwidth: nat): Window
    decreases |ns|
  {
    if ns == [] then w else AfterReads(AfterRead(w, ns[0], bandwidth), ns[1..], bandwidth)
  }

  /** Never more than half the bandwidth is unacknowledged, and each acknowledgement stands for
      more than that. */
  predicate WindowOk(w: Window, bandwidth: nat) {
    && w.bytesInSent <= w.bytesIn <= w.bytesInSent + bandwidth / 2
    && w.acks * (bandwidth / 2 + 1) <= w.bytesInSent
  }

  lemma ReadKeepsWindow(w: Window, n: nat, bandwidth: nat)
    requires WindowOk(w, bandwidth)
    ensures WindowOk(AfterRead(w, n, bandwidth), bandwidth)
  {
    var step := bandwidth / 2 + 1;
    assert (w.acks + 1) * step == w.acks * step + step;
  }

  /** Over any run of reads at a fixed bandwidth the window holds, so there are at most
      bytesIn / (bandwidth/2 + 1) acknowledgements. */
  lemma {:induction false} AcksBounded(w: Window, ns: seq<nat>, bandwidth: nat)
    requires WindowOk(w, bandwidth)
    ensures var r := AfterReads(w, ns, bandwidth);
            && r.bytesIn - r.bytesInSent <= bandwidth / 2
            && r.acks * (bandwidth / 2 + 1) <= r.bytesIn
    decreases |ns|
  {
    if ns == [] {
    } else {
      ReadKeepsWindow(w, ns[0], bandwidth);
      AcksBounded(AfterRead(w, ns[0], bandwidth), ns[1..], bandwidth);
    }
  }

  function AckMessage(bytesIn: nat, now: uint32): Message {
    Message(CONTROL_CHANNEL, BYTES_READ_TYPE, 0, now, Encode32(bytesIn))
  }

  /** An acknowledgement carries the low 32 bits of the number of bytes read, on channel 2. */
  lemma AckBytes(n: nat, now: uint32)
    ensures AckMessage(n, now) ==
            Message(2, 3, 0, now, [n / 0x100_0000 % 0x100, n / 0x1_0000 % 0x100, n / 0x100 % 0x100, n % 0x100])
  {
  }

  /** A payload names a method iff it starts with a whole string behind its type byte. */
  lemma NamesMethodIff(payload: seq<byte>)
    ensures NamesMethod(payload) <==>
            exists tag, high, low, name, rest :: payload == [tag, high, low] + name + rest
                                                 && |name| == 0x100 * (high as int) + low
  {
    if NamesMethod(payload) {
      var n := Decode16(payload[1..3]);
      var name, rest := payload[3..3 + n], payload[3 + n..];
      assert payload == [payload[0], payload[1], payload[2]] + name + rest;
    }
  }

  /** The messages that a session sends on its own: acknowledgements and answers to pings. */
  predicate OwnMessages(ms: seq<Message>) {
    forall m <- ms :: m.channel == CONTROL_CHANNEL && (m.packetType == BYTES_READ_TYPE || m.packetType == CONTROL_TYPE)
  }

  /** What a session owes its peer: the sending side, the window, the position in the peer's bytes
      and the bandwidth. */
  datatype Books = Account(sender: Sending, window: Window, pos: nat, bandwidth: nat)

  /** What reading keeps: every byte read is counted, the wire stays in step with the messages
      sent, to which only the session's own are added, and the window holds. */
  predicate Balances(b: Books, c: Books) {
    && c.window.bytesIn - b.window.bytesIn == c.pos - b.pos
    && (InStep(b.sender) ==> InStep(c.sender))
    && b.sender.sent <= c.sender.sent && OwnMessages(c.sender.sent[|b.sender.sent|..]) && c.sender.room <= b.sender.room
    && (c.bandwidth == b.bandwidth && WindowOk(b.window, b.bandwidth) ==> WindowOk(c.window, c.bandwidth))
  }

  /** What a read keeps besides: the bandwidth. */
  predicate Steady(b: Books, c: Books) {
    Balances(b, c) && c.bandwidth == b.bandwidth
  }

  lemma SteadyBalances(b: Books, c: Books)
    requires Steady(b, c)
    ensures Balances(b, c)
  {
  }

  lemma BalancesTwice(b: Books, c: Books, d: Books)
    requires Steady(b, c) && Balances(c, d)
    ensures Balances(b, d) && (Steady(c, d) ==> Steady(b, d))
  {
    hide InStep, WindowOk;
    var s, t, u := b.sender.sent, c.sender.sent, d.sender.sent;
    forall m <- u[|s|..]
      ensures OwnMessages([m])
    {
      var i :| 0 <= i < |u[|s|..]| && u[|s|..][i] == m;
      if |s| + i < |t| {
        assert t[|s|..][i] == m;
      } else {
        assert u[|t|..][|s| + i - |t|] == m;
      }
    }
  }

  /** A read that may have to be acknowledged. */
  lemma ReadBalances(b: Books, c: Books, n: nat, now: uint32)
    requires n > 0 && c == b.(pos := b.pos + n, window := b.window.(bytesIn := b.window.bytesIn + n))
    ensures var w := AfterRead(b.window, n, b.bandwidth);
            Steady(b, if w.acks == b.window.acks then c
                      else c.(window := w, sender := AfterSend(b.sender, AckMessage(w.bytesIn, now), true)))
  {
    hide InStep, AfterSend;
    if WindowOk(b.window, b.bandwidth) {
      ReadKeepsWindow(b.window, n, b.bandwidth);
    }
    var m := AckMessage(c.window.bytesIn, now);
    SentIsMore(b.sender, m);
    if InStep(b.sender) {
      SendKeepsStep(b.sender, m);
    }
  }

  lemma SentIsMore(s: Sending, m: Message)
    requires m.channel <= 319
    ensures s.sent <= AfterSend(s, m, true).sent
    ensures forall x <- AfterSend(s, m, true).sent[|s.sent|..] :: x == m
    ensures AfterSend(s, m, true).room <= s.room
  {
    hide WireOf;
  }

  lemma PongBalances(b: Books, c: Books, ping: Message, now: uint32)
    requires IsPing(ping) && c == b.(sender := AfterSend(b.sender, Pong(ping, now), true))
    ensures Balances(b, c)
  {
    hide InStep, AfterSend, WindowOk, IsPing;
    SentIsMore(b.sender, Pong(ping, now));
    if InStep(b.sender) {
      SendKeepsStep(b.sender, Pong(ping, now));
    }
  }

  lemma BalancesIdle(b: Books)
    ensures Balances(b, b) && Steady(b, b)
  {
  }

  /** What a session has done with the messages it has read. */
  datatype Desk = OnDesk(delivered: seq<Message>, inbox: Inbox, taken: seq<seq<byte>>, takenFrames: seq<seq<byte>>)

  predicate QueuesOk(d: Desk) {
    QueuesKeep(d.taken, d.takenFrames, d.inbox, d.delivered)
  }

  /** A pass or a call dispatches the message it completes, if it completes one. */
  predicate Dispatches(d: Desk, e: Desk, beyond: Beyond) {
    && (e.delivered == d.delivered ==> e.inbox == d.inbox)
    && (e.delivered != d.delivered ==>
          e.delivered != [] && e.inbox == Dispatched(d.inbox, e.delivered[|e.delivered| - 1], beyond))
    && e.taken == d.taken && e.takenFrames == d.takenFrames
    && (QueuesOk(d) ==> QueuesOk(e))
  }

  /** A message changes the chunk size, or is a control message, or concerns the desk. */
  lemma OneEffect(i: Inbox, chunk: int, m: Message, beyond: Beyond)
    ensures m.packetType == CHUNK_SIZE_TYPE || m.packetType == CONTROL_TYPE ==> Dispatched(i, m, beyond) == i
    ensures m.packetType != CONTROL_TYPE ==> !IsPing(m)
    ensures m.packetType != CHUNK_SIZE_TYPE ==> ChunkAfter(chunk, m) == chunk
  {
  }

  lemma DeskIdle(d: Desk, beyond: Beyond)
    ensures Dispatches(d, d, beyond)
  {
  }

  /** What one pass takes from its surroundings: the time, and the memory behind a short payload. */
  datatype Env = Env(now: uint32, beyond: Beyond)

  /** What a pass met is what was to be expected, unless the socket has failed on the way. */
  predicate Meets(a: Arrival, met: Arrival, bad: bool) {
    met == a || (bad && met.fails)
  }

  predicate MeetsAll(arrivals: seq<Arrival>, met: seq<Arrival>, bad: bool) {
    |met| == |arrivals| && forall k :: 0 <= k < |met| ==> Meets(arrivals[k], met[k], bad)
  }

  /** So were the passes of a call so far. */
  predicate MeetsFirst(arrivals: seq<Arrival>, met: seq<Arrival>, bad: bool) {
    |met| <= |arrivals| && forall k :: 0 <= k < |met| ==> Meets(arrivals[k], met[k], bad)
  }

  lemma MetNothing(arrivals: seq<Arrival>, bad: bool)
    ensures MeetsFirst(arrivals, [], bad)
  {
  }

  lemma MetOneMore(arrivals: seq<Arrival>, met: seq<Arrival>, one: Arrival, wasBad: bool, bad: bool)
    requires MeetsFirst(arrivals, met, wasBad) && |met| < |arrivals| && (wasBad ==> bad)
    requires Meets(arrivals[|met|], one, bad)
    ensures MeetsFirst(arrivals, met + [one], bad)
  {
  }

  lemma MetInFull(arrivals: seq<Arrival>, met: seq<Arrival>, bad: bool)
    requires MeetsFirst(arrivals, met, bad)
    ensures MeetsAll(arrivals, met + arrivals[|met|..], bad)
  {
  }

  /** The passes `xs` of a call have led from one state of the loop to another, and the call goes on. */
  ghost predicate RanTo(from: Rx, wire: seq<byte>, xs: seq<Arrival>, rx: Rx)
    requires RxOk(from) && RxOk(rx)
  {
    forall ys :: RtmpReceiver.Update(from, wire, xs + ys) == RtmpReceiver.Update(rx, wire, ys)
  }

  lemma RanNothing(rx: Rx, wire: seq<byte>)
    requires RxOk(rx)
    ensures RanTo(rx, wire, [], rx)
  {
    forall ys: seq<Arrival>
      ensures RtmpReceiver.Update(rx, wire, [] + ys) == RtmpReceiver.Update(rx, wire, ys)
    {
      assert [] + ys == ys;
    }
  }

  lemma OnePass(rx: Rx, wire: seq<byte>, a: Arrival, ys: seq<Arrival>)
    requires RxOk(rx) && !rx.error
    ensures var r := Tick(rx, wire, a);
            RtmpReceiver.Update(rx, wire, [a] + ys) ==
            if r.delivered != rx.delivered then r else RtmpReceiver.Update(r, wire, ys)
  {
    hide Tick;
    assert ([a] + ys)[0] == a && ([a] + ys)[1..] == ys;
  }

  /** A pass that completes no message goes on. */
  lemma RanOn(from: Rx, wire: seq<byte>, xs: seq<Arrival>, rx: Rx, a: Arrival)
    requires RxOk(from) && RxOk(rx) && RanTo(from, wire, xs, rx) && !rx.error
    ensures var r := Tick(rx, wire, a); r.delivered == rx.delivered ==> RanTo(from, wire, xs + [a], r)
  {
    hide Tick, RtmpReceiver.Update;
    var r := Tick(rx, wire, a);
    if r.delivered == rx.delivered {
      forall ys: seq<Arrival>
        ensures RtmpReceiver.Update(from, wire, xs + [a] + ys) == RtmpReceiver.Update(r, wire, ys)
      {
        ConcatAssociative(xs, [a], ys);
        OnePass(rx, wire, a, ys);
      }
    }
  }

  /** One that completes a message is the last. */
  lemma RanDone(from: Rx, wire: seq<byte>, xs: seq<Arrival>, rx: Rx, a: Arrival, ys: seq<Arrival>)
    requires RxOk(from) && RxOk(rx) && RanTo(from, wire, xs, rx) && !rx.error
    ensures var r := Tick(rx, wire, a);
            r.delivered != rx.delivered ==> RtmpReceiver.Update(from, wire, xs + ([a] + ys)) == r
  {
    hide Tick, RtmpReceiver.Update;
    OnePass(rx, wire, a, ys);
  }

  /** So is any in error, and the end of the call. */
  lemma RanOut(from: Rx, wire: seq<byte>, xs: seq<Arrival>, rx: Rx, ys: seq<Arrival>)
    requires RxOk(from) && RxOk(rx) && RanTo(from, wire, xs, rx) && (rx.error || ys == [])
    ensures RtmpReceiver.Update(from, wire, xs + ys) == rx
  {
  }

  class Rtmp {
    var inChannels: InChannels
    var outChannels: OutChannels
    var incompletePacket: Option<Packet>
    var inChunkSize: int
    var outChunkSize: nat
    var bytesIn: nat
    var bytesInSent: nat
    var bandwidth: uint32
    var serverBandwidth: uint32
    var clientBW2: byte
    var mediaChannel: nat
    var messageQueue: seq<seq<byte>>
    var flvQueue: seq<seq<byte>>
    var connected: bool
    var error: bool
    const handShaker: Handshake.HandShaker
    // The messages dispatched, what has been taken of the queues, and the calls that have read.
    ghost var delivered: seq<Message>
    ghost var taken: seq<seq<byte>>
    ghost var takenFrames: seq<seq<byte>>
    ghost var history: seq<seq<Arrival>>
    // The acknowledgements, the messages sent in full so far, and the first one cut short.
    ghost var acks: nat
    ghost var sent: seq<Message>
    ghost var cut: Option<Message>
    // The socket: all bytes the peer ever sends, how many have been read, the bytes written, how
    // many more the socket takes, and whether it has failed at that; it may also stop quietly.
    const wire: seq<byte>
    const quiet: bool
    var pos: nat
    var written: seq<byte>
    var room: nat
    var bad: bool

    ghost predicate Valid()
      reads this`outChunkSize, this`pos, this`incompletePacket
    {
      && outChunkSize == OUT_CHUNK_SIZE && pos <= |wire|
      && (incompletePacket.Some? ==> incompletePacket.value.buffer.Some?)
    }

    ghost function Receiver(): Rx
      reads this`inChannels, this`inChunkSize, this`incompletePacket, this`delivered, this`pos, this`error
    {
      Rx(Core(inChannels, inChunkSize), incompletePacket, delivered, pos, error)
    }

    /** The receiver is where the calls so far have left it; a failed handshake may have raised the
        error flag besides. */
    ghost predicate Reads()
      reads this`inChannels, this`inChunkSize, this`incompletePacket, this`delivered, this`pos, this`error, this`history
    {
      var rx := Updates(Start(NEW_CORE), wire, history);
      Receiver() == rx.(error := error) && (rx.error ==> error)
    }

    ghost function Books(): Books
      reads this`outChannels, this`written, this`sent, this`cut, this`room
      reads this`bytesIn, this`bytesInSent, this`acks, this`pos, this`bandwidth
    {
      Account(Sending(outChannels, written, sent, cut, room), Window(bytesIn, bytesInSent, acks), pos, bandwidth)
    }

    ghost function Desk(): Desk
      reads this`taken, this`takenFrames, this`delivered
      reads this`messageQueue, this`flvQueue, this`bandwidth, this`serverBandwidth, this`clientBW2, this`mediaChannel
    {
      OnDesk(delivered, Inbox(messageQueue, flvQueue, bandwidth, serverBandwidth, clientBW2, mediaChannel),
             taken, takenFrames)
    }

    /** How far the peer's bytes are visible to a reader, if the socket has not failed. */
    ghost function Seen(seen: nat): nat
      reads this`bad, this`pos
    {
      if bad then pos else seen
    }

    constructor (wire: seq<byte>, room: nat, quiet: bool, handShaker: Handshake.HandShaker)
      ensures Valid() && this.wire == wire && this.quiet == quiet && this.handShaker == handShaker && !bad
      ensures Receiver() == Start(NEW_CORE) && Reads() && history == []
      ensures Books().sender == Sending(map[], [], [], None, room) && InStep(Books().sender) && !connected
      ensures QueuesOk(Desk()) && taken == takenFrames == []
      ensures bandwidth == 2500000 && WindowOk(Books().window, bandwidth)
    {
      inChannels, outChannels, incompletePacket := map[], map[], None;
      inChunkSize, outChunkSize := 128, OUT_CHUNK_SIZE;
      bytesIn, bytesInSent, bandwidth, serverBandwidth := 0, 0, 2500000, 2500000;
      clientBW2, mediaChannel, messageQueue, flvQueue := 2, 0, [], [];
      connected, error := false, false;
      delivered, taken, takenFrames, history := [], [], [], [];
      acks, sent, cut := 0, [], None;
      this.wire, pos, written, this.room := wire, 0, [], room;
      this.quiet, bad := quiet, false;
      this.handShaker := handShaker;
      new;
      FreshSender(room);
    }

    // ----- Sending

    method WriteSocket(bytes: seq<byte>) returns (n: nat)
      modifies this`written, this`room, this`bad
      ensures n == Min(|bytes|, old(room)) && room == old(room) - n
      ensures written == old(written) + bytes[..n] && bad == (old(bad) || (n < |bytes| && !quiet))
    {
      n := Min(|bytes|, room);
      written := written + bytes[..n];
      room := room - n;
      if n < |bytes| && !quiet {
        bad := true;
      }
    }

    method PutInt24(buffer: array<byte>, ghost start: nat, at: nat, v: nat) returns (next: nat)
      requires start <= at && at + 3 <= HEADER_SIZE <= buffer.Length
      modifies buffer
      ensures next == at + 3 && buffer[start..next] == old(buffer[start..at]) + Encode24(v)
      ensures buffer[HEADER_SIZE..] == old(buffer[HEADER_SIZE..])
    {
      buffer[at + 2] := v % 0x100;
      buffer[at + 1] := v / 0x100 % 0x100;
      buffer[at] := v / 0x1_0000 % 0x100;
      next := at + 3;
    }

    method PutInt32LE(buffer: array<byte>, ghost start: nat, at: nat, v: nat) returns (next: nat)
      requires start <= at && at + 4 <= HEADER_SIZE <= buffer.Length
      modifies buffer
      ensures next == at + 4 && buffer[start..next] == old(buffer[start..at]) + Encode32LE(v)
      ensures buffer[HEADER_SIZE..] == old(buffer[HEADER_SIZE..])
    {
      buffer[at] := v % 0x100;
      buffer[at + 1] := v / 0x100 % 0x100;
      buffer[at + 2] := v / 0x1_0000 % 0x100;
      buffer[at + 3] := v / 0x100_0000 % 0x100;
      next := at + 4;
    }

    method PutByte(buffer: array<byte>, ghost start: nat, at: nat, b: byte) returns (next: nat)
      requires start <= at < HEADER_SIZE <= buffer.Length
      modifies buffer
      ensures next == at + 1 && buffer[start..next] == old(buffer[start..at]) + [b]
      ensures buffer[HEADER_SIZE..] == old(buffer[HEADER_SIZE..])
    {
      buffer[at] := b;
      next := at + 1;
    }

    /** Writes the type and channel of a header; `code` is the byte that continuation headers
        repeat with the type raised to minimum. */
    method PutBasic(buffer: array<byte>, at: nat, t: HeaderType, channel: nat) returns (next: nat)
      requires channel <= 319 && at + (if channel > 63 then 2 else 1) <= HEADER_SIZE <= buffer.Length
      modifies buffer
      ensures next == at + |EncodeBasic(t, channel)| && buffer[at..next] == EncodeBasic(t, channel)
      ensures buffer[HEADER_SIZE..] == old(buffer[HEADER_SIZE..])
    {
      buffer[at] := 64 * TypeCode(t) + if channel > 63 then 0 else channel;
      next := at + 1;
      if channel > 63 {
        buffer[next] := (channel - 64) % 0x100;
        next := next + 1;
      }
    }

    /** Writes a header so that it ends where the payload begins. */
    method PutHead(buffer: array<byte>, h: Header) returns (start: nat)
      requires buffer.Length >= HEADER_SIZE && h.channel <= 319
      modifies buffer
      ensures start < HEADER_SIZE && buffer[start..HEADER_SIZE] == EncodeHead(h)
      ensures buffer[HEADER_SIZE..] == old(buffer[HEADER_SIZE..])
    {
      hide EncodeBasic, Encode24, Encode32LE;
      var channelSize := if h.channel > 63 then 1 else 0;
      var size := FieldSize(h.headerType) + 1;
      start := HEADER_SIZE - size - channelSize;
      if h.headerType.Large? && h.timestamp >= EXTENDED {
        start := start - 4;
      }
      var at := PutBasic(buffer, start, h.headerType, h.channel);
      ghost var done := EncodeBasic(h.headerType, h.channel);
      ghost var fields := [];
      if h.headerType.Large? && h.timestamp >= EXTENDED {
        at := PutInt24(buffer, start, at, EXTENDED);
        fields := Encode24(EXTENDED);
      } else if !h.headerType.Minimum? {
        at := PutInt24(buffer, start, at, h.timestamp);
        fields := Encode24(h.timestamp);
      }
      assert buffer[start..at] == done + fields;
      if size > 4 {
        at := PutInt24(buffer, start, at, h.dataSize);
        at := PutByte(buffer, start, at, h.packetType);
        ConcatAssociative(done + fields, Encode24(h.dataSize), [h.packetType]);
        ConcatAssociative(done, fields, Encode24(h.dataSize) + [h.packetType]);
        fields := fields + (Encode24(h.dataSize) + [h.packetType]);
      }
      assert buffer[start..at] == done + fields;
      if h.headerType.Large? {
        at := PutInt32LE(buffer, start, at, h.streamId);
        ConcatAssociative(done, fields, Encode32LE(h.streamId));
        ConcatAssociative(fields[..3], Encode24(h.dataSize) + [h.packetType], Encode32LE(h.streamId));
        fields := fields + Encode32LE(h.streamId);
      }
      assert buffer[start..at] == done + fields;
      assert fields == EncodeFields(h);
      if h.headerType.Large? && h.timestamp >= EXTENDED {
        at := PutInt32LE(buffer, start, at, h.timestamp);
      }
    }

    /** Writes the header that ends at `HEADER_SIZE` and the payload behind it in chunks. Before
        each further chunk a minimal header is put over payload that has already been sent. */
    method WriteChunks(buffer: array<byte>, start: nat, channel: nat) returns (ok: bool)
      requires Valid() && start < HEADER_SIZE <= buffer.Length && channel <= 319
      modifies this`written, this`room, this`bad, buffer
      ensures var whole := old(buffer[start..HEADER_SIZE]) +
                           Tail(EncodeBasic(Minimum, channel), old(buffer[HEADER_SIZE..]), outChunkSize);
              && ok == (old(room) >= |whole|)
              && written <= old(written) + whole && |written| == |old(written)| + Min(|whole|, old(room))
      ensures |written| + room == |old(written)| + old(room) && bad == (old(bad) || (!ok && !quiet))
      ensures var keep := HEADER_SIZE + Kept(buffer.Length - HEADER_SIZE);
              buffer[HEADER_SIZE..keep] == old(buffer[HEADER_SIZE..keep])
    {
      hide EncodeBasic, Tail;
      ghost var payload := buffer[HEADER_SIZE..];
      ghost var basic := EncodeBasic(Minimum, channel);
      ghost var whole := buffer[start..HEADER_SIZE] + Tail(basic, payload, outChunkSize);
      ghost var total := written + whole;
      ConcatAssociative(written, buffer[start..HEADER_SIZE], Tail(basic, payload, outChunkSize));
      ghost var pending, rest := buffer[start..HEADER_SIZE], payload;
      ghost var keep := HEADER_SIZE + Kept(|payload|);
      var channelSize := if channel > 63 then 1 else 0;
      var nSize: nat := buffer.Length - HEADER_SIZE;
      var chunk := outChunkSize;
      var at: nat, head: Option<nat>, hSize: nat := HEADER_SIZE, Some(start), HEADER_SIZE - start;
      while nSize + hSize > 0
        invariant nSize == |rest| <= |payload| && at == buffer.Length - nSize && buffer[at..] == rest
        invariant HeadPending(buffer, head, hSize, at, pending)
        invariant chunk == outChunkSize || nSize == 0
        invariant at == HEADER_SIZE || at >= HEADER_SIZE + 128 || nSize == 0
        invariant total == written + pending + Tail(basic, rest, outChunkSize)
        invariant |written| + room == |old(written)| + old(room) && bad == old(bad)
        invariant buffer[HEADER_SIZE..keep] == payload[..keep - HEADER_SIZE]
        decreases nSize, hSize
      {
        if nSize < chunk {
          chunk := nSize;
        }
        ok := WritePart(buffer, head, hSize, at, chunk, pending, total, basic);
        if !ok {
          return;
        }
        pending := if rest[chunk..] == [] then [] else basic;
        rest := rest[chunk..];
        head, hSize := None, 0;
        nSize := nSize - chunk;
        at := at + chunk;
        if nSize > 0 {
          hSize := 1 + channelSize;
          head := Some(at - hSize);
          PutContinuation(buffer, at, channel, keep);
        }
      }
      NoTail(basic, outChunkSize);
      ok := true;
    }

    ghost predicate HeadPending(buffer: array<byte>, head: Option<nat>, hSize: nat, at: nat, pending: seq<byte>)
      requires at <= buffer.Length
      reads buffer
    {
      match head
      case None => hSize == 0 && pending == []
      case Some(start) => hSize > 0 && start + hSize == at && buffer[start..at] == pending
    }

    /** One write of the loop: a pending header with the chunk behind it, or the chunk alone.
        `total` is everything that will have been written in the end. */
    method WritePart(buffer: array<byte>, head: Option<nat>, hSize: nat, at: nat, chunk: nat,
                     ghost pending: seq<byte>, ghost total: seq<byte>, ghost basic: seq<byte>)
      returns (ok: bool)
      requires Valid() && at <= buffer.Length && HeadPending(buffer, head, hSize, at, pending)
      requires chunk == Min(buffer.Length - at, outChunkSize)
      requires total == written + pending + Tail(basic, buffer[at..], outChunkSize)
      modifies this`written, this`room, this`bad
      ensures |written| + room == |old(written)| + old(room) && bad == (old(bad) || (!ok && !quiet))
      ensures !ok ==> written <= total && room == 0 && |written| < |total|
      ensures ok ==> total == written + (if at + chunk == buffer.Length then [] else basic) +
                              Tail(basic, buffer[at + chunk..], outChunkSize)
    {
      hide Tail;
      ghost var sent, rest := written, buffer[at..];
      ghost var part := pending + rest[..chunk];
      TailAdvance(total, sent, pending, basic, rest, outChunkSize);
      SliceOfSlice(buffer[..], at, buffer.Length, 0, chunk);
      SliceOfSlice(buffer[..], at, buffer.Length, chunk, buffer.Length - at);
      assert rest == buffer[..][at..buffer.Length];
      assert rest[chunk..] == buffer[at + chunk..] && rest[..chunk] == buffer[at..at + chunk];
      var n;
      if head.Some? {
        assert buffer[head.value..at + chunk] == part;
        n := WriteSocket(buffer[head.value..head.value + hSize + chunk]);
      } else {
        assert buffer[at..at + chunk] == part;
        n := WriteSocket(buffer[at..at + chunk]);
      }
      CutShort(total, sent, part, n);
      ok := n == hSize + chunk;
      assert part[..|part|] == part;
    }

    /** Puts a minimal header over the bytes before `at`. */
    method PutContinuation(buffer: array<byte>, at: nat, channel: nat, ghost keep: nat)
      requires channel <= 319 && HEADER_SIZE <= keep <= at - |EncodeBasic(Minimum, channel)| <= at <= buffer.Length
      modifies buffer
      ensures var n := |EncodeBasic(Minimum, channel)|;
              HeadPending(buffer, Some(at - n), n, at, EncodeBasic(Minimum, channel))
      ensures buffer[HEADER_SIZE..keep] == old(buffer[HEADER_SIZE..keep]) && buffer[at..] == old(buffer[at..])
    {
      var channelSize := if channel > 63 then 1 else 0;
      var head := at - 1 - channelSize;
      buffer[head] := 0xc0 + if channel > 63 then 0 else channel;
      if channel > 63 {
        buffer[head + 1] := (channel - 64) % 0x100;
      }
    }

    /** The smallest header that the channel allows, starting from a large one. */
    method PickHeader(header: Header, size: nat, now: uint32, ghost m: Message) returns (hr: Header)
      requires header.headerType.Large? && size == |m.payload|
      requires m.channel == header.channel && m.packetType == header.packetType
      requires m.streamId == header.streamId && m.time == now
      ensures hr == ChooseHeader(Lookup(outChannels, m.channel), m)
      ensures hr.channel == header.channel && hr.packetType == header.packetType
    {
      hr := header.(dataSize := size);
      if hr.channel !in outChannels {
        hr := hr.(timestamp := now);
      } else {
        var last := outChannels[hr.channel];
        if now >= last.timestamp && now - last.timestamp < EXTENDED {
          hr := hr.(headerType := Medium, timestamp := now - last.timestamp);
          if last.dataSize == hr.dataSize && last.packetType == hr.packetType {
            hr := hr.(headerType := Small);
            if hr.timestamp == 0 {
              hr := hr.(headerType := Minimum);
            }
          }
        } else {
          hr := hr.(timestamp := now);
        }
      }
    }

    /** Puts the header of a message before its payload and writes its chunks, as far as there is
        room. The first bytes of the payload stay in the buffer. */
    method SendChunks(buffer: array<byte>, hr: Header, ghost m: Message) returns (ok: bool)
      requires Valid() && buffer.Length >= HEADER_SIZE && m.payload == buffer[HEADER_SIZE..]
      requires m.channel <= 319 && hr == ChooseHeader(Lookup(outChannels, m.channel), m) && hr.channel == m.channel
      modifies this`written, this`room, this`bad, buffer
      ensures var whole := WireOf(outChannels, m);
              var n := Min(|whole|, old(room));
              && ok == (old(room) >= |whole|)
              && written == old(written) + whole[..n] && room == old(room) - n
              && bad == (old(bad) || (!ok && !quiet))
      ensures var keep := HEADER_SIZE + Kept(|m.payload|);
              buffer[HEADER_SIZE..keep] == m.payload[..keep - HEADER_SIZE]
    {
      hide Tail, MessageChunks, Flatten, EncodeHead, EncodeBasic, ChooseHeader;
      ghost var before, space := written, room;
      WireIsHeadAndTail(hr, m.payload, outChunkSize);
      var start := PutHead(buffer, hr);
      ok := WriteChunks(buffer, start, hr.channel);
      WrittenSoFar(before, WireOf(outChannels, m), space, written);
    }

    /** Sends the payload of `buffer` under the smallest header that the channel allows. What goes
        out is the message's chunks, as far as there is room; the channel memory moves on only if
        all of it did. */
    method SendPacket(header: Header, buffer: array<byte>, now: uint32) returns (r: SendResult)
      requires Valid() && buffer.Length >= HEADER_SIZE
      requires header.headerType.Large? && header.channel <= 319
      requires header.packetType == INVOKE_TYPE ==>
                 buffer.Length > HEADER_SIZE && buffer[HEADER_SIZE] == STRING_TAG
      modifies this`outChannels, this`written, this`room, this`bad, this`sent, this`cut, buffer
      ensures Valid()
      ensures var m := MessageToSend(header, old(buffer[HEADER_SIZE..]), now);
              var named := header.packetType == INVOKE_TYPE ==> NamesMethod(m.payload);
              && Books().sender == AfterSend(old(Books()).sender, m, named)
              && r == (if old(room) < |WireOf(old(outChannels), m)| then WriteFailed
                       else if !named then BadInvoke else Sent)
      ensures InStep(old(Books()).sender) ==> (InStep(Books().sender) <==> !r.BadInvoke?)
      ensures bad == (old(bad) || (r.WriteFailed? && !quiet))
    {
      hide WireOf, InStep, ChooseHeader, Kept;
      ghost var payload := buffer[HEADER_SIZE..];
      ghost var m := MessageToSend(header, payload, now);
      ghost var before := Books().sender;
      if InStep(before) {
        SendKeepsStepIff(before, m, header.packetType == INVOKE_TYPE ==> NamesMethod(payload));
      }
      var hr := PickHeader(header, buffer.Length - HEADER_SIZE, now, m);
      var ok := SendChunks(buffer, hr, m);
      if !ok {
        cut := if cut.None? then Some(m) else cut;
        return WriteFailed;
      }
      assert WireOf(before.out, m)[..|WireOf(before.out, m)|] == WireOf(before.out, m);
      if hr.packetType == INVOKE_TYPE {
        var named := ReadsMethodName(buffer, payload);
        if !named {
          return BadInvoke;
        }
      }
      outChannels := outChannels[hr.channel := hr.(timestamp := now)];
      sent := sent + [m];
      return Sent;
    }

    /** Reads back the name in the payload of an invocation, after its chunks went out. */
    method ReadsMethodName(buffer: array<byte>, ghost payload: seq<byte>) returns (named: bool)
      requires buffer.Length == HEADER_SIZE + |payload|
      requires var k := Kept(|payload|); buffer[HEADER_SIZE..HEADER_SIZE + k] == payload[..k]
      ensures named == NamesMethod(payload)
    {
      var size := buffer.Length - HEADER_SIZE;
      if size < 3 {
        return false;
      }
      ghost var k := Kept(|payload|);
      assert buffer[HEADER_SIZE..HEADER_SIZE + k][1] == payload[..k][1];
      assert buffer[HEADER_SIZE..HEADER_SIZE + k][2] == payload[..k][2];
      var length := Decode16([buffer[HEADER_SIZE + 1], buffer[HEADER_SIZE + 2]]);
      return length <= size - 3;
    }

    /** Sends a message of the session's own on its control channel. */
    method SendControl(packetType: byte, payload: seq<byte>, now: uint32)
      requires Valid() && packetType != INVOKE_TYPE
      modifies this`outChannels, this`written, this`room, this`bad, this`sent, this`cut
      ensures Valid() && (old(bad) ==> bad)
      ensures Books().sender ==
              AfterSend(old(Books()).sender, Message(CONTROL_CHANNEL, packetType, 0, now, payload), true)
      ensures InStep(old(Books()).sender) ==> InStep(Books().sender)
    {
      hide AfterSend, InStep;
      var buffer := new byte[HEADER_SIZE + |payload|](_ => 0);
      forall i | 0 <= i < |payload| {
        buffer[HEADER_SIZE + i] := payload[i];
      }
      assert buffer[HEADER_SIZE..] == payload;
      var r := SendPacket(Header(Large, packetType, 0, 0, CONTROL_CHANNEL, 0), buffer, now);
    }

    /** Acknowledges what has been read so far. */
    method SendBytesReceived(now: uint32)
      requires Valid()
      modifies this`bytesInSent, this`acks, this`outChannels, this`written, this`room, this`bad, this`sent, this`cut
      ensures Valid() && bytesInSent == bytesIn && acks == old(acks) + 1 && (old(bad) ==> bad)
      ensures Books().sender == AfterSend(old(Books()).sender, AckMessage(bytesIn, now), true)
      ensures InStep(old(Books()).sender) ==> InStep(Books().sender)
    {
      hide AfterSend, InStep;
      bytesInSent := bytesIn;
      acks := acks + 1;
      SendControl(BYTES_READ_TYPE, Encode32(bytesIn), now);
    }

    // ----- Receiving

    /** Reads `n` bytes or none, and acknowledges when enough have come in. A failed socket, or one
        that fails for want of bytes, raises the error flag. */
    method ReadSocket(n: nat, seen: nat, fails: bool, now: uint32) returns (got: nat, data: seq<byte>)
      requires Valid()
      modifies this`pos, this`error, this`bytesIn, this`bytesInSent, this`acks
      modifies this`outChannels, this`written, this`room, this`bad, this`sent, this`cut
      ensures Valid() && Steady(old(Books()), Books()) && (old(bad) ==> bad)
      ensures var w := Visible(wire, old(pos), old(Seen(seen)));
              && got == (if |w| >= n then n else 0) && data == w[..got] && pos == old(pos) + got
              && error == (old(error) || Misses(w, n, fails || old(bad)))
      ensures Books().window == AfterRead(old(Books()).window, got, bandwidth)
      ensures Books().sender == if acks == old(acks) then old(Books()).sender
                                else AfterSend(old(Books()).sender, AckMessage(bytesIn, now), true)
      ensures acks == old(acks) ==> bad == old(bad)
      ensures got > 0 ==> bytesIn - bytesInSent <= bandwidth / 2
    {
      hide InStep, AfterSend, WindowOk, Balances;
      ghost var before := Books();
      BalancesIdle(before);
      if bad {
        error := true;
        return 0, [];
      }
      var w := Visible(wire, pos, seen);
      if (|w| < n || w == []) && fails {
        error := true;
        return 0, [];
      }
      if |w| < n {
        return 0, [];
      }
      got, data := n, w[..n];
      pos := pos + n;
      if got == 0 {
        return;
      }
      bytesIn := bytesIn + got;
      ReadBalances(before, Books(), n, now);
      if bytesIn > bytesInSent + bandwidth / 2 {
        SendBytesReceived(now);
      }
    }

    /** One part of a header, all of it or nothing. */
    method ReadPart(n: nat, seen: nat, fails: bool, now: uint32) returns (ok: bool, part: seq<byte>)
      requires Valid() && n > 0
      modifies this`pos, this`error, this`bytesIn, this`bytesInSent, this`acks
      modifies this`outChannels, this`written, this`room, this`bad, this`sent, this`cut
      ensures Valid() && Steady(old(Books()), Books()) && (old(bad) ==> bad)
      ensures ok == (old(pos) + n <= Min(Seen(seen), |wire|))
      ensures if ok then pos == old(pos) + n && part == wire[old(pos)..pos] else pos == old(pos) && bad == old(bad)
      ensures error == (old(error) || ((fails || bad) && !ok))
    {
      hide Balances, AfterSend;
      var got;
      got, part := ReadSocket(n, seen, fails, now);
      ok := got == n;
    }

    /** The extended timestamp, if the packet needs one; `start` is where the header starts. */
    method ReadExtendedTime(packet: Packet, t: HeaderType, seen: nat, fails: bool, now: uint32, ghost start: nat)
      returns (ok: bool, read: Packet)
      requires Valid() && start <= pos <= Min(Seen(seen), |wire|)
      modifies this`pos, this`error, this`bytesIn, this`bytesInSent, this`acks
      modifies this`outChannels, this`written, this`room, this`bad, this`sent, this`cut
      ensures Valid() && Steady(old(Books()), Books()) && (old(bad) ==> bad)
      ensures old(pos) <= pos <= Min(Seen(seen), |wire|)
      ensures var r := ReadExtended(packet, t, Visible(wire, start, Seen(seen)), old(pos) - start);
              && ok == r.Head? && (ok ==> read == r.packet)
              && pos == start + r.consumed
              && error == (old(error) || ((fails || bad) && !ok))
    {
      hide Balances, AfterSend, Books;
      BalancesIdle(Books());
      ghost var from := pos;
      ok, read := true, packet;
      if packet.header.timestamp == EXTENDED {
        var part;
        ok, part := ReadPart(4, seen, fails, now);
        if ok {
          VisibleSlice(wire, start, Seen(seen), from - start, pos - start);
          read := RawPacket.Packet(packet.header.(timestamp := Decode32(part)), packet.buffer);
        }
      }
      if ok {
        read := WithBuffer(read, t);
      }
    }

    /** The rest of a header whose first bytes, from `start` on, gave its type and channel. */
    method ReadPacketFields(t: HeaderType, channel: nat, seen: nat, fails: bool, now: uint32, ghost start: nat)
      returns (ok: bool, packet: Packet)
      requires Valid() && start <= pos <= Min(Seen(seen), |wire|)
      modifies this`pos, this`error, this`bytesIn, this`bytesInSent, this`acks
      modifies this`outChannels, this`written, this`room, this`bad, this`sent, this`cut
      ensures Valid() && Steady(old(Books()), Books()) && (old(bad) ==> bad)
      ensures old(pos) <= pos <= Min(Seen(seen), |wire|)
      ensures var r := ReadFields(inChannels, t, channel, Visible(wire, start, Seen(seen)), old(pos) - start);
              && ok == r.Head? && (ok ==> packet == r.packet)
              && pos == start + r.consumed
              && error == (old(error) || ((fails || bad) && r.Failed? && r.missing))
    {
      hide Balances, AfterSend, DecodeFields, Books, Visible, ReadExtended;
      ghost var before, from := Books(), pos;
      BalancesIdle(before);
      packet := RawPacket.Packet(Header(t, 0, 0, 0, channel, 0), Some([]));
      VisibleSlice(wire, start, Seen(seen), from - start, from - start);
      if !t.Large? {
        if channel !in inChannels {
          return false, packet;
        }
        packet := inChannels[channel];
      }
      var fields: seq<byte> := [];
      ok := true;
      if FieldSize(t) > 0 {
        ok, fields := ReadPart(FieldSize(t), seen, fails, now);
        VisibleSlice(wire, start, Seen(seen), from - start, pos - start);
        if !ok {
          return false, packet;
        }
      }
      ghost var between, behind := Books(), pos;
      assert fields == wire[from..behind];
      packet := DecodeFields(packet, t, fields);
      ok, packet := ReadExtendedTime(packet, t, seen, fails, now, start);
      BalancesTwice(before, between, Books());
      VisibleSlice(wire, start, Seen(seen), from - start, behind - start);
    }

    /** The rest of a channel number of which `first` is the first byte. */
    method ReadChannelBytes(first: byte, seen: nat, fails: bool, now: uint32, ghost start: nat)
      returns (ok: bool, channel: nat)
      requires Valid() && pos == start + 1 <= Min(Seen(seen), |wire|) && first == wire[start]
      modifies this`pos, this`error, this`bytesIn, this`bytesInSent, this`acks
      modifies this`outChannels, this`written, this`room, this`bad, this`sent, this`cut
      ensures Valid() && Steady(old(Books()), Books()) && (old(bad) ==> bad)
      ensures start + 1 <= pos <= Min(Seen(seen), |wire|) && Visible(wire, start, Seen(seen)) != []
      ensures var (read, n) := ReadChannel(Visible(wire, start, Seen(seen)));
              && pos == start + n && ok == read.Some? && (ok ==> channel == read.value)
              && error == (old(error) || ((fails || bad) && !ok))
    {
      hide Balances, AfterSend, Books;
      BalancesIdle(Books());
      channel := first % 64;
      ok := true;
      var part;
      if channel == 0 {
        ok, part := ReadPart(1, seen, fails, now);
        channel := if ok then 64 + (part[0] as int) else channel;
      } else if channel == 1 {
        ok, part := ReadPart(2, seen, fails, now);
        channel := if ok then 0x100 * (part[1] as int) + part[0] + 64 else channel;
      }
    }

    /** Reads a header, part by part. The first part may be missing; if a later one is, the parts
        before it are lost. */
    method ReadPacketHeader(seen: nat, fails: bool, now: uint32) returns (ok: bool, packet: Packet)
      requires Valid()
      modifies this`pos, this`error, this`bytesIn, this`bytesInSent, this`acks
      modifies this`outChannels, this`written, this`room, this`bad, this`sent, this`cut
      ensures Valid() && Steady(old(Books()), Books()) && (old(bad) ==> bad)
      ensures var r := ReadHead(inChannels, Visible(wire, old(pos), Seen(seen)));
              && ok == r.Head? && (ok ==> packet == r.packet)
              && pos == old(pos) + r.consumed
              && error == (old(error) || ((fails || bad) && r.Failed? && r.missing))
    {
      hide Balances, AfterSend, ReadHead, ReadFields, ReadChannel, Books, Visible;
      packet := RawPacket.Packet(Header(Large, 0, 0, 0, 0, 0), Some([]));
      ghost var start, before := pos, Books();
      var part;
      ok, part := ReadPart(1, seen, fails, now);
      VisibleLength(wire, start, Seen(seen));
      HeadByChannel(inChannels, Visible(wire, start, Seen(seen)));
      if !ok {
        return false, packet;
      }
      ghost var behindFirst := Books();
      var channel;
      ok, channel := ReadChannelBytes(part[0], seen, fails, now, start);
      BalancesTwice(before, behindFirst, Books());
      ghost var v := Visible(wire, start, Seen(seen));
      VisibleSlice(wire, start, Seen(seen), 0, pos - start);
      if ok {
        ghost var behindChannel, from := Books(), pos;
        ok, packet := ReadPacketFields(TypeOfCode(part[0] / 64), channel, seen, fails, now, start);
        BalancesTwice(before, behindChannel, Books());
        VisibleSlice(wire, start, Seen(seen), 0, from - start);
        SameChannel(v, Visible(wire, start, Seen(seen)), from - start);
      }
      FirstVisible(wire, start, Seen(seen));
      HeadByChannel(inChannels, Visible(wire, start, Seen(seen)));
    }

    /** Reads the next part of a packet's payload, all of it or nothing. */
    method ReadPacketPayload(packet: Packet, seen: nat, fails: bool, now: uint32) returns (ok: bool, read: Packet)
      requires Valid() && inChunkSize >= 0 && packet.buffer.Some?
      modifies this`pos, this`error, this`bytesIn, this`bytesInSent, this`acks
      modifies this`outChannels, this`written, this`room, this`bad, this`sent, this`cut
      ensures Valid() && Steady(old(Books()), Books()) && (old(bad) ==> bad)
      ensures var n := Expected(packet, inChunkSize);
              var w := Visible(wire, old(pos), if bad then pos else seen);
              && ok == (|w| >= n)
              && (ok ==> read == Extended(packet, w[..n]) && pos == old(pos) + n)
              && (!ok ==> read == packet && pos == old(pos))
              && error == (old(error) || Misses(w, n, fails || bad))
    {
      hide Balances, AfterSend, Visible;
      ghost var from, expected := pos, Seen(seen);
      var nToRead := packet.header.dataSize - BytesRead(packet);
      var nChunk := Min(nToRead, inChunkSize);
      VisibleLength(wire, from, expected);
      var got, data := ReadSocket(nChunk, seen, fails, now);
      VisibleLength(wire, from, if bad then pos else seen);
      ok := got == nChunk;
      if ok && nChunk > 0 {
        VisibleSlice(wire, from, expected, 0, nChunk);
        VisibleSlice(wire, from, if bad then pos else seen, 0, nChunk);
      }
      read := if ok then Extended(packet, data) else packet;
    }

    /** Dispatches a complete packet: to a queue, to a setting, or to an answer. */
    method HandlePacket(packet: Packet, env: Env)
      requires Valid() && packet.buffer.Some?
      modifies this`delivered, this`inChunkSize, this`messageQueue, this`flvQueue, this`mediaChannel
      modifies this`bandwidth, this`serverBandwidth, this`clientBW2
      modifies this`outChannels, this`written, this`room, this`bad, this`sent, this`cut
      ensures Valid() && delivered == old(delivered) + [MessageOf(packet)] && (old(bad) ==> bad)
      ensures inChunkSize == ChunkAfter(old(inChunkSize), MessageOf(packet))
      ensures Desk().inbox == Dispatched(old(Desk()).inbox, MessageOf(packet), env.beyond)
      ensures Books().sender ==
              if IsPing(MessageOf(packet)) then AfterSend(old(Books()).sender, Pong(MessageOf(packet), env.now), true)
              else old(Books()).sender
      ensures Balances(old(Books()), Books()) && (QueuesOk(old(Desk())) ==> QueuesOk(Desk()))
    {
      hide Balances, Books, AfterSend, InStep, Dispatched, IsPing, ChunkAfter, QueuesKeep, Pong;
      ghost var m := MessageOf(packet);
      if QueuesOk(Desk()) {
        DispatchKeepsQueues(taken, takenFrames, Desk().inbox, delivered, m, env.beyond);
      }
      BalancesIdle(Books());
      OneEffect(Desk().inbox, inChunkSize, m, env.beyond);
      delivered := delivered + [m];
      if packet.header.packetType == CHUNK_SIZE_TYPE {
        HandleChangeChunkSize(packet.buffer.value, m);
      } else if packet.header.packetType == CONTROL_TYPE {
        HandleControl(packet.buffer.value, env.now, m);
      } else {
        HandleOther(packet.header.packetType, packet.buffer.value, packet.header.channel, env.beyond, m);
      }
    }

    /** Queues a payload or makes a setting. */
    method HandleOther(t: byte, payload: seq<byte>, channel: nat, beyond: Beyond, ghost m: Message)
      requires m.packetType == t && m.payload == payload && m.channel == channel
      modifies this`messageQueue, this`flvQueue, this`mediaChannel, this`bandwidth, this`serverBandwidth, this`clientBW2
      ensures Desk().inbox == Dispatched(old(Desk()).inbox, m, beyond)
      ensures Books().sender == old(Books()).sender && Balances(old(Books()), Books())
    {
      hide InStep, WindowOk;
      if t == SERVERBW_TYPE {
        serverBandwidth := Decode32(payload + beyond);
      } else if t == CLIENTBW_TYPE {
        bandwidth := Decode32(payload + beyond);
        clientBW2 := if |payload| > 4 then payload[4] else 0xff;
      } else if t == AUDIO_TYPE || t == VIDEO_TYPE {
        if mediaChannel == 0 {
          mediaChannel := channel;
        }
      } else if t == FLEX_MESSAGE_TYPE || t == INVOKE_TYPE {
        messageQueue := messageQueue + [payload];
      } else if t == FLV_TYPE {
        flvQueue := flvQueue + [payload];
      }
    }

    method HandleChangeChunkSize(payload: seq<byte>, ghost m: Message)
      requires m.packetType == CHUNK_SIZE_TYPE && m.payload == payload
      modifies this`inChunkSize
      ensures inChunkSize == ChunkAfter(old(inChunkSize), m)
    {
      if |payload| >= 4 {
        inChunkSize := AsInt32(Decode32(payload));
      }
    }

    /** Answers a ping; the other control messages have no effect. */
    method HandleControl(payload: seq<byte>, now: uint32, ghost m: Message)
      requires Valid() && m.packetType == CONTROL_TYPE && m.payload == payload
      modifies this`outChannels, this`written, this`room, this`bad, this`sent, this`cut
      ensures Valid() && (old(bad) ==> bad)
      ensures Books().sender ==
              if IsPing(m) then AfterSend(old(Books()).sender, Pong(m, now), true) else old(Books()).sender
      ensures Balances(old(Books()), Books())
    {
      hide InStep, AfterSend, Balances;
      ghost var before := Books();
      BalancesIdle(before);
      if |payload| < 2 {
        return;
      }
      var t := Decode16(payload);
      if |payload| < 6 {
        return;
      }
      var arg := Decode32(payload[2..]);
      if t == CONTROL_PING {
        SameBytes(payload[2..]);
        assert payload[2..][..4] == payload[2..6];
        SendControl(CONTROL_TYPE, Encode16(CONTROL_PONG) + Encode32(arg), now);
        PongBalances(before, Books(), m, now);
      }
    }

    /** The oldest message in the queue, if there is one. */
    method GetMessage() returns (r: Option<seq<byte>>)
      modifies this`messageQueue, this`taken
      ensures old(messageQueue) == [] ==> r == None && messageQueue == [] && taken == old(taken)
      ensures old(messageQueue) != [] ==>
                r.Some? && old(messageQueue) == [r.value] + messageQueue && taken == old(taken) + [r.value]
      ensures QueuesOk(old(Desk())) ==> QueuesOk(Desk())
    {
      if messageQueue == [] {
        return None;
      }
      var front := messageQueue[0];
      ConcatAssociative(taken, [front], messageQueue[1..]);
      assert messageQueue == [front] + messageQueue[1..];
      messageQueue := messageQueue[1..];
      taken := taken + [front];
      return Some(front);
    }

    /** The oldest frame in the queue, if there is one. */
    method GetFLVFrame() returns (r: Option<seq<byte>>)
      modifies this`flvQueue, this`takenFrames
      ensures old(flvQueue) == [] ==> r == None && flvQueue == [] && takenFrames == old(takenFrames)
      ensures old(flvQueue) != [] ==>
                r.Some? && old(flvQueue) == [r.value] + flvQueue && takenFrames == old(takenFrames) + [r.value]
      ensures QueuesOk(old(Desk())) ==> QueuesOk(Desk())
    {
      if flvQueue == [] {
        return None;
      }
      var front := flvQueue[0];
      ConcatAssociative(takenFrames, [front], flvQueue[1..]);
      assert flvQueue == [front] + flvQueue[1..];
      flvQueue := flvQueue[1..];
      takenFrames := takenFrames + [front];
      return Some(front);
    }

    /** Stores a packet whose read has ended, and dispatches it if it is complete. */
    method StoreRead(read: Packet, env: Env) returns (done: bool)
      requires Valid() && read.buffer.Some?
      modifies this`inChannels, this`delivered, this`inChunkSize, this`messageQueue, this`flvQueue, this`mediaChannel
      modifies this`bandwidth, this`serverBandwidth, this`clientBW2
      modifies this`outChannels, this`written, this`room, this`bad, this`sent, this`cut
      ensures Valid() && Balances(old(Books()), Books()) && Dispatches(old(Desk()), Desk(), env.beyond)
      ensures old(bad) ==> bad
      ensures var (core, messages) := Store(Core(old(inChannels), old(inChunkSize)), read);
              && Core(inChannels, inChunkSize) == core && delivered == old(delivered) + messages
              && done == (messages != [])
      ensures !done ==> Steady(old(Books()), Books()) && Desk() == old(Desk())
    {
      hide Balances, AfterSend, Dispatched, QueuesOk, ChunkAfter, IsPing;
      BalancesIdle(Books());
      DeskIdle(Desk(), env.beyond);
      var ch := read.header.channel;
      done := IsReady(read);
      if done {
        inChannels := inChannels[ch := Cleared(read)];
        HandlePacket(read, env);
      } else {
        inChannels := inChannels[ch := read];
      }
    }

    /** Reads payload for a packet and stores it, or keeps it for the next pass. `met` is how the
        socket showed itself: as expected, or failing because an acknowledgement had failed. */
    method FinishPass(packet: Packet, seen: nat, fails: bool, env: Env) returns (done: bool, ghost met: (nat, bool))
      requires Valid() && inChunkSize >= 0 && packet.buffer.Some? && incompletePacket.None?
      modifies this`pos, this`error, this`bytesIn, this`bytesInSent, this`acks
      modifies this`outChannels, this`written, this`room, this`bad, this`sent, this`cut
      modifies this`inChannels, this`delivered, this`inChunkSize, this`messageQueue, this`flvQueue, this`mediaChannel
      modifies this`bandwidth, this`serverBandwidth, this`clientBW2, this`incompletePacket
      ensures Valid() && Balances(old(Books()), Books()) && (old(bad) ==> bad)
      ensures Dispatches(old(Desk()), Desk(), env.beyond) && done == (delivered != old(delivered))
      ensures Receiver() == ReadBody(old(Receiver()), packet, wire, met.0, met.1)
      ensures met == (seen, fails) || (bad && met.1)
      ensures old(bad) ==> met.1
      ensures !done ==> Steady(old(Books()), Books()) && Desk() == old(Desk())
    {
      hide Balances, Books, Desk, Dispatches, Extended, Store, ReadBody, Expected, Visible;
      ghost var before, rx, desk := Books(), Receiver(), Desk();
      DeskIdle(desk, env.beyond);
      var ok, read := ReadPacketPayload(packet, seen, fails, env.now);
      met := (Seen(seen), fails || bad);
      BodyOutcome(rx, packet, wire, met.0, met.1);
      assert Desk() == desk && Receiver() == rx.(pos := pos, error := error);
      if !ok {
        incompletePacket := Some(read);
        assert Receiver() == rx.(incomplete := Some(packet), error := error);
        return false, met;
      }
      ghost var between := Books();
      done := StoreRead(read, env);
      BalancesTwice(before, between, Books());
    }

    /** One pass of the read loop; it is the last one if a message was completed. */
    method ReadPass(a: Arrival, env: Env) returns (done: bool, ghost met: Arrival)
      requires Valid() && RxOk(Receiver())
      modifies this`pos, this`error, this`bytesIn, this`bytesInSent, this`acks
      modifies this`outChannels, this`written, this`room, this`bad, this`sent, this`cut
      modifies this`inChannels, this`delivered, this`inChunkSize, this`messageQueue, this`flvQueue, this`mediaChannel
      modifies this`bandwidth, this`serverBandwidth, this`clientBW2, this`incompletePacket
      ensures Valid() && Balances(old(Books()), Books())
      ensures Dispatches(old(Desk()), Desk(), env.beyond) && done == (delivered != old(delivered))
      ensures Receiver() == Tick(old(Receiver()), wire, met) && Meets(a, met, bad) && (old(bad) ==> bad)
      ensures !done ==> Steady(old(Books()), Books()) && Desk() == old(Desk())
    {
      hide Balances, Books, Desk, Dispatches, ReadHead, ReadBody;
      var packet: Packet;
      ghost var body;
      if incompletePacket.Some? {
        packet := incompletePacket.value;
        incompletePacket := None;
        done, body := FinishPass(packet, a.body, a.fails, env);
        met := Arrival(a.head, body.0, body.1);
      } else {
        var ok;
        ghost var before := Books();
        ok, packet := ReadPacketHeader(a.head, a.fails, env.now);
        ghost var head, fails := Seen(a.head), a.fails || bad;
        if !ok {
          DeskIdle(Desk(), env.beyond);
          return false, Arrival(head, a.body, fails);
        }
        ghost var between := Books();
        done, body := FinishPass(packet, a.body, a.fails, env);
        BalancesTwice(before, between, Books());
        met := Arrival(head, body.0, body.1);
      }
    }

    /** Up to ten passes, until one completes a message or the socket fails. */
    method ReadLoop(arrivals: seq<Arrival>, envs: seq<Env>) returns (ghost last: Env, ghost met: seq<Arrival>)
      requires Valid() && RxOk(Receiver()) && |arrivals| == |envs| == PASSES
      modifies this`pos, this`error, this`bytesIn, this`bytesInSent, this`acks
      modifies this`outChannels, this`written, this`room, this`bad, this`sent, this`cut
      modifies this`inChannels, this`delivered, this`inChunkSize, this`messageQueue, this`flvQueue, this`mediaChannel
      modifies this`bandwidth, this`serverBandwidth, this`clientBW2, this`incompletePacket
      ensures Valid() && Balances(old(Books()), Books())
      ensures last in envs && Dispatches(old(Desk()), Desk(), last.beyond)
      ensures MeetsAll(arrivals, met, bad) && Receiver() == RtmpReceiver.Update(old(Receiver()), wire, met)
    {
      hide Steady, Balances, Books, Desk, Dispatches, Tick, RtmpReceiver.Update, RanTo, Meets, MeetsFirst, MeetsAll;
      ghost var rx, before := Receiver(), Books();
      BalancesIdle(before);
      DeskIdle(Desk(), envs[0].beyond);
      var i := 0;
      last, met := envs[0], [];
      RanNothing(rx, wire);
      MetNothing(arrivals, bad);
      while i < PASSES
        invariant 0 <= i <= PASSES && Valid() && RxOk(Receiver()) && |met| == i
        invariant RanTo(rx, wire, met, Receiver()) && MeetsFirst(arrivals, met, bad)
        invariant Steady(old(Books()), Books()) && Desk() == old(Desk()) && last in envs
      {
        if error {
          SteadyBalances(before, Books());
          DeskIdle(Desk(), last.beyond);
          RanOut(rx, wire, met, Receiver(), arrivals[i..]);
          MetInFull(arrivals, met, bad);
          met := met + arrivals[i..];
          return;
        }
        last := envs[i];
        ghost var between, from, wasBad := Books(), Receiver(), bad;
        var done;
        ghost var one;
        done, one := ReadPass(arrivals[i], envs[i]);
        BalancesTwice(before, between, Books());
        RanOn(rx, wire, met, from, one);
        MetOneMore(arrivals, met, one, wasBad, bad);
        if done {
          RanDone(rx, wire, met, from, one, arrivals[i + 1..]);
          MetInFull(arrivals, met + [one], bad);
          ConcatAssociative(met, [one], arrivals[i + 1..]);
          met := met + ([one] + arrivals[i + 1..]);
          return;
        }
        met := met + [one];
        i := i + 1;
      }
      SteadyBalances(before, Books());
      DeskIdle(Desk(), last.beyond);
      RanOut(rx, wire, met, Receiver(), []);
      MetInFull(arrivals, met, bad);
      assert arrivals[i..] == [] && met + [] == met;
    }

    /** Carries the handshake on until it has succeeded. */
    method Shake(e: Handshake.Event, peer: seq<byte>)
      requires handShaker.Valid() && !connected
      modifies this`connected, this`error, handShaker, handShaker.recvBuf
      ensures handShaker.Valid() && handShaker.Abstract() == Handshake.AfterCall(old(handShaker.Abstract()), peer, e)
      ensures connected == handShaker.Abstract().complete
      ensures error == (old(error) || Handshake.Failed(handShaker.Abstract()))
    {
      hide Handshake.AfterCall;
      handShaker.Call(peer, e);
      if handShaker.error || handShaker.bad {
        error := true;
      }
      connected := handShaker.complete;
    }

    /** Reads on, unless the session is in error. */
    method ReadOn(arrivals: seq<Arrival>, envs: seq<Env>) returns (ghost last: Env, ghost met: seq<Arrival>)
      requires Valid() && RxOk(Receiver()) && |arrivals| == |envs| == PASSES
      modifies this`pos, this`error, this`bytesIn, this`bytesInSent, this`acks
      modifies this`outChannels, this`written, this`room, this`bad, this`sent, this`cut
      modifies this`inChannels, this`delivered, this`inChunkSize, this`messageQueue, this`flvQueue, this`mediaChannel
      modifies this`bandwidth, this`serverBandwidth, this`clientBW2, this`incompletePacket, this`history
      ensures Valid() && Balances(old(Books()), Books())
      ensures last in envs && Dispatches(old(Desk()), Desk(), last.beyond)
      ensures MeetsAll(arrivals, met, bad) && Receiver() == RtmpReceiver.Update(old(Receiver()), wire, met)
      ensures history == old(history) + if old(error) then [] else [met]
      ensures old(Reads()) ==> Reads()
    {
      hide Balances, Books, Desk, Dispatches, RtmpReceiver.Update, Updates, MeetsAll;
      ghost var rx := Receiver();
      last, met := ReadLoop(arrivals, envs);
      OneMoreCall(Start(NEW_CORE), wire, history, met);
      if rx.error {
        ErrorStops(rx, wire, met);
      } else {
        history := history + [met];
      }
    }

    /** Carries the handshake on until it has succeeded, then reads. */
    method Update(e: Handshake.Event, peer: seq<byte>, arrivals: seq<Arrival>, envs: seq<Env>)
      returns (ghost last: Env, ghost met: seq<Arrival>)
      requires Valid() && RxOk(Receiver()) && handShaker.Valid() && |arrivals| == |envs| == PASSES
      modifies this, handShaker, handShaker.recvBuf
      ensures Valid() && handShaker.Valid() && Balances(old(Books()), Books())
      ensures last in envs && Dispatches(old(Desk()), Desk(), last.beyond)
      ensures handShaker.Abstract() == if old(connected) then old(handShaker.Abstract())
                                       else Handshake.AfterCall(old(handShaker.Abstract()), peer, e)
      ensures connected == (old(connected) || handShaker.Abstract().complete)
      ensures MeetsAll(arrivals, met, bad)
      ensures var failed := old(error) || (!old(connected) && Handshake.Failed(handShaker.Abstract()));
              var rx := old(Receiver()).(error := failed);
              && Receiver() == (if connected then RtmpReceiver.Update(rx, wire, met) else rx)
              && history == old(history) + if connected && !failed then [met] else []
      ensures old(Reads()) ==> Reads()
    {
      hide Balances, Books, Desk, Dispatches, RtmpReceiver.Update, Updates, Handshake.AfterCall;
      last, met := envs[0], arrivals;
      BalancesIdle(Books());
      DeskIdle(Desk(), last.beyond);
      if !connected {
        Shake(e, peer);
        if !connected {
          return;
        }
      }
      last, met := ReadOn(arrivals, envs);
    }
  }

  /** What reading payload comes to, by what is visible. */
  lemma BodyOutcome(rx: Rx, p: Packet, wire: seq<byte>, seen: nat, fails: bool)
    requires rx.core.chunk >= 0 && p.buffer.Some? && rx.incomplete.None?
    ensures var w, n := Visible(wire, rx.pos, seen), Expected(p, rx.core.chunk);
            var error := rx.error || Misses(w, n, fails);
            ReadBody(rx, p, wire, seen, fails) ==
            if |w| < n then rx.(incomplete := Some(p), error := error)
            else var (core, messages) := Store(rx.core, Extended(p, w[..n]));
                 Rx(core, None, rx.delivered + messages, rx.pos + n, error)
  {
  }

  lemma ErrorStops(rx: Rx, wire: seq<byte>, arrivals: seq<Arrival>)
    requires RxOk(rx) && rx.error
    ensures RtmpReceiver.Update(rx, wire, arrivals) == rx
  {
  }

  lemma FreshSender(room: nat)
    ensures InStep(Sending(map[], [], [], None, room))
  {
  }

  /** A word that has been decoded is encoded in the same bytes. */
  lemma SameBytes(s: seq<byte>)
    requires |s| >= 4
    ensures Encode32(Decode32(s)) == s[..4]
  {
    SameQuotients(Decode32(s), s[0], s[1], s[2], s[3]);
  }

  lemma SameQuotients(v: nat, b0: int, b1: int, b2: int, b3: int)
    requires 0 <= b0 < 0x100 && 0 <= b1 < 0x100 && 0 <= b2 < 0x100 && 0 <= b3 < 0x100
    requires v == 0x100_0000 * b0 + 0x1_0000 * b1 + 0x100 * b2 + b3
    ensures v / 0x100_0000 % 0x100 == b0 && v / 0x1_0000 % 0x100 == b1 && v / 0x100 % 0x100 == b2 && v % 0x100 == b3
  {
    var q1, q2 := 0x1_0000 * b0 + 0x100 * b1 + b2, 0x100 * b0 + b1;
    Division(v, 0x100, q1, b3);
    Division(q1, 0x100, q2, b2);
    Division(v, 0x1_0000, q2, 0x100 * b2 + b3);
    Division(q2, 0x100, b0, b1);
    Division(v, 0x100_0000, b0, 0x1_0000 * b1 + 0x100 * b2 + b3);
  }

  // ----- Two sessions

  /** Two sessions, one reading what the other has written, each driven by any calls of its methods.
      Whatever the sender has offered is sendable, and however its bytes have turned up no pass has
      seen a part of the header it was about to read. Then the reader has delivered a prefix of the
      messages sent, as its channels carry them: a message that was cut short has not come out. Once
      as many have come out as were sent, they are the messages sent iff no compressed header hid a
      change of stream id; and the memories of the two ends agree, unless a send has been cut short. */
  lemma EndToEnd(a: Rtmp, b: Rtmp)
    requires InStep(a.Books().sender) && AllSendable(map[], Offered(a.Books().sender), OUT_CHUNK_SIZE)
    requires b.wire == a.written && b.Reads()
    requires FairHistory(Start(NEW_CORE), b.wire, b.history,
                         SentChunks(map[], Offered(a.Books().sender), OUT_CHUNK_SIZE))
    ensures b.delivered <= AsRead(map[], map[], a.sent)
    ensures |b.delivered| == |a.sent| ==>
              && (b.delivered == a.sent <==> SteadyIds(map[], a.sent))
              && (a.cut.None? ==> Agree(a.outChannels, IdsAfter(map[], map[], a.sent), b.inChannels))
  {
    hide Updates, SentChunks, AllSendable, Flatten, WellFormed, Deliver, After, FairHistory;
    var offered := Offered(a.Books().sender);
    var cs := SentChunks(map[], offered, OUT_CHUNK_SIZE);
    ReceiveRun(NEW_CORE, map[], map[], offered, OUT_CHUNK_SIZE);
    ClosedEndsMessage(NEW_CORE, cs);
    DeliversOfPrefix(NEW_CORE, cs, b.wire, b.history);
    SteadyIff(map[], a.sent);
    assert a.cut.None? ==> offered == a.sent;
    AsReadPrefix(map[], map[], a.sent, offered);
    AsReadLength(map[], map[], a.sent);
    AsReadLength(map[], map[], offered);
    SequencePrefix(b.delivered, AsRead(map[], map[], a.sent), AsRead(map[], map[], offered));
  }

  /** Once the sender's run is there, and the reader has since been called as often as it has chunks,
      each call seeing the next of them, all messages have come out and the memories agree. */
  lemma EndToEndCompletes(a: Rtmp, b: Rtmp, k: nat)
    requires InStep(a.Books().sender) && a.cut.None? && AllSendable(map[], a.sent, OUT_CHUNK_SIZE)
    requires b.wire == a.written && b.Reads() && k <= |b.history|
    requires var cs := SentChunks(map[], a.sent, OUT_CHUNK_SIZE);
             var r := Updates(Start(NEW_CORE), b.wire, b.history[..k]);
             && FairHistory(Start(NEW_CORE), b.wire, b.history[..k], cs)
             && !r.error && AllProductive(r, b.wire, b.history[k..], cs) && |b.history| - k >= |cs|
    ensures b.delivered == AsRead(map[], map[], a.sent)
    ensures b.delivered == a.sent <==> SteadyIds(map[], a.sent)
    ensures Agree(a.outChannels, IdsAfter(map[], map[], a.sent), b.inChannels)
  {
    hide Updates, SentChunks, AllSendable, Flatten, WellFormed, Deliver, After, FairHistory, AllProductive;
    assert Offered(a.Books().sender) == a.sent;
    var cs := SentChunks(map[], a.sent, OUT_CHUNK_SIZE);
    ReceiveRun(NEW_CORE, map[], map[], a.sent, OUT_CHUNK_SIZE);
    SteadyIff(map[], a.sent);
    Completes(NEW_CORE, cs, b.history[..k], b.history[k..]);
    MoreCalls(Start(NEW_CORE), b.wire, b.history[..k], b.history[k..]);
    assert b.history[..k] + b.history[k..] == b.history;
  }

  lemma SequencePrefix(d: seq<Message>, short: seq<Message>, long: seq<Message>)
    requires d <= long && short <= long && |long| <= |short| + 1
    ensures d != long ==> d <= short || short == long
    ensures |d| == |short| && d <= short ==> d == short
  {
    if d != long {
      assert |d| < |long|;
    }
  }

  lemma {:induction false} AsReadLength(out: OutChannels, ids: StreamIds, ms: seq<Message>)
    requires out.Keys == ids.Keys
    ensures |AsRead(out, ids, ms)| == |ms|
    decreases |ms|
  {
    if ms == [] {
    } else {
      AsReadLength(NextOut(out, ms[0]), NextIds(out, ids, ms[0]), ms[1..]);
    }
  }

  lemma {:induction false} AsReadPrefix(out: OutChannels, ids: StreamIds, ms: seq<Message>, more: seq<Message>)
    requires out.Keys == ids.Keys && ms <= more
    ensures AsRead(out, ids, ms) <= AsRead(out, ids, more)
    decreases |ms|
  {
    if ms == [] {
    } else {
      assert ms[0] == more[0] && ms[1..] <= more[1..];
      AsReadPrefix(NextOut(out, ms[0]), NextIds(out, ids, ms[0]), ms[1..], more[1..]);
    }
  }

  lemma VisibleLength(wire: seq<byte>, start: nat, seen: nat)
    ensures |Visible(wire, start, seen)| == if start <= Min(seen, |wire|) then Min(seen, |wire|) - start else 0
  {
  }

  lemma VisibleSlice(wire: seq<byte>, start: nat, seen: nat, lo: nat, hi: nat)
    requires lo <= hi && start + hi <= Min(seen, |wire|)
    ensures |Visible(wire, start, seen)| == Min(seen, |wire|) - start >= hi
    ensures Visible(wire, start, seen)[lo..hi] == wire[start + lo..start + hi]
  {
    SliceOfSlice(wire, start, Min(seen, |wire|), lo, hi);
  }

  lemma FirstVisible(wire: seq<byte>, start: nat, seen: nat)
    requires Visible(wire, start, seen) != []
    ensures start < |wire| && Visible(wire, start, seen)[0] == wire[start]
  {
  }

  /** A header is read by its channel. */
  lemma HeadByChannel(channels: InChannels, w: seq<byte>)
    ensures w == [] ==> ReadHead(channels, w) == Failed(0, true)
    ensures w != [] ==> var (channel, at) := ReadChannel(w);
                        ReadHead(channels, w) ==
                        if channel.None? then Failed(at, true)
                        else ReadFields(channels, TypeOfCode(w[0] / 64), channel.value, w, at)
  {
    hide ReadFields;
  }

  /** A channel number does not change with the bytes behind it. */
  lemma SameChannel(v: seq<byte>, w: seq<byte>, n: nat)
    requires v != [] && w != [] && ReadChannel(v).0.Some? && ReadChannel(v).1 == n <= |w| && v[..n] == w[..n]
    ensures ReadChannel(w) == ReadChannel(v)
  {
    assert forall k :: 0 <= k < n ==> v[k] == v[..n][k] == w[k];
  }
}
