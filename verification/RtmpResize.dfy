/** A peer that changes its chunk size as it goes, as every server does at the start of a session. */
module RtmpResize {
  import opened Bytes
  import opened RtmpWire
  import opened RtmpReceiver
  import opened RtmpReassembly
  import opened RtmpLiveness
  import opened RtmpRoundTrip

  /** The size of the chunks that follow a message: a message of type 1 sets it to its first four
      bytes, most significant first and signed. */
  function SizeAfter(size: int, m: Message): int {
    var p := m.payload;
    if m.packetType != 1 || |p| < 4 then size
    else (if p[0] < 0x80 then p[0] as int else (p[0] as int) - 0x100) * 0x100_0000
         + (p[1] as int) * 0x1_0000 + (p[2] as int) * 0x100 + p[3]
  }

  lemma SizeRead(size: int, m: Message)
    ensures ChunkAfter(size, m) == SizeAfter(size, m)
  {
  }

  /** A pass that completes a message leaves the size that the message sets, any other the size as
      it was. */
  lemma PassSetsSize(rx: Rx, wire: seq<byte>, a: Arrival)
    requires RxOk(rx)
    ensures var r := Tick(rx, wire, a);
            r.core.chunk == if r.delivered == rx.delivered then rx.core.chunk
                            else SizeAfter(rx.core.chunk, r.delivered[|rx.delivered|])
  {
    hide ReadHead, Extended, Visible, Expected, ChunkAfter, SizeAfter;
    var r := Tick(rx, wire, a);
    if r.delivered != rx.delivered {
      SizeRead(rx.core.chunk, r.delivered[|rx.delivered|]);
    }
  }

  /** Every message is sendable after the ones before it, and leaves a size to go on with. */
  predicate Resizable(out: OutChannels, ms: seq<Message>, size: nat)
    decreases |ms|
  {
    ms == [] ||
    (Sendable(Lookup(out, ms[0].channel), ms[0]) && SizeAfter(size, ms[0]) > 0 &&
     Resizable(NextOut(out, ms[0]), ms[1..], SizeAfter(size, ms[0])))
  }

  /** What the peer sends: each message in chunks of the size that the ones before it have left. */
  function ResizingChunks(out: OutChannels, ms: seq<Message>, size: nat): seq<Chunk>
    requires size > 0 && Resizable(out, ms, size)
    decreases |ms|
  {
    if ms == [] then [] else
      MessageChunks(ChooseHeader(Lookup(out, ms[0].channel), ms[0]), ms[0].payload, size) +
      ResizingChunks(NextOut(out, ms[0]), ms[1..], SizeAfter(size, ms[0]))
  }

  function LastSize(ms: seq<Message>, size: int): int
    decreases |ms|
  {
    if ms == [] then size else LastSize(ms[1..], SizeAfter(size, ms[0]))
  }

  lemma SendableChannel(out: OutChannels, m: Message)
    requires Sendable(Lookup(out, m.channel), m)
    ensures ChooseHeader(Lookup(out, m.channel), m).channel == m.channel <= 319
  {
  }

  /** Any such run is read as it was sent: all messages in order, those that change the size
      included, and both ends agree on memory and size afterwards. */
  lemma {:induction false} ReceiveResizing(core: Core, out: OutChannels, ids: StreamIds, ms: seq<Message>, size: nat)
    requires Agree(out, ids, core.channels) && OutOk(out) && core.chunk == size > 0
    requires Resizable(out, ms, size)
    ensures var cs := ResizingChunks(out, ms, size);
            && WellFormed(core, cs)
            && Deliver(core, cs) == AsRead(out, ids, ms)
            && Agree(SentMemory(out, ms), IdsAfter(out, ids, ms), After(core, cs).channels)
            && After(core, cs).chunk == LastSize(ms, size)
    decreases |ms|
  {
    hide Sendable, MessageChunks, WellFormed, Deliver, After, OutOk, Closed, Opened, ChunkAfter, SizeAfter;
    if ms == [] {
      EmptyRun(core);
    } else {
      var m := ms[0];
      SendableChannel(out, m);
      var first := MessageChunks(ChooseHeader(Lookup(out, m.channel), m), m.payload, size);
      ReceiveMessage(core, out, ids, m, size);
      StillAgree(core, out, ids, m);
      KeepsChunk(core, out, ids, m);
      SizeRead(size, m);
      ReceiveResizing(After(core, first), NextOut(out, m), NextIds(out, ids, m), ms[1..], SizeAfter(size, m));
      RunConcat(core, first, ResizingChunks(NextOut(out, m), ms[1..], SizeAfter(size, m)));
    }
  }

  /** A server's whole session, read in calls that each see the next chunk. */
  lemma ResizingSession(ms: seq<Message>, calls: seq<seq<Arrival>>)
    requires Resizable(map[], ms, NEW_CHUNK_SIZE)
    ensures var cs := ResizingChunks(map[], ms, NEW_CHUNK_SIZE);
            var r := Updates(Start(NEW_CORE), Flatten(cs), calls);
            |calls| >= |cs| && AllProductive(Start(NEW_CORE), Flatten(cs), calls, cs) ==>
              && r.pos == |Flatten(cs)|
              && (r.delivered == ms <==> SteadyIds(map[], ms))
  {
    hide ResizingChunks, Resizable, WellFormed, Deliver, After, Flatten, AllProductive, FairHistory;
    var cs := ResizingChunks(map[], ms, NEW_CHUNK_SIZE);
    ReceiveResizing(NEW_CORE, map[], map[], ms, NEW_CHUNK_SIZE);
    SteadyIff(map[], ms);
    if |calls| >= |cs| && AllProductive(Start(NEW_CORE), Flatten(cs), calls, cs) {
      NoHistory(cs);
      Completes(NEW_CORE, cs, [], calls);
    }
  }

  lemma NoHistory(cs: seq<Chunk>)
    ensures FairHistory(Start(NEW_CORE), Flatten(cs), [], cs)
  {
  }

  // ----- A size of zero

  /** No payload is complete that has not been handed on; and with a size of zero none is waited for. */
  predicate Settled(rx: Rx) {
    && (forall ch <- rx.core.channels :: rx.core.channels[ch].buffer.Some? ==> !IsReady(rx.core.channels[ch]))
    && (rx.core.chunk == 0 ==> rx.incomplete.None?)
  }

  predicate OnlyEmpty(ms: seq<Message>) {
    forall m <- ms :: m.payload == []
  }

  lemma ReadyHead(rx: Rx, w: seq<byte>)
    requires Settled(rx)
    ensures var r := ReadHead(rx.core.channels, w);
            r.Head? && IsReady(r.packet) ==> r.packet.buffer == Some([])
  {
  }

  /** A part of a payload that has been read, all of it if its size is zero. */
  lemma SettledBody(rx: Rx, p: Packet, wire: seq<byte>, seen: nat, fails: bool)
    requires rx.core.chunk >= 0 && p.buffer.Some? && Settled(rx.(incomplete := None))
    requires rx.core.chunk == 0 && IsReady(p) ==> p.buffer == Some([])
    ensures var r := ReadBody(rx.(incomplete := None), p, wire, seen, fails);
            && Settled(r) && rx.delivered <= r.delivered
            && (rx.core.chunk == 0 ==> r.core.chunk == 0 && OnlyEmpty(r.delivered[|rx.delivered|..]))
  {
    hide ChunkAfter, Visible;
    if rx.core.chunk == 0 {
      var none := Visible(wire, rx.pos, seen)[..0];
      assert p.buffer.value + none == p.buffer.value;
      assert Extended(p, none) == p;
      SizeRead(0, MessageOf(p));
    }
  }

  lemma SettledPass(rx: Rx, wire: seq<byte>, a: Arrival)
    requires RxOk(rx) && Settled(rx)
    ensures var r := Tick(rx, wire, a);
            Settled(r) && (rx.core.chunk == 0 ==> r.core.chunk == 0 && OnlyEmpty(r.delivered[|rx.delivered|..]))
  {
    hide ReadHead, ReadBody, IsReady;
    var w := Visible(wire, rx.pos, a.head);
    ReadyHead(rx, w);
    if rx.incomplete.Some? {
      SettledBody(rx, rx.incomplete.value, wire, a.body, a.fails);
    } else if ReadHead(rx.core.channels, w).Head? {
      var r := ReadHead(rx.core.channels, w);
      SettledBody(rx.(pos := rx.pos + r.consumed), r.packet, wire, a.body, a.fails);
    } else {
      assert Tick(rx, wire, a).delivered[|rx.delivered|..] == [];
    }
  }

  lemma {:induction false} SettledCall(rx: Rx, wire: seq<byte>, call: seq<Arrival>)
    requires RxOk(rx) && Settled(rx)
    ensures var r := Update(rx, wire, call);
            && Settled(r) && rx.delivered <= r.delivered
            && (rx.core.chunk == 0 ==> r.core.chunk == 0 && OnlyEmpty(r.delivered[|rx.delivered|..]))
    decreases |call|
  {
    hide Tick, Settled, OnlyEmpty;
    assert rx.delivered[|rx.delivered|..] == [] && OnlyEmpty([]) by { NothingDelivered(); }
    if call == [] || rx.error {
    } else {
      SettledPass(rx, wire, call[0]);
      var r := Tick(rx, wire, call[0]);
      if r.delivered == rx.delivered {
        SettledCall(r, wire, call[1..]);
      }
    }
  }

  lemma NothingDelivered()
    ensures OnlyEmpty([])
  {
  }

  lemma EmptyOnes(first: seq<Message>, last: seq<Message>, n: nat)
    requires n <= |first| && first <= last && OnlyEmpty(first[n..]) && OnlyEmpty(last[|first|..])
    ensures OnlyEmpty(last[n..])
  {
    assert last == first + last[|first|..];
    assert last[n..] == first[n..] + last[|first|..];
  }

  lemma {:induction false} SettledCalls(rx: Rx, wire: seq<byte>, calls: seq<seq<Arrival>>)
    requires Settled(rx)
    ensures var r := Updates(rx, wire, calls);
            && Settled(r) && rx.delivered <= r.delivered
            && (rx.core.chunk == 0 ==> OnlyEmpty(r.delivered[|rx.delivered|..]))
    decreases |calls|
  {
    hide Update, Settled, OnlyEmpty;
    assert rx.delivered[|rx.delivered|..] == [] && OnlyEmpty([]) by { NothingDelivered(); }
    if calls == [] || !RxOk(rx) {
    } else {
      var r := Update(rx, wire, calls[0]);
      SettledCall(rx, wire, calls[0]);
      SettledCalls(r, wire, calls[1..]);
      var last := Updates(rx, wire, calls).delivered;
      var n := |rx.delivered|;
      if rx.core.chunk == 0 {
        EmptyOnes(r.delivered, last, n);
      }
    }
  }

  /** After a size of zero no payload ever comes out any more, whatever bytes follow in whatever
      timing: reads of it ask for nothing, and its bytes are taken for headers. */
  lemma ZeroSizeStalls(wire: seq<byte>, history: seq<seq<Arrival>>, more: seq<seq<Arrival>>)
    ensures var r := Updates(Start(NEW_CORE), wire, history);
            var last := Updates(r, wire, more);
            r.core.chunk == 0 ==>
              r.delivered <= last.delivered && forall m <- last.delivered[|r.delivered|..] :: m.payload == []
  {
    hide Updates;
    SettledCalls(Start(NEW_CORE), wire, history);
    SettledCalls(Updates(Start(NEW_CORE), wire, history), wire, more);
  }
}
