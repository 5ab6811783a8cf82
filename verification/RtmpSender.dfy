/** The sending side of a session on values: what a run of sends has put on the wire, also when the
    socket stops taking bytes in the middle of a message. */
module RtmpSender {
  import opened Bytes
  import opened RtmpWire

  const OUT_CHUNK_SIZE: nat := 128

  function WireOf(out: OutChannels, m: Message): seq<byte>
    requires m.channel <= 319
  {
    Flatten(MessageChunks(ChooseHeader(Lookup(out, m.channel), m), m.payload, OUT_CHUNK_SIZE))
  }

  /** The channel memory, the bytes written, the messages sent in full, the first message whose
      sending was cut short, and how many more bytes the socket takes. */
  datatype Sending = Sending(out: OutChannels, written: seq<byte>, sent: seq<Message>, cut: Option<Message>, room: nat)

  /** Sends a message as far as there is room. A message that cannot be remembered goes out but
      leaves no trace in the channel memory. */
  function AfterSend(s: Sending, m: Message, remembered: bool): Sending
    requires m.channel <= 319
  {
    var whole := WireOf(s.out, m);
    if s.room < |whole| then
      s.(written := s.written + whole[..s.room], room := 0, cut := if s.cut.None? then Some(m) else s.cut)
    else
      var t := s.(written := s.written + whole, room := s.room - |whole|);
      if remembered then t.(out := NextOut(s.out, m), sent := s.sent + [m]) else t
  }

  /** The messages sent, and the one that was cut short. */
  function Offered(s: Sending): seq<Message> {
    s.sent + if s.cut.Some? then [s.cut.value] else []
  }

  predicate Narrow(ms: seq<Message>) {
    forall m <- ms :: m.channel <= 319
  }

  /** The wire and the channel memory are those of the run of messages sent; or the socket has
      stopped taking bytes, in the middle of the message behind that run. */
  predicate InStep(s: Sending) {
    && Narrow(Offered(s))
    && var whole := Flatten(SentChunks(map[], Offered(s), OUT_CHUNK_SIZE));
       if s.cut.None? then s.written == whole && s.out == SentMemory(map[], s.sent)
       else s.room == 0 && s.written < whole
  }

  lemma {:induction false} OneMoreFrom(out: OutChannels, ms: seq<Message>, m: Message)
    requires m.channel <= 319 && Narrow(ms)
    ensures Narrow(ms + [m])
    ensures Flatten(SentChunks(out, ms + [m], OUT_CHUNK_SIZE)) ==
            Flatten(SentChunks(out, ms, OUT_CHUNK_SIZE)) + WireOf(SentMemory(out, ms), m)
    ensures SentMemory(out, ms + [m]) == NextOut(SentMemory(out, ms), m)
    decreases |ms|
  {
    hide MessageChunks, NextOut;
    assert forall x <- ms + [m] :: x in ms || x == m;
    if ms == [] {
      assert [] + [m] == [m] && [m][1..] == [];
      var cs := MessageChunks(ChooseHeader(Lookup(out, m.channel), m), m.payload, OUT_CHUNK_SIZE);
      assert cs + [] == cs && [] + Flatten(cs) == Flatten(cs);
    } else {
      var out' := NextOut(out, ms[0]);
      var first := MessageChunks(ChooseHeader(Lookup(out, ms[0].channel), ms[0]), ms[0].payload, OUT_CHUNK_SIZE);
      assert (ms + [m])[0] == ms[0] && (ms + [m])[1..] == ms[1..] + [m];
      OneMoreFrom(out', ms[1..], m);
      FlattenConcat(first, SentChunks(out', ms[1..] + [m], OUT_CHUNK_SIZE));
      FlattenConcat(first, SentChunks(out', ms[1..], OUT_CHUNK_SIZE));
      ConcatAssociative(Flatten(first), Flatten(SentChunks(out', ms[1..], OUT_CHUNK_SIZE)),
                        WireOf(SentMemory(out', ms[1..]), m));
    }
  }

  lemma SomethingToSend(out: OutChannels, m: Message)
    requires m.channel <= 319
    ensures WireOf(out, m) != []
  {
    hide ChooseHeader, Pieces;
    var h := ChooseHeader(Lookup(out, m.channel), m);
    assert h.channel == m.channel by { ChannelChosen(Lookup(out, m.channel), m); }
    var cs := MessageChunks(h, m.payload, OUT_CHUNK_SIZE);
    assert |cs[0].head| > 0;
  }

  lemma ChannelChosen(prev: Option<Header>, m: Message)
    ensures ChooseHeader(prev, m).channel == m.channel
  {
  }

  lemma ProperPrefix(a: seq<byte>, w: seq<byte>, n: nat)
    requires n < |w|
    ensures a + w[..n] < a + w
  {
  }

  lemma Unchanged(a: seq<byte>, w: seq<byte>)
    ensures a + w[..0] == a
  {
  }

  /** Every send keeps the wire in step with the run, or cuts it. */
  lemma SendKeepsStep(s: Sending, m: Message)
    requires InStep(s) && m.channel <= 319
    ensures InStep(AfterSend(s, m, true))
  {
    hide WireOf, SentChunks, SentMemory, Flatten, NextOut;
    var whole := WireOf(s.out, m);
    SomethingToSend(s.out, m);
    if s.cut.Some? {
      Unchanged(s.written, whole);
    } else {
      assert Offered(s) == s.sent;
      OneMoreFrom(map[], s.sent, m);
      if s.room < |whole| {
        ProperPrefix(s.written, whole, s.room);
      } else {
        assert s.sent + [m] + [] == s.sent + [m];
      }
    }
  }

  /** A send leaves the wire in step iff it is remembered or cut short: what went out unremembered
      is no part of the run. */
  lemma SendKeepsStepIff(s: Sending, m: Message, remembered: bool)
    requires InStep(s) && m.channel <= 319
    ensures InStep(AfterSend(s, m, remembered)) <==> remembered || s.room < |WireOf(s.out, m)|
  {
    hide WireOf, SentChunks, SentMemory, Flatten, NextOut;
    SendKeepsStep(s, m);
    SomethingToSend(s.out, m);
    if !remembered && s.room >= |WireOf(s.out, m)| {
      assert Offered(AfterSend(s, m, false)) == Offered(s);
      assert |s.written + WireOf(s.out, m)| > |s.written|;
    }
  }

  /** Any run of sends, on a socket with any room. */
  function AfterSends(s: Sending, ms: seq<Message>): Sending
    requires Narrow(ms)
    decreases |ms|
  {
    if ms == [] then s else AfterSends(AfterSend(s, ms[0], true), ms[1..])
  }

  /** Over any run of sends on a socket that takes any number of bytes, the messages offered are a
      prefix of the run, and the whole run has been sent in full unless one was cut short. */
  lemma {:induction false} SendsKeepStep(s: Sending, ms: seq<Message>)
    requires InStep(s) && Narrow(ms)
    ensures var r := AfterSends(s, ms);
            && InStep(r) && Offered(r) <= Offered(s) + ms
            && (r.cut.None? ==> r.sent == s.sent + ms)
            && (s.cut.Some? ==> Offered(r) == Offered(s))
    decreases |ms|
  {
    hide InStep, WireOf;
    if ms == [] {
      assert s.sent + [] == s.sent && Offered(s) + [] == Offered(s);
    } else {
      var t := AfterSend(s, ms[0], true);
      SendKeepsStep(s, ms[0]);
      SendsKeepStep(t, ms[1..]);
      SomethingToSend(s.out, ms[0]);
      if s.cut.Some? {
        NoRoom(s);
      }
      assert s.sent + ms == s.sent + [ms[0]] + ms[1..];
      assert Offered(s) + ms == Offered(s) + [ms[0]] + ms[1..];
      assert s.sent + [] == s.sent && s.sent + [ms[0]] + [] == s.sent + [ms[0]];
    }
  }

  /** Over any run of sends exactly as many bytes of the run's chunks go out as there is room for. */
  lemma {:induction false} SendsWrite(s: Sending, ms: seq<Message>)
    requires Narrow(ms)
    ensures var whole, r := Flatten(SentChunks(s.out, ms, OUT_CHUNK_SIZE)), AfterSends(s, ms);
            r.written == s.written + whole[..Min(|whole|, s.room)] && r.room == s.room - Min(|whole|, s.room)
    decreases |ms|
  {
    hide MessageChunks, NextOut, ChooseHeader;
    if ms == [] {
    } else {
      assert Narrow(ms[1..]) && ms[0] in ms;
      var m, whole := ms[0], WireOf(s.out, ms[0]);
      var rest := SentChunks(NextOut(s.out, m), ms[1..], OUT_CHUNK_SIZE);
      ChannelChosen(Lookup(s.out, m.channel), m);
      FlattenConcat(MessageChunks(ChooseHeader(Lookup(s.out, m.channel), m), m.payload, OUT_CHUNK_SIZE), rest);
      assert Flatten(SentChunks(s.out, ms, OUT_CHUNK_SIZE)) == whole + Flatten(rest);
      var next := AfterSend(s, m, true);
      SendsWrite(next, ms[1..]);
      if s.room < |whole| {
        assert (whole + Flatten(rest))[..s.room] == whole[..s.room];
        Unchanged(next.written, Flatten(SentChunks(next.out, ms[1..], OUT_CHUNK_SIZE)));
      } else {
        TakeBoth(s.written, whole, Flatten(rest), s.room);
      }
    }
  }

  lemma TakeBoth(a: seq<byte>, b: seq<byte>, c: seq<byte>, room: nat)
    requires room >= |b|
    ensures a + b + c[..Min(|c|, room - |b|)] == a + (b + c)[..Min(|b + c|, room)]
  {
  }

  lemma NoRoom(s: Sending)
    requires InStep(s) && s.cut.Some?
    ensures s.room == 0
  {
  }
}
