/** Interleaved chunk streams: each channel completes the messages it would complete alone. */
module RtmpDemux {
  import opened Bytes
  import opened RtmpWire
  import opened RtmpReceiver
  import opened RtmpReassembly
  import opened RtmpLiveness

  /** The chunks of one channel. */
  function Only(cs: seq<Chunk>, ch: nat): seq<Chunk>
    decreases |cs|
  {
    if cs == [] then [] else
      (if HeadChannel(cs[0].head) == ch then [cs[0]] else []) + Only(cs[1..], ch)
  }

  /** The messages of one channel. */
  function On(ms: seq<Message>, ch: nat): seq<Message>
    decreases |ms|
  {
    if ms == [] then [] else (if ms[0].channel == ch then [ms[0]] else []) + On(ms[1..], ch)
  }

  predicate Keyed(channels: InChannels) {
    forall ch <- channels :: channels[ch].header.channel == ch
  }

  /** Two receivers that cannot be told apart on a channel. */
  predicate SameOn(a: Core, b: Core, ch: nat) {
    a.chunk == b.chunk && Lookup(a.channels, ch) == Lookup(b.channels, ch)
  }

  predicate NoResize(ms: seq<Message>) {
    forall m <- ms :: !IsResize(m)
  }

  lemma ReadHeadLocal(a: InChannels, b: InChannels, w: seq<byte>)
    requires Lookup(a, HeadChannel(w)) == Lookup(b, HeadChannel(w))
    ensures ReadHead(a, w) == ReadHead(b, w)
  {
    hide DecodeFields;
  }

  lemma ReadHeadOwn(channels: InChannels, w: seq<byte>)
    requires Keyed(channels)
    ensures ReadHead(channels, w).Head? ==> ReadHead(channels, w).packet.header.channel == HeadChannel(w)
  {
  }

  /** A chunk concerns its own channel only. */
  lemma ReceiveLocal(core: Core, c: Chunk)
    requires ChunkOk(core, c) && Keyed(core.channels) && NoResize(Receive(core, c).1)
    ensures var (next, ms) := Receive(core, c);
            && Keyed(next.channels) && next.chunk == core.chunk
            && (forall ch | ch != HeadChannel(c.head) :: SameOn(core, next, ch))
            && (forall m <- ms :: m.channel == HeadChannel(c.head))
  {
    hide ReadHead, HeadChannel, Extended, ChunkAfter;
    ReadHeadOwn(core.channels, c.head);
    var p := ReadHead(core.channels, c.head).packet;
    var q := Extended(p, c.body);
    if IsReady(q) {
      assert Receive(core, c).1 == [MessageOf(q)];
      assert !IsResize(MessageOf(q));
      Unresized(core.chunk, MessageOf(q));
    }
  }

  lemma Unresized(chunk: int, m: Message)
    requires !IsResize(m)
    ensures ChunkAfter(chunk, m) == chunk
  {
  }

  /** Receivers that agree on the channel of a chunk take it alike. */
  lemma ReceiveSame(a: Core, b: Core, c: Chunk)
    requires Keyed(a.channels) && Keyed(b.channels)
    requires SameOn(a, b, HeadChannel(c.head))
    ensures ChunkOk(a, c) == ChunkOk(b, c)
    ensures ChunkOk(a, c) ==>
              && Receive(a, c).1 == Receive(b, c).1
              && SameOn(Receive(a, c).0, Receive(b, c).0, HeadChannel(c.head))
  {
    hide ReadHead, HeadChannel, Extended, ChunkAfter;
    ReadHeadLocal(a.channels, b.channels, c.head);
    ReadHeadOwn(a.channels, c.head);
    if ChunkOk(a, c) {
      var q := Extended(ReadHead(a.channels, c.head).packet, c.body);
      if IsReady(q) {
      }
    }
  }

  lemma {:induction false} OnConcat(a: seq<Message>, b: seq<Message>, ch: nat)
    ensures On(a + b, ch) == On(a, ch) + On(b, ch)
    decreases |a|
  {
    if a == [] {
      assert a + b == b;
    } else {
      OnConcat(a[1..], b, ch);
      assert (a + b)[0] == a[0] && (a + b)[1..] == a[1..] + b;
      ConcatAssociative(if a[0].channel == ch then [a[0]] else [], On(a[1..], ch), On(b, ch));
    }
  }

  /** The chunks of each channel make a stream that is well formed on its own, read by a receiver
      that starts like `core` on that channel, and that leaves the chunk size alone. */
  ghost predicate WellFormedAlone(core: Core, cs: seq<Chunk>, ch: nat) {
    WellFormed(core, Only(cs, ch)) && NoResize(Deliver(core, Only(cs, ch)))
  }

  /** What a channel completes when its chunks are all there is. */
  ghost function Alone(core: Core, cs: seq<Chunk>, ch: nat): seq<Message>
    requires WellFormedAlone(core, cs, ch)
  {
    Deliver(core, Only(cs, ch))
  }

  lemma {:induction false} SameRun(a: Core, b: Core, cs: seq<Chunk>, ch: nat)
    requires Keyed(a.channels) && Keyed(b.channels) && SameOn(a, b, ch)
    requires WellFormedAlone(a, cs, ch)
    ensures WellFormedAlone(b, cs, ch)
    ensures Alone(a, cs, ch) == Alone(b, cs, ch)
    decreases |cs|
  {
    hide ChunkOk, Receive, IsResize;
    if cs == [] {
    } else {
      if HeadChannel(cs[0].head) == ch {
        var mine := Only(cs, ch);
        assert mine[0] == cs[0] && mine[1..] == Only(cs[1..], ch);
        ReceiveSame(a, b, cs[0]);
        var (a', ms) := Receive(a, cs[0]);
        var (b', _) := Receive(b, cs[0]);
        NoResizeParts(ms, Deliver(a', mine[1..]));
        ReceiveLocal(a, cs[0]);
        ReceiveLocal(b, cs[0]);
        SameRun(a', b', cs[1..], ch);
        assert WellFormed(b, mine);
      } else {
        assert Only(cs, ch) == Only(cs[1..], ch);
        SameRun(a, b, cs[1..], ch);
      }
    }
  }

  lemma NoResizeParts(a: seq<Message>, b: seq<Message>)
    ensures NoResize(a + b) <==> NoResize(a) && NoResize(b)
  {
    assert forall m <- a :: m in a + b;
    assert forall m <- b :: m in a + b;
  }

  /** Demultiplexing: if the chunks of every channel are well formed on their own, then so is any
      interleaving of them, and each channel completes the messages it completes alone. */
  lemma {:induction false} Demultiplex(core: Core, cs: seq<Chunk>)
    requires Keyed(core.channels) && core.chunk >= 0
    requires forall ch: nat :: WellFormedAlone(core, cs, ch)
    ensures WellFormed(core, cs) && NoResize(Deliver(core, cs))
    ensures forall ch: nat :: On(Deliver(core, cs), ch) == Alone(core, cs, ch)
    decreases |cs|
  {
    hide ChunkOk, Receive, IsResize;
    if cs == [] {
    } else {
      var own := HeadChannel(cs[0].head);
      var mine := Only(cs, own);
      assert mine[0] == cs[0] && mine[1..] == Only(cs[1..], own);
      assert WellFormedAlone(core, cs, own);
      var (next, ms) := Receive(core, cs[0]);
      NoResizeParts(ms, Deliver(next, mine[1..]));
      ReceiveLocal(core, cs[0]);
      assert |ms| <= 1 by { AtMostOne(core, cs[0]); }
      forall ch: nat
        ensures WellFormedAlone(next, cs[1..], ch)
        ensures ch != own ==> WellFormedAlone(core, cs, ch) && Alone(next, cs[1..], ch) == Alone(core, cs, ch)
      {
        if ch != own {
          assert Only(cs[1..], ch) == Only(cs, ch);
          assert WellFormedAlone(core, cs, ch);
          SameRun(core, next, cs[1..], ch);
        }
      }
      assert next.chunk >= 0;
      Demultiplex(next, cs[1..]);
      NoResizeParts(ms, Deliver(next, cs[1..]));
      forall ch: nat
        ensures WellFormedAlone(core, cs, ch) && On(Deliver(core, cs), ch) == Alone(core, cs, ch)
      {
        assert WellFormedAlone(core, cs, ch);
        OnConcat(ms, Deliver(next, cs[1..]), ch);
        OnOwn(ms, own, ch);
      }
    }
  }

  lemma AtMostOne(core: Core, c: Chunk)
    requires ChunkOk(core, c)
    ensures |Receive(core, c).1| <= 1
  {
  }

  lemma OnOwn(ms: seq<Message>, own: nat, ch: nat)
    requires |ms| <= 1 && forall m <- ms :: m.channel == own
    ensures On(ms, ch) == if ch == own then ms else []
  {
    if ms != [] {
      assert ms[0] in ms && ms[1..] == [];
      assert ms == [ms[0]];
    }
  }

  /** The same for the bytes of an interleaving that arrive in any timing that never shows a pass a
      part of the header it is about to read, payload reads failing and being retried on the way. */
  lemma DemultiplexBytes(core: Core, cs: seq<Chunk>, history: seq<seq<Arrival>>, calls: seq<seq<Arrival>>, ch: nat)
    requires Keyed(core.channels) && core.chunk >= 0
    requires forall c: nat :: WellFormedAlone(core, cs, c)
    requires FairHistory(Start(core), Flatten(cs), history, cs)
    ensures WellFormedAlone(core, cs, ch)
    ensures var r := Updates(Start(core), Flatten(cs), history);
            && On(r.delivered, ch) <= Alone(core, cs, ch)
            && (!r.error && |calls| >= |cs| && AllProductive(r, Flatten(cs), calls, cs) ==>
                On(Updates(r, Flatten(cs), calls).delivered, ch) == Alone(core, cs, ch))
  {
    hide Updates, WellFormed, Deliver, AllProductive, FairHistory, Flatten, NoResize;
    assert WellFormedAlone(core, cs, ch);
    Demultiplex(core, cs);
    var n := DeliversPrefix(core, cs, history);
    var r := Updates(Start(core), Flatten(cs), history);
    if !r.error && |calls| >= |cs| && AllProductive(r, Flatten(cs), calls, cs) {
      Completes(core, cs, history, calls);
    }
    var all := Deliver(core, cs);
    OnConcat(r.delivered, all[|r.delivered|..], ch);
    assert all == r.delivered + all[|r.delivered|..];
  }
}
