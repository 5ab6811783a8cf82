/** The read loop gets to the end of a stream as long as each call sees the next chunk; and through a
    cache of limited size it can, exactly when no part of a payload is larger than the cache. */
module RtmpLiveness {
  import opened Bytes
  import opened RtmpWire
  import opened RtmpReceiver
  import opened RtmpReassembly
  import SocketCache

  const CACHE_SIZE: nat := SocketCache.CACHE_SIZE
  const PASSES: nat := 10

  /** Where the chunk ends that holds byte `pos` of a chunk stream. */
  function ChunkEnd(cs: seq<Chunk>, pos: int): int
    decreases |cs|
  {
    if cs == [] then pos
    else
      var n := |ChunkBytes(cs[0])|;
      if pos < n then n else n + ChunkEnd(cs[1..], pos - n)
  }

  /** The pass sees the next chunk of the stream to its end. */
  predicate ShowsNext(rx: Rx, a: Arrival, cs: seq<Chunk>) {
    (rx.incomplete.None? ==> a.head >= HeadEnd(cs, rx.pos)) && a.body >= ChunkEnd(cs, rx.pos)
  }

  /** A call on a sound socket whose first pass sees the next chunk, if there is one, and none of
      whose passes sees a part of the header it is about to read. */
  predicate Productive(rx: Rx, wire: seq<byte>, call: seq<Arrival>, cs: seq<Chunk>)
    requires RxOk(rx)
  {
    && call != [] && (forall a <- call :: !a.fails)
    && (rx.pos < |wire| ==> ShowsNext(rx, call[0], cs))
    && FairCall(rx, wire, call, cs)
  }

  predicate AllProductive(rx: Rx, wire: seq<byte>, calls: seq<seq<Arrival>>, cs: seq<Chunk>)
    decreases |calls|
  {
    calls == [] || !RxOk(rx) ||
    (Productive(rx, wire, calls[0], cs) && AllProductive(Update(rx, wire, calls[0]), wire, calls[1..], cs))
  }

  lemma {:induction false} ChunkEndIs(cs: seq<Chunk>, n: nat, k: nat)
    requires n < |cs| && k < |ChunkBytes(cs[n])|
    ensures var pos := |Flatten(cs)| - |Flatten(cs[n..])|;
            ChunkEnd(cs, pos + k) == pos + |ChunkBytes(cs[n])|
    decreases n
  {
    if n == 0 {
      assert cs[0..] == cs;
    } else {
      ChunkEndIs(cs[1..], n - 1, k);
      FlattenShrinks(cs[1..], n - 1);
      assert cs[1..][n - 1..] == cs[n..];
    }
  }

  /** Where the loop is in the stream, with chunks still to be read. */
  lemma Place(rx: Rx, cs: seq<Chunk>, n: nat)
    requires n < |cs| && HeadsThere(cs) && Reading(rx, Flatten(cs), cs[n..])
    ensures var start := |Flatten(cs)| - |Flatten(cs[n..])|;
            && rx.pos == start + (if rx.incomplete.None? then 0 else |cs[n].head|)
            && rx.pos + (if rx.incomplete.None? then |cs[n].head| else 0) + |cs[n].body| <= |Flatten(cs)|
  {
    hide ReadHead, WellFormed;
    var rest := cs[n..];
    assert Flatten(rest) == rest[0].head + rest[0].body + Flatten(rest[1..]);
    assert |Flatten(cs)[rx.pos..]| == |Flatten(cs)| - rx.pos;
  }

  lemma NextIsShown(rx: Rx, a: Arrival, cs: seq<Chunk>, n: nat)
    requires n < |cs| && HeadsThere(cs) && Reading(rx, Flatten(cs), cs[n..])
    requires rx.pos < |Flatten(cs)| ==> ShowsNext(rx, a, cs)
    ensures ShowsHead(rx, a, cs[n..]) || rx.incomplete.Some?
    ensures ShowsChunk(rx, a, cs[n..])
  {
    hide ReadHead, WellFormed, Flatten, HeadEnd, ChunkEnd;
    Place(rx, cs, n);
    HeadEndIs(cs, n);
    assert cs[n] in cs;
    if rx.incomplete.None? {
      ChunkEndIs(cs, n, 0);
    } else if cs[n].body != [] {
      ChunkEndIs(cs, n, |cs[n].head|);
    }
  }

  lemma {:induction false} CatchUp(rx: Rx, calls: seq<seq<Arrival>>, core: Core, cs: seq<Chunk>, n: nat)
    requires WellFormed(core, cs) && HeadsThere(cs) && At(rx, core, cs, n) && !rx.error
    requires AllProductive(rx, Flatten(cs), calls, cs) && |calls| >= |cs| - n
    ensures var r := Updates(rx, Flatten(cs), calls);
            && r.delivered == Deliver(core, cs) && r.core == After(core, cs)
            && r.pos == |Flatten(cs)| && !r.error
    decreases |calls|
  {
    hide ReadHead, Flatten, Update, FairCall, HeadsThere, Deliver, After, WellFormed, ShowsNext, ShowsChunk, ShowsHead;
    if n < |cs| {
      StillOk(rx, core, cs, n);
    } else {
      AtEnd(rx, core, cs);
    }
    if calls == [] || !RxOk(rx) {
    } else {
      if n < |cs| {
        NextIsShown(rx, calls[0][0], cs, n);
        ShowsHeadBesides(rx, calls[0][0], cs[n..]);
      }
      var m := UpdateStep(rx, calls[0], core, cs, n);
      ErrorFree(rx, Flatten(cs), calls[0]);
      CatchUp(Update(rx, Flatten(cs), calls[0]), calls[1..], core, cs, m);
    }
  }

  lemma ShowsHeadBesides(rx: Rx, a: Arrival, rest: seq<Chunk>)
    ensures rx.incomplete.Some? ==> ShowsHead(rx, a, rest)
  {
  }

  /** A receiver with chunks to read can read. */
  lemma StillOk(rx: Rx, core: Core, cs: seq<Chunk>, n: nat)
    requires WellFormed(core, cs) && At(rx, core, cs, n) && n < |cs|
    ensures RxOk(rx)
  {
    hide Flatten, Deliver, After;
    RunSplit(core, cs, n);
    assert WellFormed(rx.core, cs[n..]) && cs[n..] != [];
  }

  /** Liveness of the read loop: after any history of calls that left the socket sound, one call
      per chunk that sees this chunk, wherever the loop is in it, completes the run. What is behind
      the chunk need not be there. */
  lemma Completes(core: Core, cs: seq<Chunk>, history: seq<seq<Arrival>>, calls: seq<seq<Arrival>>)
    requires WellFormed(core, cs)
    requires FairHistory(Start(core), Flatten(cs), history, cs)
    requires var r := Updates(Start(core), Flatten(cs), history);
             !r.error && AllProductive(r, Flatten(cs), calls, cs)
    requires |calls| >= |cs|
    ensures var r := Updates(Updates(Start(core), Flatten(cs), history), Flatten(cs), calls);
            && r.delivered == Deliver(core, cs)
            && r.core == After(core, cs)
            && r.pos == |Flatten(cs)|
  {
    hide Flatten, Updates, FairHistory, Deliver, After, AllProductive;
    StartsAt(core, cs);
    var n := UpdatesStep(Start(core), history, core, cs, 0);
    CatchUp(Updates(Start(core), Flatten(cs), history), calls, core, cs, n);
  }

  // ----- Through the cache

  /** The payload is read through a cache of limited size: no byte is visible that is further than
      that from where the payload is to be read. */
  predicate Cached(rx: Rx, wire: seq<byte>, a: Arrival) {
    var at := if rx.incomplete.Some? then rx.pos
              else rx.pos + ReadHead(rx.core.channels, Visible(wire, rx.pos, a.head)).consumed;
    a.body <= at + CACHE_SIZE
  }

  predicate CachedCall(rx: Rx, wire: seq<byte>, call: seq<Arrival>)
    requires RxOk(rx)
    decreases |call|
  {
    call == [] || rx.error ||
    (Cached(rx, wire, call[0]) &&
     var r := Tick(rx, wire, call[0]);
     r.delivered != rx.delivered || CachedCall(r, wire, call[1..]))
  }

  predicate CachedHistory(rx: Rx, wire: seq<byte>, calls: seq<seq<Arrival>>)
    decreases |calls|
  {
    calls == [] || !RxOk(rx) ||
    (CachedCall(rx, wire, calls[0]) && CachedHistory(Update(rx, wire, calls[0]), wire, calls[1..]))
  }

  /** One socket read against the cache that serves it: contents and queue are the bytes of the
      stream from the read position on, so the reader gets all of `n` bytes or none as visibility
      has it; and nothing is visible beyond the size of the cache as long as what comes in fits. */
  lemma SocketShows(wire: seq<byte>, pos: nat, drawn: nat, arrived: nat, n: nat, fails: bool)
    requires pos <= drawn <= arrived <= |wire|
    ensures var f := SocketCache.Fifo(wire[pos..drawn], false);
            var c := SocketCache.Call(true, n, wire[drawn..arrived], fails);
            var fills := SocketCache.Fills(f, c);
            var broken := fails && fills;
            // A fill that ends in a failure leaves what it has brought in unread.
            var seen := if fills && !fails then arrived else drawn;
            var w := Visible(wire, pos, seen);
            && SocketCache.Returned(f, c) == (if broken || |w| < n then [] else w[..n])
            && (Misses(w, n, fails) <==> broken)
            && SocketCache.AfterCall(f, c).contents ==
               wire[pos + |SocketCache.Returned(f, c)|..if fills then arrived else drawn]
            && (|SocketCache.Available(f, c)| <= CACHE_SIZE ==> |w| <= CACHE_SIZE)
  {
    var q := wire[drawn..arrived];
    assert wire[pos..drawn] + q == wire[pos..arrived];
    assert wire[pos..drawn] + [] == wire[pos..drawn];
    assert Visible(wire, pos, drawn) == wire[pos..drawn] && Visible(wire, pos, arrived) == wire[pos..arrived];
  }

  /** A read of more than the size of the cache never gets anything while what comes in fits. */
  lemma BigReadFails(f: SocketCache.Fifo, c: SocketCache.Call)
    requires c.exact && c.num > CACHE_SIZE && |SocketCache.Available(f, c)| <= CACHE_SIZE
    ensures SocketCache.Returned(f, c) == []
  {
  }

  /** A pass that does not see beyond the cache leaves a chunk with a larger part unfinished. */
  lemma BigPartStays(rx: Rx, a: Arrival, cs: seq<Chunk>, n: nat)
    requires n < |cs| && HeadsThere(cs) && Reading(rx, Flatten(cs), cs[n..])
    requires |cs[n].body| > CACHE_SIZE && Cached(rx, Flatten(cs), a)
    ensures !(ShowsHead(rx, a, cs[n..]) && ShowsChunk(rx, a, cs[n..]))
  {
    hide ReadHead, WellFormed, Flatten;
    assert cs[n] in cs;
    if rx.incomplete.None? && ShowsChunk(rx, a, cs[n..]) {
      HeadStep(rx, Flatten(cs), a, cs[n..]);
      OwnHead(rx, Flatten(cs), cs[n..]);
    }
  }

  lemma OwnHead(rx: Rx, wire: seq<byte>, rest: seq<Chunk>)
    requires Reading(rx, wire, rest) && rest != []
    ensures ReadHead(rx.core.channels, rest[0].head).consumed == |rest[0].head|
  {
    hide ReadHead, Flatten;
    FirstOk(rx.core, rest);
  }

  lemma {:induction false} CachedUpdate(rx: Rx, call: seq<Arrival>, core: Core, cs: seq<Chunk>, n: nat, i: nat)
    returns (m: nat)
    requires WellFormed(core, cs) && HeadsThere(cs) && RxOk(rx) && At(rx, core, cs, n)
    requires FairCall(rx, Flatten(cs), call, cs) && CachedCall(rx, Flatten(cs), call)
    requires n <= i < |cs| && |cs[i].body| > CACHE_SIZE
    ensures n <= m <= i && At(Update(rx, Flatten(cs), call), core, cs, m)
    decreases |call|
  {
    hide ReadHead, Flatten, WellFormed, Deliver, After, Tick, Fair, HeadsThere, ShowsChunk, ShowsHead, Cached;
    m := n;
    if call == [] || rx.error {
    } else {
      var r := Tick(rx, Flatten(cs), call[0]);
      m := TickAt(rx, call[0], core, cs, n);
      if n == i {
        BigPartStays(rx, call[0], cs, n);
      }
      if r.delivered == rx.delivered {
        var m' := CachedUpdate(r, call[1..], core, cs, m, i);
        m := m';
      }
    }
  }

  lemma {:induction false} CachedUpdates(rx: Rx, calls: seq<seq<Arrival>>, core: Core, cs: seq<Chunk>, n: nat, i: nat)
    returns (m: nat)
    requires WellFormed(core, cs) && HeadsThere(cs) && At(rx, core, cs, n)
    requires FairHistory(rx, Flatten(cs), calls, cs) && CachedHistory(rx, Flatten(cs), calls)
    requires n <= i < |cs| && |cs[i].body| > CACHE_SIZE
    ensures n <= m <= i && At(Updates(rx, Flatten(cs), calls), core, cs, m)
    decreases |calls|
  {
    hide Flatten, Update, FairCall, CachedCall, At, HeadsThere;
    m := n;
    if calls == [] || !RxOk(rx) {
    } else {
      m := CachedUpdate(rx, calls[0], core, cs, n, i);
      var m' := CachedUpdates(Update(rx, Flatten(cs), calls[0]), calls[1..], core, cs, m, i);
      m := m';
    }
  }

  /** Through the cache the loop never gets past a part that is larger: nothing of that chunk's
      message or of what follows is delivered, however often it tries. */
  lemma BigPartBlocks(core: Core, cs: seq<Chunk>, i: nat, calls: seq<seq<Arrival>>)
    requires WellFormed(core, cs) && i < |cs| && |cs[i].body| > CACHE_SIZE
    requires FairHistory(Start(core), Flatten(cs), calls, cs) && CachedHistory(Start(core), Flatten(cs), calls)
    ensures WellFormed(core, cs[..i])
    ensures Updates(Start(core), Flatten(cs), calls).delivered <= Deliver(core, cs[..i])
  {
    hide Flatten, Updates, FairHistory, CachedHistory, Reading;
    StartsAt(core, cs);
    var m := CachedUpdates(Start(core), calls, core, cs, 0, i);
    RunSplit(core, cs, i);
    RunSplit(core, cs[..i], m);
    assert cs[..i][..m] == cs[..m];
  }

  // ----- A timing that succeeds

  /** A call of ten passes of which the first sees one chunk, behind what has been read, and the
      others nothing. */
  function OneChunkCall(pos: nat, c: Chunk): seq<Arrival> {
    [Arrival(pos + |c.head|, pos + |ChunkBytes(c)|, false)] + seq(PASSES - 1, _ => Arrival(0, 0, false))
  }

  function OneChunkCalls(pos: nat, cs: seq<Chunk>): seq<seq<Arrival>>
    decreases |cs|
  {
    if cs == [] then [] else [OneChunkCall(pos, cs[0])] + OneChunkCalls(pos + |ChunkBytes(cs[0])|, cs[1..])
  }

  lemma {:induction false} IdleCall(rx: Rx, wire: seq<byte>, call: seq<Arrival>, cs: seq<Chunk>)
    requires RxOk(rx) && rx.incomplete.None? && forall a <- call :: a == Arrival(0, 0, false)
    ensures Update(rx, wire, call) == rx && FairCall(rx, wire, call, cs) && CachedCall(rx, wire, call)
    decreases |call|
  {
    hide ReadHead, Tick;
    if call == [] || rx.error {
    } else {
      assert call[0] in call && forall a <- call[1..] :: a in call;
      TickIdle(rx, wire, call[0]);
      IdleCall(rx, wire, call[1..], cs);
    }
  }

  /** The loop is at the start of chunk `n`. */
  ghost predicate AtStart(rx: Rx, core: Core, cs: seq<Chunk>, n: nat)
    requires WellFormed(core, cs)
  {
    At(rx, core, cs, n) && rx.incomplete.None? && !rx.error
  }

  lemma OneChunkPass(rx: Rx, core: Core, cs: seq<Chunk>, n: nat)
    requires WellFormed(core, cs) && HeadsThere(cs) && n < |cs| && AtStart(rx, core, cs, n)
    requires |cs[n].body| <= CACHE_SIZE
    ensures var a := OneChunkCall(rx.pos, cs[n])[0];
            && RxOk(rx) && Fair(rx, Flatten(cs), a, cs) && Cached(rx, Flatten(cs), a) && ShowsNext(rx, a, cs)
            && AtStart(Tick(rx, Flatten(cs), a), core, cs, n + 1)
            && Tick(rx, Flatten(cs), a).pos == rx.pos + |ChunkBytes(cs[n])|
  {
    hide ReadHead, WellFormed, Flatten, HeadEnd, ChunkEnd, Deliver, After, Tick, Fair;
    var a := OneChunkCall(rx.pos, cs[n])[0];
    assert cs[n] in cs;
    StillOk(rx, core, cs, n);
    Place(rx, cs, n);
    HeadEndIs(cs, n);
    ChunkEndIs(cs, n, 0);
    FairIsShown(rx, a, cs, n);
    HeadStep(rx, Flatten(cs), a, cs[n..]);
    OwnHead(rx, Flatten(cs), cs[n..]);
    var m := TickAt(rx, a, core, cs, n);
    TickOnHead(rx, Flatten(cs), a, cs[n..]);
    WholeChunk(rx, Flatten(cs), a, cs[n..]);
  }

  lemma WholeChunk(rx: Rx, wire: seq<byte>, a: Arrival, rest: seq<Chunk>)
    requires RxOk(rx) && Reading(rx, wire, rest) && rest != [] && rx.incomplete.None?
    requires a.head == rx.pos + |rest[0].head| && a.body == rx.pos + |ChunkBytes(rest[0])| && rest[0].head != []
    ensures var r := Tick(rx, wire, a);
            r.incomplete.None? && r.pos == rx.pos + |ChunkBytes(rest[0])|
  {
    hide ReadHead, Flatten, Store, Extended;
    FirstOk(rx.core, rest);
    TickOnHead(rx, wire, a, rest);
    HeadStep(rx, wire, a, rest);
    var pos := rx.pos + |rest[0].head|;
    assert |wire[pos..]| == |wire| - pos >= |rest[0].body|;
  }

  lemma {:induction false} OneChunkUpdates(rx: Rx, core: Core, cs: seq<Chunk>, n: nat)
    requires WellFormed(core, cs) && HeadsThere(cs) && n <= |cs| && AtStart(rx, core, cs, n)
    requires forall c <- cs :: |c.body| <= CACHE_SIZE
    ensures var calls := OneChunkCalls(rx.pos, cs[n..]);
            && AllProductive(rx, Flatten(cs), calls, cs) && FairHistory(rx, Flatten(cs), calls, cs)
            && CachedHistory(rx, Flatten(cs), calls) && |calls| == |cs| - n
    decreases |cs| - n
  {
    hide ReadHead, WellFormed, Flatten, Deliver, After, Tick, Fair, At, HeadsThere, Cached, ShowsNext, CachedCall,
         FairCall;
    if n == |cs| {
    } else {
      assert cs[n] in cs;
      OneChunkPass(rx, core, cs, n);
      var call := OneChunkCall(rx.pos, cs[n]);
      var next := Tick(rx, Flatten(cs), call[0]);
      OneChunkWholeCall(rx, next, cs, n);
      assert cs[n..][1..] == cs[n + 1..];
      if RxOk(next) {
        OneChunkUpdates(next, core, cs, n + 1);
      } else {
        OneChunkCount(next.pos, cs[n + 1..]);
      }
      var calls := OneChunkCalls(rx.pos, cs[n..]);
      assert calls == [call] + OneChunkCalls(next.pos, cs[n + 1..]);
      assert calls[0] == call && calls[1..] == OneChunkCalls(next.pos, cs[n + 1..]);
    }
  }

  lemma {:induction false} OneChunkCount(pos: nat, cs: seq<Chunk>)
    ensures |OneChunkCalls(pos, cs)| == |cs| && forall c <- OneChunkCalls(pos, cs) :: |c| == PASSES
    decreases |cs|
  {
    if cs == [] {
    } else {
      OneChunkCount(pos + |ChunkBytes(cs[0])|, cs[1..]);
      var calls := OneChunkCalls(pos, cs);
      assert forall c <- calls :: c == calls[0] || c in calls[1..];
    }
  }

  lemma OneChunkWholeCall(rx: Rx, next: Rx, cs: seq<Chunk>, n: nat)
    requires n < |cs| && RxOk(rx) && !rx.error && next == Tick(rx, Flatten(cs), OneChunkCall(rx.pos, cs[n])[0])
    requires next.incomplete.None? && !next.error
    requires var a := OneChunkCall(rx.pos, cs[n])[0];
             Fair(rx, Flatten(cs), a, cs) && Cached(rx, Flatten(cs), a) && ShowsNext(rx, a, cs)
    ensures var call := OneChunkCall(rx.pos, cs[n]);
            && Update(rx, Flatten(cs), call) == next && Productive(rx, Flatten(cs), call, cs)
            && CachedCall(rx, Flatten(cs), call)
  {
    hide Flatten, Tick, Fair, Cached, ShowsNext;
    var call := OneChunkCall(rx.pos, cs[n]);
    assert forall a <- call[1..] :: a == Arrival(0, 0, false);
    if next.delivered == rx.delivered {
      IdleCall(next, Flatten(cs), call[1..], cs);
    }
  }

  /** A stream can be read through the cache, ten passes a call, iff no part of a payload is larger
      than the cache. */
  lemma CacheCompletesIff(core: Core, cs: seq<Chunk>)
    requires WellFormed(core, cs) && EndsMessage(core, cs)
    ensures (exists calls ::
               && (forall c <- calls :: |c| == PASSES)
               && FairHistory(Start(core), Flatten(cs), calls, cs) && CachedHistory(Start(core), Flatten(cs), calls)
               && Updates(Start(core), Flatten(cs), calls).delivered == Deliver(core, cs))
            <==> forall c <- cs :: |c.body| <= CACHE_SIZE
  {
    hide Flatten, Updates, FairHistory, CachedHistory, AllProductive, Deliver, After;
    StartsAt(core, cs);
    if forall c <- cs :: |c.body| <= CACHE_SIZE {
      var calls := OneChunkCalls(0, cs);
      assert cs[0..] == cs;
      OneChunkUpdates(Start(core), core, cs, 0);
      OneChunkCount(0, cs);
      CatchUp(Start(core), calls, core, cs, 0);
    } else {
      var i :| 0 <= i < |cs| && |cs[i].body| > CACHE_SIZE;
      forall calls | FairHistory(Start(core), Flatten(cs), calls, cs) && CachedHistory(Start(core), Flatten(cs), calls)
        ensures Updates(Start(core), Flatten(cs), calls).delivered != Deliver(core, cs)
      {
        BigPartBlocks(core, cs, i, calls);
        EarlierDeliversLess(core, cs, i);
      }
    }
  }

  /** A peer that has set a chunk size of 65536 and sends a message of 20000 bytes in one part. */
  lemma BigMessageBlocks(payload: seq<byte>, calls: seq<seq<Arrival>>)
    requires |payload| == 20000
    ensures var core := Core(map[], 0x1_0000);
            var cs := [Chunk([3, 0, 0, 0, 0, 0x4e, 0x20, 8, 0, 0, 0, 0], payload)];
            && WellFormed(core, cs) && Deliver(core, cs) == [Message(3, 8, 0, 0, payload)]
            && (FairHistory(Start(core), Flatten(cs), calls, cs) && CachedHistory(Start(core), Flatten(cs), calls) ==>
                Updates(Start(core), Flatten(cs), calls).delivered == [])
  {
    hide WellFormed, Deliver, Updates, FairHistory, CachedHistory, Flatten;
    var head: seq<byte> := [3, 0, 0, 0, 0, 0x4e, 0x20, 8, 0, 0, 0, 0];
    var core, c := Core(map[], 0x1_0000), Chunk(head, payload);
    BigHead(head);
    assert [] + payload == payload;
    assert ChunkOk(core, c) && Receive(core, c).1 == [Message(3, 8, 0, 0, payload)];
    RunOfOne(core, c);
    if FairHistory(Start(core), Flatten([c]), calls, [c]) && CachedHistory(Start(core), Flatten([c]), calls) {
      BigPartBlocks(core, [c], 0, calls);
      assert [c][..0] == [] && Deliver(core, []) == [] by { NothingYet(core); }
    }
  }

  lemma NothingYet(core: Core)
    ensures WellFormed(core, []) && Deliver(core, []) == []
  {
  }

  lemma BigHead(head: seq<byte>)
    requires head == [3, 0, 0, 0, 0, 0x4e, 0x20, 8, 0, 0, 0, 0]
    ensures ReadHead(map[], head) == Head(RawPacket.Packet(Header(Large, 8, 0, 0, 3, 20000), Some([])), 12)
  {
    var f := head[1..12];
    assert f == [0, 0, 0, 0, 0x4e, 0x20, 8, 0, 0, 0, 0];
    assert f[3..] == [0, 0x4e, 0x20, 8, 0, 0, 0, 0] && f[7..] == [0, 0, 0, 0];
    var p: Packet := RawPacket.Packet(Header(Large, 0, 0, 0, 3, 0), Some([]));
    assert ReadHead(map[], head) == ReadFields(map[], Large, 3, head, 1);
    assert DecodeFields(p, Large, f) == RawPacket.Packet(Header(Large, 8, 0, 0, 3, 20000), None);
  }
}
