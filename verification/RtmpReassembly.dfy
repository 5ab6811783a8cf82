/** The read loop against the chunk stream it reads: whatever the timing of the bytes, it
    delivers the messages of the chunks, once each and in order. */
module RtmpReassembly {
  import opened Bytes
  import opened RtmpWire
  import opened RtmpReceiver

  function Start(core: Core): Rx {
    Rx(core, None, [], 0, false)
  }

  // ----- Headers are self-delimiting

  lemma SliceOfPrefix(w: seq<byte>, more: seq<byte>, lo: nat, hi: nat)
    requires lo <= hi <= |w|
    ensures (w + more)[lo..hi] == w[lo..hi]
  {
  }

  lemma ReadFieldsMore(channels: InChannels, t: HeaderType, channel: nat, w: seq<byte>, at: nat, more: seq<byte>)
    requires at <= |w| && ReadFields(channels, t, channel, w, at).Head?
    ensures ReadFields(channels, t, channel, w + more, at) == ReadFields(channels, t, channel, w, at)
  {
    var n := FieldSize(t);
    SliceOfPrefix(w, more, at, at + n);
    if at + n + 4 <= |w| {
      SliceOfPrefix(w, more, at + n, at + n + 4);
    }
  }

  /** Bytes behind a header do not change how it is read. */
  lemma ReadHeadMore(channels: InChannels, w: seq<byte>, more: seq<byte>)
    requires ReadHead(channels, w).Head?
    ensures ReadHead(channels, w + more) == ReadHead(channels, w)
  {
    var low := w[0] % 64;
    var t := TypeOfCode(w[0] / 64);
    if low == 0 {
      ReadFieldsMore(channels, t, 64 + (w[1] as int), w, 2, more);
    } else if low == 1 {
      ReadFieldsMore(channels, t, 0x100 * (w[2] as int) + w[1] + 64, w, 3, more);
    } else {
      ReadFieldsMore(channels, t, low, w, 1, more);
    }
  }

  // ----- The simulation

  /** The loop has still to read exactly the chunks `rest`, or all of them but the header of the
      first, which it holds as its incomplete packet. */
  ghost predicate Reading(rx: Rx, wire: seq<byte>, rest: seq<Chunk>) {
    && rx.pos <= |wire|
    && WellFormed(rx.core, rest)
    && match rx.incomplete
       case None => wire[rx.pos..] == Flatten(rest)
       case Some(p) =>
         && rest != []
         && ReadHead(rx.core.channels, rest[0].head) == Head(p, |rest[0].head|)
         && wire[rx.pos..] == rest[0].body + Flatten(rest[1..])
  }

  /** With the pass about to read a header, that header is visible whole or not at all. What is
      visible of the headers behind it does not matter. */
  predicate ShowsHead(rx: Rx, a: Arrival, rest: seq<Chunk>) {
    rx.incomplete.None? && rx.pos < a.head && rest != [] ==> a.head >= rx.pos + |rest[0].head|
  }

  /** The pass sees all that is left of the next chunk. */
  predicate ShowsChunk(rx: Rx, a: Arrival, rest: seq<Chunk>): (b: bool)
    ensures b ==> rest != []
  {
    rest != [] &&
    var h := if rx.incomplete.None? then |rest[0].head| else 0;
    (h > 0 ==> a.head >= rx.pos + h) && (rest[0].body != [] ==> a.body >= rx.pos + h + |rest[0].body|)
  }

  /** What one pass makes of the chunks to be read: the first one is read, or it remains. */
  ghost predicate Progress(rx: Rx, r: Rx, wire: seq<byte>, rest: seq<Chunk>, done: bool)
    requires done ==> rest != [] && ChunkOk(rx.core, rest[0])
  {
    && Reading(r, wire, if done then rest[1..] else rest)
    && if done then (r.core, r.delivered) == (Receive(rx.core, rest[0]).0, rx.delivered + Receive(rx.core, rest[0]).1)
       else r.core == rx.core && r.delivered == rx.delivered
  }

  lemma BodyStep(rx: Rx, p: Packet, wire: seq<byte>, seen: nat, fails: bool, rest: seq<Chunk>)
    requires rx.pos <= |wire| && rx.incomplete.None?
    requires WellFormed(rx.core, rest) && rest != []
    requires ReadHead(rx.core.channels, rest[0].head) == Head(p, |rest[0].head|)
    requires wire[rx.pos..] == rest[0].body + Flatten(rest[1..])
    ensures var r := ReadBody(rx, p, wire, seen, fails);
            && Progress(rx, r, wire, rest, rest[0].body == [] || seen >= rx.pos + |rest[0].body|)
            && (!fails ==> r.error == rx.error)
  {
    hide ReadHead, Store, Extended, Flatten, Expected;
    var n := Expected(p, rx.core.chunk);
    var w := Visible(wire, rx.pos, seen);
    assert |wire| - rx.pos >= n == |rest[0].body|;
    if |w| >= n {
      assert w[..n] == wire[rx.pos..][..n] == rest[0].body;
      assert wire[rx.pos + n..] == wire[rx.pos..][n..] == Flatten(rest[1..]);
    }
  }

  lemma HeadNotEmpty(core: Core, cs: seq<Chunk>)
    requires WellFormed(core, cs) && cs != []
    ensures cs[0].head != []
  {
    hide ReadFields;
    assert ChunkOk(core, cs[0]);
  }

  lemma HeadVisible(rx: Rx, wire: seq<byte>, a: Arrival, rest: seq<Chunk>)
    requires Reading(rx, wire, rest) && rx.incomplete.None?
    requires rx.pos < a.head && rest != []
    ensures var h := rest[0].head;
            && |h| > 0 && rx.pos + |h| <= |wire|
            && wire[rx.pos + |h|..] == rest[0].body + Flatten(rest[1..])
            && var w := Visible(wire, rx.pos, a.head);
               && w != []
               && if a.head >= rx.pos + |h| then w == h + w[|h|..]
                  else h == w + h[|w|..] && |w| == a.head - rx.pos < |h|
  {
    hide ReadHead, WellFormed, Flatten;
    HeadNotEmpty(rx.core, rest);
    var h := rest[0].head;
    HeadPlace(rx, wire, rest);
    var w := Visible(wire, rx.pos, a.head);
    PartOfHead(wire[rx.pos..], h, |w|);
    assert w == wire[rx.pos..][..|w|];
  }

  lemma HeadPlace(rx: Rx, wire: seq<byte>, rest: seq<Chunk>)
    requires Reading(rx, wire, rest) && rx.incomplete.None? && rest != []
    ensures var h := rest[0].head;
            && rx.pos + |h| <= |wire| && h <= wire[rx.pos..]
            && wire[rx.pos + |h|..] == rest[0].body + Flatten(rest[1..])
  {
    hide ReadHead, WellFormed;
    var h, tail := rest[0].head, wire[rx.pos..];
    ConcatAssociative(h, rest[0].body, Flatten(rest[1..]));
    assert tail == h + (rest[0].body + Flatten(rest[1..]));
    assert wire[rx.pos + |h|..] == tail[|h|..];
  }

  lemma PartOfHead(tail: seq<byte>, h: seq<byte>, k: nat)
    requires h <= tail && k <= |tail|
    ensures if k >= |h| then tail[..k] == h + tail[..k][|h|..] else h == tail[..k] + h[k..]
  {
    assert tail[..|h|] == h;
  }

  /** A header of which all is visible is read as the chunk's header. */
  lemma HeadStep(rx: Rx, wire: seq<byte>, a: Arrival, rest: seq<Chunk>)
    requires Reading(rx, wire, rest) && rx.incomplete.None?
    requires rx.pos < a.head && rest != [] && ShowsHead(rx, a, rest)
    ensures ReadHead(rx.core.channels, Visible(wire, rx.pos, a.head)) ==
            ReadHead(rx.core.channels, rest[0].head)
    ensures rx.pos + |rest[0].head| <= |wire|
    ensures wire[rx.pos + |rest[0].head|..] == rest[0].body + Flatten(rest[1..])
  {
    var h := rest[0].head;
    HeadVisible(rx, wire, a, rest);
    ReadHeadMore(rx.core.channels, h, Visible(wire, rx.pos, a.head)[|h|..]);
  }

  /** A header of which a part is visible is not read, and the part is lost. */
  lemma HeadInPart(rx: Rx, wire: seq<byte>, a: Arrival, rest: seq<Chunk>)
    requires RxOk(rx) && Reading(rx, wire, rest) && !ShowsHead(rx, a, rest)
    ensures var r := Tick(rx, wire, a);
            && r == rx.(pos := r.pos, error := rx.error || a.fails)
            && rx.pos < r.pos < rx.pos + |rest[0].head| <= |wire|
  {
    hide ReadBody, DecodeFields;
    var h := rest[0].head;
    HeadVisible(rx, wire, a, rest);
    var w := Visible(wire, rx.pos, a.head);
    if ReadHead(rx.core.channels, w).Head? {
      ReadHeadMore(rx.core.channels, w, h[|w|..]);
    } else if !ReadHead(rx.core.channels, w).missing {
      UnknownStays(rx.core.channels, w, h[|w|..]);
    }
  }

  /** A header that refers to a channel without memory does so whatever is behind it. */
  lemma UnknownStays(channels: InChannels, w: seq<byte>, more: seq<byte>)
    requires ReadHead(channels, w).Failed? && !ReadHead(channels, w).missing
    ensures ReadHead(channels, w + more) == ReadHead(channels, w)
  {
    hide DecodeFields;
    var all := w + more;
    assert all[0] == w[0] && (|w| > 1 ==> all[1] == w[1]) && (|w| > 2 ==> all[2] == w[2]);
  }

  /** A pass that starts on a header does what reading that chunk's payload does. */
  lemma TickOnHead(rx: Rx, wire: seq<byte>, a: Arrival, rest: seq<Chunk>)
    requires RxOk(rx) && Reading(rx, wire, rest) && rx.incomplete.None?
    requires rx.pos < a.head && rest != [] && ShowsHead(rx, a, rest)
    ensures var r := ReadHead(rx.core.channels, rest[0].head);
            && r.Head? && r.consumed == |rest[0].head|
            && Tick(rx, wire, a) ==
               ReadBody(rx.(pos := rx.pos + |rest[0].head|), r.packet, wire, a.body, a.fails)
  {
    hide ReadHead, ReadBody, Flatten, Deliver;
    HeadStep(rx, wire, a, rest);
  }

  /** A pass without a new byte does nothing, or meets the failure of the socket. */
  lemma TickIdle(rx: Rx, wire: seq<byte>, a: Arrival)
    requires RxOk(rx) && rx.incomplete.None? && Min(a.head, |wire|) <= rx.pos
    ensures Tick(rx, wire, a) == rx.(error := rx.error || a.fails)
  {
    assert Visible(wire, rx.pos, a.head) == [];
  }

  lemma RemainsUnread(rx: Rx, wire: seq<byte>, rest: seq<Chunk>)
    requires Reading(rx, wire, rest) && rx.incomplete.None? && rest != []
    ensures rx.pos < |wire| && rest[0].head != []
  {
    assert |ReadHead(rx.core.channels, rest[0].head).packet.buffer.value| >= 0;
    assert |wire[rx.pos..]| == |Flatten(rest)| >= |rest[0].head| > 0;
  }

  lemma FirstOk(core: Core, cs: seq<Chunk>)
    requires WellFormed(core, cs) && cs != []
    ensures ChunkOk(core, cs[0])
  {
  }

  /** One pass either reads nothing, a header, a payload or a whole chunk: it finishes the next chunk
      iff it sees all that is left of it. */
  lemma TickStep(rx: Rx, wire: seq<byte>, a: Arrival, rest: seq<Chunk>)
    requires RxOk(rx) && Reading(rx, wire, rest) && ShowsHead(rx, a, rest)
    ensures rest != [] ==> ChunkOk(rx.core, rest[0])
    ensures Progress(rx, Tick(rx, wire, a), wire, rest, ShowsChunk(rx, a, rest))
    ensures !a.fails ==> Tick(rx, wire, a).error == rx.error
  {
    hide ReadHead, ReadBody, Flatten, WellFormed, ChunkOk, Receive;
    if rest != [] {
      FirstOk(rx.core, rest);
    }
    if rx.incomplete.Some? {
      BodyStep(rx.(incomplete := None), rx.incomplete.value, wire, a.body, a.fails, rest);
    } else if rx.pos < a.head && rest != [] {
      TickOnHead(rx, wire, a, rest);
      HeadStep(rx, wire, a, rest);
      RemainsUnread(rx, wire, rest);
      var h := rest[0].head;
      BodyStep(rx.(pos := rx.pos + |h|), ReadHead(rx.core.channels, h).packet, wire, a.body, a.fails, rest);
    } else {
      if rest == [] {
        AllRead(rx, wire);
      } else {
        RemainsUnread(rx, wire, rest);
      }
      TickIdle(rx, wire, a);
    }
  }

  lemma AllRead(rx: Rx, wire: seq<byte>)
    requires Reading(rx, wire, [])
    ensures rx.pos == |wire|
  {
    assert |wire[rx.pos..]| == |Flatten([])| == 0;
  }

  lemma {:induction false} FlattenShrinks(cs: seq<Chunk>, n: nat)
    requires n <= |cs|
    ensures |Flatten(cs[n..])| <= |Flatten(cs)|
    decreases n
  {
    if n == 0 {
      assert cs[0..] == cs;
    } else {
      FlattenShrinks(cs[1..], n - 1);
      assert cs[1..][n - 1..] == cs[n..];
    }
  }

  /** A pass leaves the loop in step with the stream, at whatever chunk, iff it does not find the
      header it is about to read visible in part. */
  lemma InStepIff(rx: Rx, wire: seq<byte>, a: Arrival, rest: seq<Chunk>)
    requires RxOk(rx) && Reading(rx, wire, rest)
    ensures (exists k: nat :: k <= |rest| && Reading(Tick(rx, wire, a), wire, rest[k..])) <==> ShowsHead(rx, a, rest)
  {
    hide ReadHead, Tick, WellFormed, Deliver, ShowsChunk;
    var r := Tick(rx, wire, a);
    if ShowsHead(rx, a, rest) {
      TickStep(rx, wire, a, rest);
      var k := if ShowsChunk(rx, a, rest) then 1 else 0;
      assert rest[0..] == rest;
      assert Reading(r, wire, rest[k..]);
    } else {
      HeadInPart(rx, wire, a, rest);
      forall k: nat | k <= |rest|
        ensures !Reading(r, wire, rest[k..])
      {
        assert |wire[r.pos..]| == |wire| - r.pos && |wire[rx.pos..]| == |wire| - rx.pos;
        if k == 0 {
          assert rest[0..] == rest;
        } else {
          FlattenShrinks(rest[1..], k - 1);
          assert rest[1..][k - 1..] == rest[k..];
        }
      }
    }
  }

  // ----- Timings over whole histories

  /** Where the header ends that starts at byte `pos` of a chunk stream. */
  function HeadEnd(cs: seq<Chunk>, pos: int): int
    decreases |cs|
  {
    if cs == [] then pos
    else if pos <= 0 then |cs[0].head|
    else |ChunkBytes(cs[0])| + HeadEnd(cs[1..], pos - |ChunkBytes(cs[0])|)
  }

  /** A pass that is about to read a header of the stream does not find it visible in part, unless
      the socket fails there and so ends all reading. The bytes of the stream may end early, in
      `wire`. */
  predicate Fair(rx: Rx, wire: seq<byte>, a: Arrival, cs: seq<Chunk>) {
    var seen := Min(a.head, |wire|);
    rx.incomplete.None? && !a.fails && rx.pos < seen ==> seen >= HeadEnd(cs, rx.pos)
  }

  /** The passes of one call are fair, each where the ones before it have left the loop. */
  predicate FairCall(rx: Rx, wire: seq<byte>, arrivals: seq<Arrival>, cs: seq<Chunk>)
    requires RxOk(rx)
    decreases |arrivals|
  {
    arrivals == [] || rx.error ||
    (Fair(rx, wire, arrivals[0], cs) &&
     var r := Tick(rx, wire, arrivals[0]);
     r.delivered != rx.delivered || FairCall(r, wire, arrivals[1..], cs))
  }

  predicate FairHistory(rx: Rx, wire: seq<byte>, calls: seq<seq<Arrival>>, cs: seq<Chunk>)
    decreases |calls|
  {
    calls == [] || !RxOk(rx) ||
    (FairCall(rx, wire, calls[0], cs) && FairHistory(Update(rx, wire, calls[0]), wire, calls[1..], cs))
  }

  predicate HeadsThere(cs: seq<Chunk>) {
    forall c <- cs :: c.head != []
  }

  lemma {:induction false} WellFormedHeads(core: Core, cs: seq<Chunk>)
    requires WellFormed(core, cs)
    ensures HeadsThere(cs)
    decreases |cs|
  {
    hide DecodeFields, Receive;
    if cs == [] {
    } else {
      WellFormedHeads(Receive(core, cs[0]).0, cs[1..]);
      assert forall c <- cs :: c == cs[0] || c in cs[1..];
    }
  }

  /** The loop's position tells which chunk it is at. */
  lemma {:induction false} HeadEndIs(cs: seq<Chunk>, n: nat)
    requires n <= |cs| && HeadsThere(cs)
    ensures var pos := |Flatten(cs)| - |Flatten(cs[n..])|;
            HeadEnd(cs, pos) == if n == |cs| then pos else pos + |cs[n].head|
    decreases n
  {
    if n == 0 {
      assert cs[0..] == cs;
    } else {
      HeadEndIs(cs[1..], n - 1);
      FlattenShrinks(cs[1..], n - 1);
      assert cs[0] in cs && cs[1..][n - 1..] == cs[n..];
    }
  }

  /** A header of the stream is visible as it is in the rest of the stream. */
  lemma FairIsShown(rx: Rx, a: Arrival, cs: seq<Chunk>, n: nat)
    requires n <= |cs| && HeadsThere(cs) && Reading(rx, Flatten(cs), cs[n..])
    ensures Fair(rx, Flatten(cs), a, cs) <==> a.fails || ShowsHead(rx, a, cs[n..])
  {
    hide ReadHead, WellFormed, Flatten, HeadEnd;
    HeadEndIs(cs, n);
    if rx.incomplete.None? {
      assert |Flatten(cs)[rx.pos..]| == |Flatten(cs)| - rx.pos;
      if n < |cs| {
        HeadInStream(cs[n..]);
      } else {
        assert Flatten([]) == [] by { NoBytes(); }
      }
    }
  }

  lemma HeadInStream(cs: seq<Chunk>)
    requires cs != []
    ensures |cs[0].head| <= |Flatten(cs)|
  {
  }

  lemma NoBytes()
    ensures Flatten([]) == []
  {
  }

  /** A well-formed stream is well formed up to any chunk and from there on. */
  lemma {:induction false} RunSplit(core: Core, cs: seq<Chunk>, n: nat)
    requires WellFormed(core, cs) && n <= |cs|
    ensures WellFormed(core, cs[..n]) && WellFormed(After(core, cs[..n]), cs[n..])
    ensures After(core, cs) == After(After(core, cs[..n]), cs[n..])
    ensures Deliver(core, cs) == Deliver(core, cs[..n]) + Deliver(After(core, cs[..n]), cs[n..])
    decreases n
  {
    hide ChunkOk, Receive;
    if n == 0 {
      assert cs[..0] == [] && cs[0..] == cs;
      assert [] + Deliver(core, cs) == Deliver(core, cs);
    } else {
      var (next, ms) := Receive(core, cs[0]);
      assert cs[..n][0] == cs[0] && cs[..n][1..] == cs[1..][..n - 1] && cs[1..][n - 1..] == cs[n..];
      RunSplit(next, cs[1..], n - 1);
      ConcatAssociative(ms, Deliver(next, cs[1..][..n - 1]), Deliver(After(core, cs[..n]), cs[n..]));
    }
  }

  /** One more chunk. */
  lemma RunSnoc(core: Core, cs: seq<Chunk>, n: nat)
    requires WellFormed(core, cs) && n < |cs|
    ensures WellFormed(core, cs[..n]) && ChunkOk(After(core, cs[..n]), cs[n]) && WellFormed(core, cs[..n + 1])
    ensures var (next, ms) := Receive(After(core, cs[..n]), cs[n]);
            After(core, cs[..n + 1]) == next && Deliver(core, cs[..n + 1]) == Deliver(core, cs[..n]) + ms
  {
    hide ChunkOk, Receive;
    RunSplit(core, cs, n);
    RunSplit(core, cs, n + 1);
    var mid := After(core, cs[..n]);
    RunOfOne(mid, cs[n]);
    RunConcat(core, cs[..n], [cs[n]]);
    assert cs[..n] + [cs[n]] == cs[..n + 1];
  }

  lemma RunOfOne(core: Core, c: Chunk)
    requires ChunkOk(core, c)
    ensures WellFormed(core, [c]) && Deliver(core, [c]) == Receive(core, c).1 && After(core, [c]) == Receive(core, c).0
  {
    hide ChunkOk, Receive;
    var next := Receive(core, c).0;
    assert [c][1..] == [];
    assert WellFormed(next, []) && Deliver(next, []) == [] && After(next, []) == next;
    assert Receive(core, c).1 + [] == Receive(core, c).1;
  }

  /** The loop after some calls: it has taken in the first `n` chunks and nothing else, and has still
      to read the others; or the socket has failed in front of one of them. */
  ghost predicate At(rx: Rx, core: Core, cs: seq<Chunk>, n: nat)
    requires WellFormed(core, cs)
  {
    && n <= |cs| && WellFormed(core, cs[..n])
    && rx.core == After(core, cs[..n]) && rx.delivered == Deliver(core, cs[..n])
    && rx.pos <= |Flatten(cs)|
    && (Reading(rx, Flatten(cs), cs[n..]) || (rx.error && n < |cs| && rx.incomplete.None?))
  }

  lemma TickAt(rx: Rx, a: Arrival, core: Core, cs: seq<Chunk>, n: nat) returns (m: nat)
    requires WellFormed(core, cs) && HeadsThere(cs)
    requires RxOk(rx) && !rx.error && At(rx, core, cs, n) && Fair(rx, Flatten(cs), a, cs)
    ensures var r := Tick(rx, Flatten(cs), a);
            && At(r, core, cs, m) && (m == n ==> r.delivered == rx.delivered)
            && (!a.fails ==> r.error == rx.error)
    ensures m == if ShowsHead(rx, a, cs[n..]) && ShowsChunk(rx, a, cs[n..]) then n + 1 else n
  {
    hide ReadHead, ReadBody, Flatten, WellFormed, Deliver, After, Tick, Fair, ChunkOk, Receive, ShowsChunk;
    FairIsShown(rx, a, cs, n);
    m := n;
    if !ShowsHead(rx, a, cs[n..]) {
      HeadInPart(rx, Flatten(cs), a, cs[n..]);
    } else {
      TickStep(rx, Flatten(cs), a, cs[n..]);
      if ShowsChunk(rx, a, cs[n..]) {
        m := n + 1;
        RunSnoc(core, cs, n);
        assert cs[n..][1..] == cs[n + 1..];
      }
    }
  }

  lemma {:induction false} UpdateStep(rx: Rx, arrivals: seq<Arrival>, core: Core, cs: seq<Chunk>, n: nat)
    returns (m: nat)
    requires WellFormed(core, cs) && HeadsThere(cs) && RxOk(rx) && At(rx, core, cs, n)
    requires FairCall(rx, Flatten(cs), arrivals, cs)
    ensures n <= m && At(Update(rx, Flatten(cs), arrivals), core, cs, m)
    ensures (arrivals != [] && !rx.error &&
             ShowsChunk(rx, arrivals[0], cs[n..]) && ShowsHead(rx, arrivals[0], cs[n..])) ==> m > n
    decreases |arrivals|
  {
    hide ReadHead, ReadBody, Flatten, WellFormed, Deliver, Tick, Fair, HeadsThere, ShowsChunk, ShowsHead;
    m := n;
    if arrivals == [] || rx.error {
    } else {
      var r := Tick(rx, Flatten(cs), arrivals[0]);
      m := TickAt(rx, arrivals[0], core, cs, n);
      if r.delivered == rx.delivered {
        var m' := UpdateStep(r, arrivals[1..], core, cs, m);
        m := m';
      }
    }
  }

  /** Only a broken socket raises the error flag. */
  lemma {:induction false} ErrorFree(rx: Rx, wire: seq<byte>, arrivals: seq<Arrival>)
    requires RxOk(rx) && forall a <- arrivals :: !a.fails
    ensures Update(rx, wire, arrivals).error == rx.error
    decreases |arrivals|
  {
    hide ReadHead;
    if arrivals == [] || rx.error {
    } else {
      var r := Tick(rx, wire, arrivals[0]);
      assert arrivals[0] in arrivals && forall a <- arrivals[1..] :: a in arrivals;
      assert r.error == rx.error;
      if r.delivered == rx.delivered {
        ErrorFree(r, wire, arrivals[1..]);
      }
    }
  }

  lemma {:induction false} UpdatesStep(rx: Rx, calls: seq<seq<Arrival>>, core: Core, cs: seq<Chunk>, n: nat)
    returns (m: nat)
    requires WellFormed(core, cs) && HeadsThere(cs) && At(rx, core, cs, n)
    requires FairHistory(rx, Flatten(cs), calls, cs)
    ensures n <= m && At(Updates(rx, Flatten(cs), calls), core, cs, m)
    decreases |calls|
  {
    hide Flatten, Update, FairCall, At, HeadsThere;
    m := n;
    if calls == [] || !RxOk(rx) {
    } else {
      m := UpdateStep(rx, calls[0], core, cs, n);
      var m' := UpdatesStep(Update(rx, Flatten(cs), calls[0]), calls[1..], core, cs, m);
      m := m';
    }
  }

  lemma StartsAt(core: Core, cs: seq<Chunk>)
    requires WellFormed(core, cs)
    ensures HeadsThere(cs) && At(Start(core), core, cs, 0)
  {
    hide Flatten;
    WellFormedHeads(core, cs);
    assert cs[..0] == [] && cs[0..] == cs && Flatten(cs)[0..] == Flatten(cs);
  }

  /** Safety of the read loop: after any calls of `update`, with any timing that never shows a
      pass a part of the header it is about to read, what has been delivered are the messages of
      some of the chunks from the first on, and the memory is what those chunks leave. */
  lemma DeliversPrefix(core: Core, cs: seq<Chunk>, calls: seq<seq<Arrival>>) returns (n: nat)
    requires WellFormed(core, cs)
    requires FairHistory(Start(core), Flatten(cs), calls, cs)
    ensures n <= |cs| && WellFormed(core, cs[..n])
    ensures var r := Updates(Start(core), Flatten(cs), calls);
            r.delivered == Deliver(core, cs[..n]) <= Deliver(core, cs) && r.core == After(core, cs[..n])
  {
    hide Flatten, Updates, FairHistory;
    StartsAt(core, cs);
    n := UpdatesStep(Start(core), calls, core, cs, 0);
    RunSplit(core, cs, n);
  }

  // ----- Streams that end early

  function Clipped(a: Arrival, n: nat): Arrival {
    a.(head := Min(a.head, n), body := Min(a.body, n))
  }

  function ClippedAll(call: seq<Arrival>, n: nat): seq<Arrival> {
    seq(|call|, i requires 0 <= i < |call| => Clipped(call[i], n))
  }

  function ClippedCalls(calls: seq<seq<Arrival>>, n: nat): seq<seq<Arrival>> {
    seq(|calls|, i requires 0 <= i < |calls| => ClippedAll(calls[i], n))
  }

  lemma VisibleOfPrefix(wire: seq<byte>, whole: seq<byte>, pos: nat, seen: nat)
    requires wire <= whole
    ensures Visible(wire, pos, seen) == Visible(whole, pos, Min(seen, |wire|))
  {
  }

  /** Reading a stream that ends early is reading the whole one without ever seeing more of it. */
  lemma TickOfPrefix(rx: Rx, wire: seq<byte>, whole: seq<byte>, a: Arrival, cs: seq<Chunk>)
    requires RxOk(rx) && wire <= whole
    ensures Tick(rx, wire, a) == Tick(rx, whole, Clipped(a, |wire|))
    ensures Fair(rx, wire, a, cs) ==> Fair(rx, whole, Clipped(a, |wire|), cs)
  {
    hide ReadHead, Visible;
    VisibleOfPrefix(wire, whole, rx.pos, a.head);
    VisibleOfPrefix(wire, whole, rx.pos, a.body);
    if rx.incomplete.None? {
      var r := ReadHead(rx.core.channels, Visible(wire, rx.pos, a.head));
      VisibleOfPrefix(wire, whole, rx.pos + r.consumed, a.body);
    }
  }

  lemma {:induction false} UpdateOfPrefix(rx: Rx, wire: seq<byte>, whole: seq<byte>, call: seq<Arrival>, cs: seq<Chunk>)
    requires RxOk(rx) && wire <= whole
    ensures Update(rx, wire, call) == Update(rx, whole, ClippedAll(call, |wire|))
    ensures FairCall(rx, wire, call, cs) ==> FairCall(rx, whole, ClippedAll(call, |wire|), cs)
    decreases |call|
  {
    hide Tick, Fair, Clipped;
    if call == [] || rx.error {
    } else {
      TickOfPrefix(rx, wire, whole, call[0], cs);
      var r := Tick(rx, wire, call[0]);
      assert ClippedAll(call, |wire|)[1..] == ClippedAll(call[1..], |wire|);
      if r.delivered == rx.delivered {
        UpdateOfPrefix(r, wire, whole, call[1..], cs);
      }
    }
  }

  lemma {:induction false} UpdatesOfPrefix(rx: Rx, wire: seq<byte>, whole: seq<byte>, calls: seq<seq<Arrival>>,
                                           cs: seq<Chunk>)
    requires wire <= whole
    ensures Updates(rx, wire, calls) == Updates(rx, whole, ClippedCalls(calls, |wire|))
    ensures FairHistory(rx, wire, calls, cs) ==> FairHistory(rx, whole, ClippedCalls(calls, |wire|), cs)
    decreases |calls|
  {
    hide Update, FairCall, ClippedAll;
    if calls == [] || !RxOk(rx) {
    } else {
      UpdateOfPrefix(rx, wire, whole, calls[0], cs);
      assert ClippedCalls(calls, |wire|)[1..] == ClippedCalls(calls[1..], |wire|);
      UpdatesOfPrefix(Update(rx, wire, calls[0]), wire, whole, calls[1..], cs);
    }
  }

  /** No pass reads beyond the bytes that are there. */
  lemma {:induction false} WithinWire(rx: Rx, wire: seq<byte>, call: seq<Arrival>)
    requires RxOk(rx) && rx.pos <= |wire|
    ensures Update(rx, wire, call).pos <= |wire|
    decreases |call|
  {
    hide ReadHead;
    if call == [] || rx.error {
    } else {
      var r := Tick(rx, wire, call[0]);
      if r.delivered == rx.delivered {
        WithinWire(r, wire, call[1..]);
      }
    }
  }

  lemma {:induction false} AllWithinWire(rx: Rx, wire: seq<byte>, calls: seq<seq<Arrival>>)
    requires rx.pos <= |wire|
    ensures Updates(rx, wire, calls).pos <= |wire|
    decreases |calls|
  {
    hide Update;
    if calls == [] || !RxOk(rx) {
    } else {
      WithinWire(rx, wire, calls[0]);
      AllWithinWire(Update(rx, wire, calls[0]), wire, calls[1..]);
    }
  }

  /** More calls go on where the ones before them have left the loop. */
  lemma {:induction false} MoreCalls(rx: Rx, wire: seq<byte>, calls: seq<seq<Arrival>>, more: seq<seq<Arrival>>)
    ensures Updates(rx, wire, calls + more) == Updates(Updates(rx, wire, calls), wire, more)
    decreases |calls|
  {
    hide Update;
    if calls == [] {
      assert [] + more == more;
    } else if RxOk(rx) {
      assert (calls + more)[0] == calls[0] && (calls + more)[1..] == calls[1..] + more;
      MoreCalls(Update(rx, wire, calls[0]), wire, calls[1..], more);
    }
  }

  /** One more call goes on where the ones before it have left the loop. */
  lemma {:induction false} OneMoreCall(rx: Rx, wire: seq<byte>, calls: seq<seq<Arrival>>, call: seq<Arrival>)
    ensures var r := Updates(rx, wire, calls);
            Updates(rx, wire, calls + [call]) == if RxOk(r) then Update(r, wire, call) else r
    decreases |calls|
  {
    hide Update;
    if calls == [] {
      assert [] + [call] == [call] && [call][1..] == [];
    } else if RxOk(rx) {
      assert (calls + [call])[0] == calls[0] && (calls + [call])[1..] == calls[1..] + [call];
      OneMoreCall(Update(rx, wire, calls[0]), wire, calls[1..], call);
    }
  }

  /** The last chunk of a stream completes a message. */
  ghost predicate EndsMessage(core: Core, cs: seq<Chunk>)
    requires WellFormed(core, cs)
  {
    cs == [] || (WellFormed(core, cs[..|cs| - 1]) && Deliver(core, cs[..|cs| - 1]) != Deliver(core, cs))
  }

  /** A chunk that completes no message leaves its packet open. */
  lemma NothingLeavesOpen(core: Core, c: Chunk)
    requires ChunkOk(core, c) && Receive(core, c).1 == []
    ensures var channels := Receive(core, c).0.channels; exists ch :: ch in channels && channels[ch].buffer.Some?
  {
    hide ReadHead, Extended;
    var ch := ReadHead(core.channels, c.head).packet.header.channel;
    assert ch in Receive(core, c).0.channels && Receive(core, c).0.channels[ch].buffer.Some?;
  }

  /** A stream that leaves no packet open ends a message. */
  lemma ClosedEndsMessage(core: Core, cs: seq<Chunk>)
    requires WellFormed(core, cs)
    requires forall ch <- After(core, cs).channels :: After(core, cs).channels[ch].buffer.None?
    ensures EndsMessage(core, cs)
  {
    hide ReadHead, Deliver, After, WellFormed, ChunkOk, Receive;
    if cs == [] {
    } else {
      var n := |cs| - 1;
      RunSnoc(core, cs, n);
      assert cs[..n + 1] == cs;
      if Receive(After(core, cs[..n]), cs[n]).1 == [] {
        NothingLeavesOpen(After(core, cs[..n]), cs[n]);
      }
    }
  }

  /** Until its last chunk a stream that ends a message has delivered less than all. */
  lemma EarlierDeliversLess(core: Core, cs: seq<Chunk>, n: nat)
    requires WellFormed(core, cs) && EndsMessage(core, cs) && n < |cs|
    ensures WellFormed(core, cs[..n]) && |Deliver(core, cs[..n])| < |Deliver(core, cs)|
  {
    hide Deliver, After, WellFormed;
    var last := |cs| - 1;
    RunSplit(core, cs, last);
    RunSplit(core, cs[..last], n);
    assert cs[..last][..n] == cs[..n];
  }

  /** What a history has delivered of a stream whose last chunk completes a message, possibly cut
      short: a prefix of its messages, and all of them only if the stream was there in full and has
      been read to its end. */
  lemma DeliversOfPrefix(core: Core, cs: seq<Chunk>, wire: seq<byte>, calls: seq<seq<Arrival>>)
    requires WellFormed(core, cs) && EndsMessage(core, cs)
    requires wire <= Flatten(cs) && FairHistory(Start(core), wire, calls, cs)
    ensures var r := Updates(Start(core), wire, calls);
            && r.delivered <= Deliver(core, cs)
            && (r.delivered == Deliver(core, cs) ==> wire == Flatten(cs) && r.core == After(core, cs))
  {
    hide Flatten, Updates, FairHistory, Reading, Deliver, After, WellFormed;
    var calls' := ClippedCalls(calls, |wire|);
    UpdatesOfPrefix(Start(core), wire, Flatten(cs), calls, cs);
    StartsAt(core, cs);
    var n := UpdatesStep(Start(core), calls', core, cs, 0);
    AllWithinWire(Start(core), wire, calls);
    RunSplit(core, cs, n);
    if n < |cs| {
      EarlierDeliversLess(core, cs, n);
    } else {
      AtEnd(Updates(Start(core), wire, calls), core, cs);
    }
  }

  lemma AtEnd(rx: Rx, core: Core, cs: seq<Chunk>)
    requires WellFormed(core, cs) && At(rx, core, cs, |cs|)
    ensures rx.delivered == Deliver(core, cs) && rx.core == After(core, cs) && rx.pos == |Flatten(cs)|
  {
    hide Flatten, Deliver, After, WellFormed;
    assert cs[..|cs|] == cs && cs[|cs|..] == [];
    AllRead(rx, Flatten(cs));
  }

  // ----- A header seen in part

  /** A message on channel 3 without a payload, and time, type and stream id of zero. */
  const LOST_HEAD: seq<byte> := [3, 0, 0, 0, 0, 0, 0, 0, 0, 0, 0, 0]
  const LOST_CORE: Core := Core(map[], 128)

  predicate Lost(rx: Rx) {
    rx.core == LOST_CORE && rx.incomplete.None? && rx.delivered == [] && rx.pos > 0
  }

  lemma LostStays(rx: Rx, a: Arrival)
    requires Lost(rx)
    ensures Lost(Tick(rx, LOST_HEAD, a))
  {
    var w := Visible(LOST_HEAD, rx.pos, a.head);
    assert forall i :: 0 <= i < |w| ==> w[i] == LOST_HEAD[rx.pos + i] == 0;
  }

  lemma {:induction false} LostInCall(rx: Rx, arrivals: seq<Arrival>)
    requires Lost(rx)
    ensures Lost(Update(rx, LOST_HEAD, arrivals))
    decreases |arrivals|
  {
    hide Tick;
    if arrivals == [] || rx.error {
    } else {
      LostStays(rx, arrivals[0]);
      LostInCall(Tick(rx, LOST_HEAD, arrivals[0]), arrivals[1..]);
    }
  }

  lemma {:induction false} LostForGood(rx: Rx, calls: seq<seq<Arrival>>)
    requires Lost(rx)
    ensures Lost(Updates(rx, LOST_HEAD, calls))
    decreases |calls|
  {
    hide Tick, Update;
    if calls == [] {
    } else {
      LostInCall(rx, calls[0]);
      LostForGood(Update(rx, LOST_HEAD, calls[0]), calls[1..]);
    }
  }

  /** A stream of one message whose header the first pass sees in part: it is lost, whatever
      becomes visible afterwards and however often the loop tries again. */
  lemma PartialHeadLosesMessage(a: Arrival, arrivals: seq<Arrival>, calls: seq<seq<Arrival>>)
    requires 0 < a.head < |LOST_HEAD|
    ensures var cs := [Chunk(LOST_HEAD, [])];
            && Flatten(cs) == LOST_HEAD && WellFormed(LOST_CORE, cs)
            && (a.fails || !Fair(Start(LOST_CORE), LOST_HEAD, a, cs))
            && Deliver(LOST_CORE, cs) == [Message(3, 0, 0, 0, [])]
            && Updates(Start(LOST_CORE), LOST_HEAD, [[a] + arrivals] + calls).delivered == []
  {
    var c := Chunk(LOST_HEAD, []);
    LostIsWellFormed(c);
    assert Flatten([]) == [] && [c][1..] == [] && LOST_HEAD + [] == LOST_HEAD;
    var first := Tick(Start(LOST_CORE), LOST_HEAD, a);
    LostAtFirst(a);
    LostInCall(first, arrivals);
    var call := [a] + arrivals;
    assert call[1..] == arrivals;
    assert Update(Start(LOST_CORE), LOST_HEAD, call) == Update(first, LOST_HEAD, arrivals);
    assert ([call] + calls)[1..] == calls;
    LostForGood(Update(first, LOST_HEAD, arrivals), calls);
  }

  lemma LostAtFirst(a: Arrival)
    requires 0 < a.head < |LOST_HEAD|
    ensures Lost(Tick(Start(LOST_CORE), LOST_HEAD, a))
  {
    var w := Visible(LOST_HEAD, 0, a.head);
    assert w[0] == LOST_HEAD[0];
    assert ReadHead(map[], w) == ReadFields(map[], Large, 3, w, 1) == Failed(1, true);
  }

  lemma LostIsWellFormed(c: Chunk)
    requires c == Chunk(LOST_HEAD, [])
    ensures WellFormed(LOST_CORE, [c]) && Deliver(LOST_CORE, [c]) == [Message(3, 0, 0, 0, [])]
  {
    hide ReadHead, WellFormed, Deliver;
    LostHeadIsRead();
    assert ChunkOk(LOST_CORE, c) && Receive(LOST_CORE, c).1 == [Message(3, 0, 0, 0, [])];
    RunOfOne(LOST_CORE, c);
  }

  lemma LostHeadIsRead()
    ensures ReadHead(map[], LOST_HEAD) == Head(RawPacket.Packet(Header(Large, 0, 0, 0, 3, 0), Some([])), 12)
  {
    hide DecodeFields;
    var f := LOST_HEAD[1..12];
    assert f == [0, 0, 0, 0, 0, 0, 0, 0, 0, 0, 0];
    ZeroFields(RawPacket.Packet(Header(Large, 0, 0, 0, 3, 0), Some([])), f);
    assert ReadHead(map[], LOST_HEAD) == ReadFields(map[], Large, 3, LOST_HEAD, 1);
  }

  lemma ZeroFields(p: Packet, f: seq<byte>)
    requires f == [0, 0, 0, 0, 0, 0, 0, 0, 0, 0, 0]
    ensures DecodeFields(p, Large, f) ==
            RawPacket.Packet(p.header.(timestamp := 0, dataSize := 0, packetType := 0, streamId := 0), None)
  {
  }
}
