/** The client's side of the RTMP handshake (section 5.2 of the RTMP 1.0 specification): stages
    that are retried, call after call, until the socket lets them pass. */
module Handshake {
  import opened Bytes

  const SIG_SIZE: nat := 1536
  // What the server sends before the session's first byte: S0, S1 and S2.
  const HANDSHAKE_SIZE: nat := 2 * SIG_SIZE + 1

  /** A version byte and a signature: C0 and C1, or S0 and S1. */
  type Greeting = s: seq<byte> | |s| == SIG_SIZE + 1 witness seq(SIG_SIZE + 1, _ => 0)

  /** What the socket does with one write: it takes up to `n` bytes and stops, or takes some and
      fails, which the writer sees as nothing sent on a bad socket. */
  datatype WriteEvent = Accepts(n: nat) | Breaks(n: nat)

  /** What a read finds if it has to turn to the kernel: how many of the peer's bytes have arrived
      since the start, and whether a failure follows them. */
  datatype ReadEvent = Arrived(total: nat) | Fails(total: nat)

  /** Whether the connection of the socket is there, still pending, or has been found to have failed. */
  datatype Connection = Up | Pending | Refused

  /** The socket during one call. */
  datatype Event = Event(connection: Connection, write0: WriteEvent, read1: ReadEvent,
                         write2: WriteEvent, read3: ReadEvent)

  /** `hello` is what the client sends first, `received` its receive buffer; `written` and
      `consumed` are its traffic so far. `drawn` is how much of the peer's stream is no longer with
      the kernel: the handshaker's own socket has it in its cache. */
  datatype State = State(stage: nat, error: bool, bad: bool, complete: bool,
                         hello: Greeting, received: Greeting, written: seq<byte>, consumed: nat, drawn: nat)

  function Fresh(hello: Greeting): State {
    State(0, false, false, false, hello, seq(SIG_SIZE + 1, _ => 0), [], 0, 0)
  }

  predicate Failed(h: State) {
    h.error || h.bad
  }

  function Taken(s: seq<byte>, w: WriteEvent): seq<byte> {
    s[..Min(|s|, w.n)]
  }

  function Sent(s: seq<byte>, w: WriteEvent): nat {
    if w.Breaks? then 0 else |Taken(s, w)|
  }

  /** A stage that writes passes if all went out; it may be tried again if nothing did. */
  function AfterWrite(h: State, s: seq<byte>, w: WriteEvent): State {
    var out := h.(written := h.written + Taken(s, w), bad := w.Breaks?);
    if Sent(s, w) == 0 then out
    else if Sent(s, w) != |s| then out.(error := true)
    else out.(stage := h.stage + 1)
  }

  predicate Cached(h: State, n: nat) {
    h.consumed + n <= h.drawn
  }

  /** A read of more than the cache holds draws in all that has arrived. */
  function DrawnBy(h: State, n: nat, wire: seq<byte>, r: ReadEvent): (d: nat)
    ensures h.drawn <= d
    ensures h.drawn <= |wire| ==> d <= |wire|
  {
    if Cached(h, n) || h.drawn >= Min(r.total, |wire|) then h.drawn else Min(r.total, |wire|)
  }

  predicate Broken(h: State, n: nat, r: ReadEvent) {
    !Cached(h, n) && r.Fails?
  }

  predicate Readable(h: State, n: nat, wire: seq<byte>, r: ReadEvent) {
    !Broken(h, n, r) && h.consumed + n <= Min(DrawnBy(h, n, wire, r), |wire|)
  }

  /** The receive buffer after the next `n` bytes have been read to its start. */
  function Filled(h: State, n: nat, wire: seq<byte>): Greeting
    requires n <= SIG_SIZE + 1 && h.consumed + n <= |wire|
  {
    wire[h.consumed..h.consumed + n] + h.received[n..]
  }

  /** A read of `n` bytes, all of them or none. */
  function AfterRead(h: State, n: nat, wire: seq<byte>, r: ReadEvent): State
    requires n <= SIG_SIZE + 1
  {
    var drawn := h.(drawn := DrawnBy(h, n, wire, r), bad := h.bad || Broken(h, n, r));
    if Readable(h, n, wire, r) then drawn.(received := Filled(h, n, wire), consumed := h.consumed + n) else drawn
  }

  /** A stage as it stands in the code; passing it raises the stage, or completes the last. */
  function AfterStage(h: State, wire: seq<byte>, e: Event): State
    requires h.stage < 4
  {
    if h.stage == 0 then
      AfterWrite(h, h.hello, e.write0)
    else if h.stage == 1 then
      AfterRead(h, SIG_SIZE + 1, wire, e.read1).(stage := if Readable(h, SIG_SIZE + 1, wire, e.read1) then 2 else 1)
    else if h.stage == 2 then
      AfterWrite(h, h.received[1..], e.write2)
    else
      AfterRead(h, SIG_SIZE, wire, e.read3).(complete := h.complete || Readable(h, SIG_SIZE, wire, e.read3))
  }

  /** Stages run on as long as they pass. */
  function AfterStages(h: State, wire: seq<byte>, e: Event): State
    requires h.stage < 4
    decreases 4 - h.stage
  {
    var r := AfterStage(h, wire, e);
    if r.stage == h.stage then r else AfterStages(r, wire, e)
  }

  function AfterCall(h: State, wire: seq<byte>, e: Event): State
    requires h.stage < 4
  {
    if Failed(h) || e.connection.Pending? then h
    else if e.connection.Refused? then h.(bad := true)
    else AfterStages(h, wire, e)
  }

  /** The handshake as `update` drives it: one call each time, until one has succeeded. */
  function Updates(h: State, wire: seq<byte>, es: seq<Event>): State
    requires h.stage < 4
    decreases |es|
  {
    if es == [] then h else
      var r := Step(h, wire, es[0]);
      if r.complete then r else Updates(r, wire, es[1..])
  }

  /** A connection: one call when it is opened, the rest from `update`. */
  function Session(hello: Greeting, wire: seq<byte>, first: Event, es: seq<Event>): State {
    Updates(Step(Fresh(hello), wire, first), wire, es)
  }

  function Step(h: State, wire: seq<byte>, e: Event): (r: State)
    requires h.stage < 4
    ensures r.stage < 4
  {
    StageBound(h, wire, e);
    AfterCall(h, wire, e)
  }

  lemma {:induction false} StageBound(h: State, wire: seq<byte>, e: Event)
    requires h.stage < 4
    ensures h.stage <= AfterStages(h, wire, e).stage < 4
    decreases 4 - h.stage
  {
    var r := AfterStage(h, wire, e);
    if r.stage != h.stage {
      StageBound(r, wire, e);
    }
  }

  /** What the client has written and read at each stage, as long as nothing has failed. */
  ghost predicate OnTrack(h: State, wire: seq<byte>) {
    && h.stage < 4 && h.consumed <= h.drawn <= |wire|
    && (h.complete ==> h.stage == 3)
    && (h.stage <= 1 ==> h.consumed == 0)
    && (h.stage >= 2 ==> |wire| >= SIG_SIZE + 1 && h.consumed == SIG_SIZE + 1 + if h.complete then SIG_SIZE else 0)
    && (h.stage == 2 ==> h.received == wire[..SIG_SIZE + 1])
    && (h.stage == 3 ==> h.written == h.hello + wire[1..SIG_SIZE + 1])
    && (!Failed(h) ==> h.written == if h.stage == 0 then [] else if h.stage <= 2 then h.hello
                                    else h.hello + wire[1..SIG_SIZE + 1])
  }

  lemma {:induction false} StageOnTrack(h: State, wire: seq<byte>, e: Event)
    requires OnTrack(h, wire) && !Failed(h) && !h.complete
    ensures var r := AfterStage(h, wire, e);
            && OnTrack(r, wire) && r.hello == h.hello
            && (r.stage != h.stage ==> !Failed(r) && !r.complete)
  {
    if h.stage == 2 {
      assert h.received[1..] == wire[1..SIG_SIZE + 1];
    }
  }

  lemma {:induction false} StagesOnTrack(h: State, wire: seq<byte>, e: Event)
    requires OnTrack(h, wire) && !Failed(h) && !h.complete
    ensures OnTrack(AfterStages(h, wire, e), wire) && AfterStages(h, wire, e).hello == h.hello
    decreases 4 - h.stage
  {
    StageOnTrack(h, wire, e);
    var r := AfterStage(h, wire, e);
    StageBound(h, wire, e);
    if r.stage != h.stage {
      StagesOnTrack(r, wire, e);
    }
  }

  /** After a failure nothing moves any more; before one, a stage is never given up. */
  lemma {:induction false} StageNeverFalls(h: State, wire: seq<byte>, es: seq<Event>)
    requires h.stage < 4
    ensures h.stage <= Updates(h, wire, es).stage < 4
    ensures Failed(h) ==> Updates(h, wire, es) == h
    decreases |es|
  {
    if es == [] {
    } else {
      var r := Step(h, wire, es[0]);
      StageBound(h, wire, es[0]);
      if !r.complete {
        StageNeverFalls(r, wire, es[1..]);
      }
    }
  }

  lemma {:induction false} UpdatesOnTrack(h: State, wire: seq<byte>, es: seq<Event>)
    requires OnTrack(h, wire) && !h.complete
    ensures OnTrack(Updates(h, wire, es), wire) && Updates(h, wire, es).hello == h.hello
    decreases |es|
  {
    if es == [] {
    } else {
      var r := Step(h, wire, es[0]);
      if !Failed(h) && es[0].connection.Up? {
        StagesOnTrack(h, wire, es[0]);
      }
      if !r.complete {
        UpdatesOnTrack(r, wire, es[1..]);
      }
    }
  }

  // ----- What the handshake takes of the session

  /** The stage turns to the kernel when more than the handshake's own bytes have arrived. */
  predicate StageTakesMore(h: State, wire: seq<byte>, e: Event) {
    || (h.stage == 1 && !Cached(h, SIG_SIZE + 1) && Min(e.read1.total, |wire|) > HANDSHAKE_SIZE)
    || (h.stage == 3 && !Cached(h, SIG_SIZE) && Min(e.read3.total, |wire|) > HANDSHAKE_SIZE)
  }

  predicate StagesTakeMore(h: State, wire: seq<byte>, e: Event)
    requires h.stage < 4
    decreases 4 - h.stage
  {
    StageTakesMore(h, wire, e) ||
    var r := AfterStage(h, wire, e);
    r.stage != h.stage && StagesTakeMore(r, wire, e)
  }

  predicate CallTakesMore(h: State, wire: seq<byte>, e: Event)
    requires h.stage < 4
  {
    !Failed(h) && e.connection.Up? && StagesTakeMore(h, wire, e)
  }

  predicate UpdatesTakeMore(h: State, wire: seq<byte>, es: seq<Event>)
    requires h.stage < 4
    decreases |es|
  {
    es != [] &&
    (CallTakesMore(h, wire, es[0]) ||
     var r := Step(h, wire, es[0]);
     !r.complete && UpdatesTakeMore(r, wire, es[1..]))
  }

  /** Some read of the handshake comes when the server has already gone on to the session. */
  predicate SessionTakesMore(hello: Greeting, wire: seq<byte>, first: Event, es: seq<Event>) {
    CallTakesMore(Fresh(hello), wire, first) || UpdatesTakeMore(Step(Fresh(hello), wire, first), wire, es)
  }

  lemma StageDraws(h: State, wire: seq<byte>, e: Event)
    requires h.stage < 4
    ensures var r := AfterStage(h, wire, e);
            && (r.drawn > HANDSHAKE_SIZE <==> h.drawn > HANDSHAKE_SIZE || StageTakesMore(h, wire, e))
            && h.drawn <= r.drawn && (h.drawn <= |wire| ==> r.drawn <= |wire|)
  {
    hide Filled, Taken, Sent;
  }

  lemma {:induction false} StagesDraw(h: State, wire: seq<byte>, e: Event)
    requires h.stage < 4
    ensures AfterStages(h, wire, e).drawn > HANDSHAKE_SIZE <==> h.drawn > HANDSHAKE_SIZE || StagesTakeMore(h, wire, e)
    ensures h.drawn <= AfterStages(h, wire, e).drawn && (h.drawn <= |wire| ==> AfterStages(h, wire, e).drawn <= |wire|)
    decreases 4 - h.stage
  {
    hide AfterStage, StageTakesMore;
    StageDraws(h, wire, e);
    StageBound(h, wire, e);
    var r := AfterStage(h, wire, e);
    StageStays(h, wire, e);
    if r.stage != h.stage {
      StagesDraw(r, wire, e);
    }
  }

  lemma StageStays(h: State, wire: seq<byte>, e: Event)
    requires h.stage < 4
    ensures h.stage <= AfterStage(h, wire, e).stage < 4
  {
  }

  lemma {:induction false} UpdatesDraw(h: State, wire: seq<byte>, es: seq<Event>)
    requires h.stage < 4
    ensures Updates(h, wire, es).drawn > HANDSHAKE_SIZE <==> h.drawn > HANDSHAKE_SIZE || UpdatesTakeMore(h, wire, es)
    ensures h.drawn <= Updates(h, wire, es).drawn && (h.drawn <= |wire| ==> Updates(h, wire, es).drawn <= |wire|)
    decreases |es|
  {
    hide AfterStages, StagesTakeMore;
    if es == [] {
    } else {
      var r := Step(h, wire, es[0]);
      StagesDraw(h, wire, es[0]);
      if !r.complete {
        UpdatesDraw(r, wire, es[1..]);
      }
    }
  }

  /** Success under `update` means: exactly C0, C1 and the server's own signature have been
      written, and exactly S0, S1 and S2 used. What follows them is still the kernel's iff no read
      came when more had already arrived. */
  lemma SuccessMeansExchanged(hello: Greeting, wire: seq<byte>, es: seq<Event>)
    ensures var r := Updates(Fresh(hello), wire, es);
            r.complete ==>
              && r.stage == 3 && r.consumed == HANDSHAKE_SIZE <= r.drawn <= |wire|
              && r.written == hello + wire[1..SIG_SIZE + 1]
              && (wire[r.drawn..] == wire[HANDSHAKE_SIZE..] <==> !UpdatesTakeMore(Fresh(hello), wire, es))
  {
    hide UpdatesTakeMore;
    UpdatesOnTrack(Fresh(hello), wire, es);
    UpdatesDraw(Fresh(hello), wire, es);
  }

  /** When the call made while connecting already succeeds, the first `update` repeats the last
      stage; it takes another signature's worth of the peer's bytes iff that many are there. */
  predicate Repeats(h: State, wire: seq<byte>, es: seq<Event>) {
    h.complete && es != [] && !Failed(h) && es[0].connection.Up? && Readable(h, SIG_SIZE, wire, es[0].read3)
  }

  /** A whole connection. Success means the exchange of the specification. The handshake has used
      nothing beyond it iff the last stage is not repeated; and the kernel still has all of the
      session for the session's socket iff no read came when more had already arrived. */
  lemma SuccessOfSession(hello: Greeting, wire: seq<byte>, first: Event, es: seq<Event>)
    ensures var h := Step(Fresh(hello), wire, first);
            var r := Session(hello, wire, first, es);
            r.complete ==>
              && HANDSHAKE_SIZE <= r.drawn <= |wire|
              && r.written == hello + wire[1..SIG_SIZE + 1]
              && (r.consumed == HANDSHAKE_SIZE <==> !Repeats(h, wire, es))
              && (wire[r.drawn..] == wire[HANDSHAKE_SIZE..] <==> !SessionTakesMore(hello, wire, first, es))
  {
    hide UpdatesTakeMore, CallTakesMore;
    var h := Step(Fresh(hello), wire, first);
    ConnectDraws(hello, wire, first);
    UpdatesDraw(h, wire, es);
    if !h.complete {
      UpdatesOnTrack(h, wire, es);
    } else if es != [] {
      assert h.stage == 3;
      LastStageAgain(h, wire, es[0]);
    }
  }

  lemma ConnectDraws(hello: Greeting, wire: seq<byte>, first: Event)
    ensures var h := Step(Fresh(hello), wire, first);
            && OnTrack(h, wire) && h.hello == hello
            && (h.drawn > HANDSHAKE_SIZE <==> CallTakesMore(Fresh(hello), wire, first))
  {
    hide AfterStages, StagesTakeMore;
    if first.connection.Up? {
      StagesOnTrack(Fresh(hello), wire, first);
      StagesDraw(Fresh(hello), wire, first);
    }
  }

  lemma LastStageAgain(h: State, wire: seq<byte>, e: Event)
    requires h.stage == 3 && h.complete
    ensures var r := Step(h, wire, e);
            && r.complete && r.written == h.written
            && r.consumed == h.consumed +
                             if !Failed(h) && e.connection.Up? && Readable(h, SIG_SIZE, wire, e.read3) then SIG_SIZE
                             else 0
  {
  }

  // ----- When it succeeds

  /** The socket takes all of `n` bytes. */
  predicate TakesAll(w: WriteEvent, n: nat) {
    w.Accepts? && w.n >= n
  }

  /** The first `upto` bytes of the peer are in the cache that holds `drawn` of them, or can be read
      from the kernel. */
  predicate There(drawn: nat, upto: nat, wire: seq<byte>, r: ReadEvent) {
    drawn >= upto || (r.Arrived? && r.total >= upto && |wire| >= upto)
  }

  /** What the cache holds after the read of S0 and S1. */
  function DrawnFirst(h: State, wire: seq<byte>, e: Event): nat {
    if h.stage >= 2 || h.drawn >= 1537 || e.read1.total <= h.drawn then h.drawn
    else if e.read1.total < |wire| then e.read1.total
    else |wire|
  }

  /** A call completes the handshake iff the stages that are left find what they need: 1537 bytes
      taken, 1537 bytes there, 1536 bytes taken, and 3073 bytes there. */
  lemma CallCompletesIff(h: State, wire: seq<byte>, e: Event)
    requires OnTrack(h, wire) && !h.complete
    ensures Step(h, wire, e).complete <==>
              && !Failed(h) && e.connection == Up
              && (h.stage == 0 ==> TakesAll(e.write0, 1537))
              && (h.stage <= 1 ==> There(h.drawn, 1537, wire, e.read1))
              && (h.stage <= 2 ==> TakesAll(e.write2, 1536))
              && There(DrawnFirst(h, wire, e), 3073, wire, e.read3)
  {
    hide AfterStages, OnTrack;
    if !Failed(h) && e.connection == Up {
      StagesCompleteIff(h, wire, e);
    }
  }

  lemma {:induction false} StagesCompleteIff(h: State, wire: seq<byte>, e: Event)
    requires OnTrack(h, wire) && !h.complete && !Failed(h)
    ensures AfterStages(h, wire, e).complete <==>
              && (h.stage == 0 ==> TakesAll(e.write0, 1537))
              && (h.stage <= 1 ==> There(h.drawn, 1537, wire, e.read1))
              && (h.stage <= 2 ==> TakesAll(e.write2, 1536))
              && There(DrawnFirst(h, wire, e), 3073, wire, e.read3)
    decreases 4 - h.stage
  {
    hide AfterStage, AfterStages;
    StageOnTrack(h, wire, e);
    StageRises(h, wire, e);
    StagePasses(h, wire, e);
    var r := AfterStage(h, wire, e);
    if r.stage != h.stage {
      StagesCompleteIff(r, wire, e);
    }
  }

  lemma StagePasses(h: State, wire: seq<byte>, e: Event)
    requires OnTrack(h, wire) && !h.complete && !Failed(h)
    ensures var r := AfterStage(h, wire, e);
            && r.stage == h.stage + (if (h.stage == 0 && TakesAll(e.write0, 1537))
                                        || (h.stage == 1 && There(h.drawn, 1537, wire, e.read1))
                                        || (h.stage == 2 && TakesAll(e.write2, 1536)) then 1 else 0)
            && (r.complete <==> h.stage == 3 && There(h.drawn, 3073, wire, e.read3))
            && r.drawn == if h.stage == 1 then DrawnFirst(h, wire, e)
                          else if h.stage == 3 then r.drawn else h.drawn
  {
  }

  /** The socket neither breaks nor fails, and takes what is written whole or not at all. */
  predicate Sound(e: Event) {
    && e.connection != Refused && e.read1.Arrived? && e.read3.Arrived?
    && e.write0.Accepts? && (e.write0.n == 0 || e.write0.n >= 1537)
    && e.write2.Accepts? && (e.write2.n == 0 || e.write2.n >= 1536)
  }

  /** Everything can be written, and everything the server sends of the handshake has arrived. */
  predicate Ready(e: Event, wire: seq<byte>) {
    && e.connection == Up && e.write0.n >= 1537 && e.write2.n >= 1536
    && e.read1.total >= 3073 && e.read3.total >= 3073 && |wire| >= 3073
  }

  lemma {:induction false} SoundStages(h: State, wire: seq<byte>, e: Event)
    requires h.stage < 4 && !Failed(h) && Sound(e)
    ensures !Failed(AfterStages(h, wire, e))
    decreases 4 - h.stage
  {
    StageRises(h, wire, e);
    var r := AfterStage(h, wire, e);
    if r.stage != h.stage {
      SoundStages(r, wire, e);
    }
  }

  /** A handshake over a sound socket does not fail, and succeeds at the latest in the first call
      that finds everything there, whatever the calls before it have done. */
  lemma {:induction false} Succeeds(h: State, wire: seq<byte>, es: seq<Event>)
    requires OnTrack(h, wire) && !h.complete && !Failed(h)
    requires forall e <- es :: Sound(e)
    ensures !Failed(Updates(h, wire, es))
    ensures (exists e <- es :: Ready(e, wire)) ==> Updates(h, wire, es).complete
    decreases |es|
  {
    hide AfterStages;
    if es == [] {
    } else {
      var r := Step(h, wire, es[0]);
      assert Sound(es[0]) && forall e <- es[1..] :: e in es;
      CallCompletesIff(h, wire, es[0]);
      if es[0].connection == Up {
        SoundStages(h, wire, es[0]);
        StagesOnTrack(h, wire, es[0]);
      }
      if !r.complete {
        assert !Ready(es[0], wire);
        assert forall e <- es :: e == es[0] || e in es[1..];
        Succeeds(r, wire, es[1..]);
      }
    }
  }

  /** So does a connection, over the call that opens it and those of `update`. */
  lemma SessionSucceeds(hello: Greeting, wire: seq<byte>, first: Event, es: seq<Event>)
    requires Sound(first) && forall e <- es :: Sound(e)
    ensures !Failed(Session(hello, wire, first, es))
    ensures Ready(first, wire) || (exists e <- es :: Ready(e, wire)) ==> Session(hello, wire, first, es).complete
  {
    hide AfterStages, Updates;
    var h := Step(Fresh(hello), wire, first);
    ConnectDraws(hello, wire, first);
    Succeeds(Fresh(hello), wire, [first]);
    OneUpdate(Fresh(hello), wire, first);
    if !h.complete {
      Succeeds(h, wire, es);
    } else {
      StillComplete(h, wire, es);
    }
  }

  lemma OneUpdate(h: State, wire: seq<byte>, e: Event)
    requires h.stage < 4
    ensures Updates(h, wire, [e]) == Step(h, wire, e)
  {
  }

  lemma StillComplete(h: State, wire: seq<byte>, es: seq<Event>)
    requires h.stage == 3 && h.complete && !Failed(h) && forall e <- es :: Sound(e)
    ensures Updates(h, wire, es).complete && !Failed(Updates(h, wire, es))
  {
    hide AfterStages;
    if es != [] {
      assert Sound(es[0]);
      LastStageAgain(h, wire, es[0]);
      SoundStages(h, wire, es[0]);
    }
  }

  /** A socket that takes a part of a greeting ends the handshake; one that takes nothing does not. */
  lemma WriteOutcome(h: State, wire: seq<byte>, e: Event)
    requires h.stage == 0 && !Failed(h)
    ensures var r, w := AfterStage(h, wire, e), e.write0;
            && (w.Accepts? && w.n == 0 ==> r == h)
            && (w.Accepts? && 0 < w.n < 1537 ==> r == h.(error := true, written := h.written + h.hello[..w.n]))
            && (w.Accepts? && w.n >= 1537 ==> r == h.(stage := 1, written := h.written + h.hello))
            && (w.Breaks? ==> r.bad && r.stage == 0)
  {
    assert h.written + [] == h.written && h.hello[..1537] == h.hello;
  }

  /** So for the echo of the signature. */
  lemma EchoOutcome(h: State, wire: seq<byte>, e: Event)
    requires h.stage == 2 && !Failed(h) && OnTrack(h, wire)
    ensures var r, w, echo := AfterStage(h, wire, e), e.write2, wire[1..1537];
            && (w.Accepts? && w.n == 0 ==> r == h)
            && (w.Accepts? && 0 < w.n < 1536 ==> r == h.(error := true, written := h.written + echo[..w.n]))
            && (w.Accepts? && w.n >= 1536 ==> r == h.(stage := 3, written := h.written + echo))
            && (w.Breaks? ==> r.bad && r.stage == 2)
  {
    var echo := wire[1..1537];
    assert h.received[1..] == echo;
    assert h.written + [] == h.written && echo[..1536] == echo;
  }

  /** A read that has to turn to a socket that fails makes it bad; one that finds too little waits. */
  lemma ReadOutcome(h: State, wire: seq<byte>, e: Event)
    requires (h.stage == 1 || h.stage == 3) && !Failed(h) && OnTrack(h, wire) && !h.complete
    ensures var r := AfterStage(h, wire, e);
            var event, upto := if h.stage == 1 then e.read1 else e.read3, if h.stage == 1 then 1537 else 3073;
            && (r.bad <==> h.drawn < upto && event.Fails?) && !r.error && r.written == h.written
            && (if There(h.drawn, upto, wire, event) then
                  && r.consumed == upto
                  && r.received == wire[h.consumed..upto] + h.received[upto - h.consumed..]
                else r.consumed == h.consumed && r.received == h.received && r.stage == h.stage && !r.complete)
  {
  }

  /** A pending connection leaves everything as it is, a refused one makes the socket bad, and then
      nothing happens any more. */
  lemma CallOutcome(h: State, wire: seq<byte>, e: Event)
    requires h.stage < 4
    ensures Failed(h) || e.connection == Pending ==> AfterCall(h, wire, e) == h
    ensures !Failed(h) && e.connection == Refused ==> AfterCall(h, wire, e) == h.(bad := true)
  {
  }

  /** The object that carries the handshake out, one stage method after another. */
  class HandShaker {
    const hello: Greeting
    const recvBuf: array<byte>
    var stage: nat
    var error: bool
    var complete: bool
    // The handshaker's socket: whether it is bad, the traffic over it, and how much of the peer's
    // stream has come into its cache.
    var bad: bool
    var written: seq<byte>
    var consumed: nat
    var drawn: nat

    ghost predicate Valid()
      reads this, recvBuf
    {
      recvBuf.Length == SIG_SIZE + 1 && stage < 4
    }

    ghost function Abstract(): State
      reads this, recvBuf
      requires Valid()
    {
      State(stage, error, bad, complete, hello, recvBuf[..], written, consumed, drawn)
    }

    constructor (hello: Greeting)
      ensures Valid() && Abstract() == Fresh(hello) && fresh(recvBuf)
    {
      this.hello := hello;
      recvBuf := new byte[SIG_SIZE + 1](_ => 0);
      stage, error, complete := 0, false, false;
      bad, written, consumed, drawn := false, [], 0, 0;
      new;
      assert recvBuf[..] == seq(SIG_SIZE + 1, _ => 0);
    }

    method WriteSocket(s: seq<byte>, w: WriteEvent) returns (sent: nat)
      modifies this`written, this`bad
      ensures sent == Sent(s, w)
      ensures written == old(written) + Taken(s, w) && bad == (old(bad) || w.Breaks?)
    {
      written := written + s[..Min(|s|, w.n)];
      if w.Breaks? {
        bad := true;
        return 0;
      }
      return Min(|s|, w.n);
    }

    /** All of the `n` bytes to the start of the receive buffer, or none. A cache that holds less is
        filled first with what has arrived. */
    method ReadSocket(n: nat, wire: seq<byte>, r: ReadEvent) returns (got: nat)
      requires Valid() && 0 < n <= SIG_SIZE + 1
      modifies this`consumed, this`bad, this`drawn, recvBuf
      ensures Valid() && Abstract() == AfterRead(old(Abstract()), n, wire, r)
      ensures got == if Readable(old(Abstract()), n, wire, r) then n else 0
    {
      ghost var before := Abstract();
      if drawn < consumed + n {
        if r.total > drawn && |wire| > drawn {
          drawn := Min(r.total, |wire|);
        }
        if r.Fails? {
          bad := true;
          return 0;
        }
      }
      if drawn < consumed + n || |wire| < consumed + n {
        return 0;
      }
      forall i | 0 <= i < n {
        recvBuf[i] := wire[consumed + i];
      }
      assert recvBuf[..] == Filled(before, n, wire);
      consumed := consumed + n;
      return n;
    }

    /** Stages 0 and 2 differ in what they write. */
    method WriteStage(s: seq<byte>, w: WriteEvent) returns (passed: bool)
      requires Valid() && !bad && !error && |s| > 0
      modifies this`written, this`bad, this`error
      ensures Valid()
      ensures Abstract().(stage := if passed then stage + 1 else stage) == AfterWrite(old(Abstract()), s, w)
    {
      var sent := WriteSocket(s, w);
      if sent == 0 {
        return false;
      }
      if sent != |s| {
        error := true;
        return false;
      }
      return true;
    }

    method Stage0(ghost wire: seq<byte>, e: Event) returns (passed: bool)
      requires Valid() && !bad && !error && stage == 0
      modifies this`written, this`bad, this`error
      ensures Valid()
      ensures Abstract().(stage := if passed then 1 else 0) == AfterStage(old(Abstract()), wire, e)
    {
      passed := WriteStage(hello, e.write0);
    }

    method Stage1(wire: seq<byte>, e: Event) returns (passed: bool)
      requires Valid() && !bad && !error && stage == 1
      modifies this`consumed, this`bad, this`drawn, recvBuf
      ensures Valid()
      ensures Abstract().(stage := if passed then 2 else 1) == AfterStage(old(Abstract()), wire, e)
    {
      var got := ReadSocket(SIG_SIZE + 1, wire, e.read1);
      return got != 0;
    }

    method Stage2(ghost wire: seq<byte>, e: Event) returns (passed: bool)
      requires Valid() && !bad && !error && stage == 2
      modifies this`written, this`bad, this`error
      ensures Valid()
      ensures Abstract().(stage := if passed then 3 else 2) == AfterStage(old(Abstract()), wire, e)
    {
      passed := WriteStage(recvBuf[1..], e.write2);
    }

    method Stage3(wire: seq<byte>, e: Event) returns (passed: bool)
      requires Valid() && !bad && !error && stage == 3
      modifies this`consumed, this`bad, this`drawn, recvBuf
      ensures Valid()
      ensures Abstract().(complete := passed || complete) == AfterStage(old(Abstract()), wire, e)
    {
      var got := ReadSocket(SIG_SIZE, wire, e.read3);
      return got != 0;
    }

    /** The first three stages from the current one on, as far as they pass. */
    method EarlyStages(wire: seq<byte>, e: Event) returns (passed: bool)
      requires Valid() && !error && !bad
      modifies this, recvBuf
      ensures Valid()
      ensures if passed then
                stage == 3 && !error && !bad &&
                AfterStages(Abstract(), wire, e) == AfterStages(old(Abstract()), wire, e)
              else Abstract() == AfterStages(old(Abstract()), wire, e)
    {
      hide AfterStage, AfterStages, Taken, Sent, Readable, Filled, AfterRead;
      ghost var goal := AfterStages(Abstract(), wire, e);
      StageRises(Abstract(), wire, e);
      if stage == 0 {
        passed := Stage0(wire, e);
        if !passed {
          return;
        }
        stage := 1;
      }
      assert AfterStages(Abstract(), wire, e) == goal && !Failed(Abstract());
      StageRises(Abstract(), wire, e);
      if stage == 1 {
        passed := Stage1(wire, e);
        if !passed {
          return;
        }
        stage := 2;
      }
      assert AfterStages(Abstract(), wire, e) == goal && !Failed(Abstract());
      StageRises(Abstract(), wire, e);
      if stage == 2 {
        passed := Stage2(wire, e);
        if !passed {
          return;
        }
        stage := 3;
      }
      passed := true;
    }

    /** Runs the stages from the current one on. */
    method Call(wire: seq<byte>, e: Event)
      requires Valid()
      modifies this, recvBuf
      ensures Valid() && Abstract() == AfterCall(old(Abstract()), wire, e)
    {
      hide AfterStage, AfterStages;
      if error || bad || e.connection.Pending? {
        return;
      }
      if e.connection.Refused? {
        bad := true;
        return;
      }
      var passed := EarlyStages(wire, e);
      if !passed {
        return;
      }
      StageRises(Abstract(), wire, e);
      passed := Stage3(wire, e);
      if passed {
        complete := true;
      }
    }
  }

  lemma StageRises(h: State, wire: seq<byte>, e: Event)
    requires h.stage < 4 && !Failed(h)
    ensures var r := AfterStage(h, wire, e);
            && h.stage <= r.stage < 4
            && (r.stage > h.stage ==> !Failed(r))
            && AfterStages(h, wire, e) == if r.stage == h.stage then r else AfterStages(r, wire, e)
  {
  }
}
