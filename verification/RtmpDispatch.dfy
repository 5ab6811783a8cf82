/** What a session does with a complete message: it queues it, changes a setting, or answers. */
module RtmpDispatch {
  import opened Bytes
  import opened RtmpWire

  const BYTES_READ_TYPE: byte := 0x03
  const CONTROL_TYPE: byte := 0x04
  const SERVERBW_TYPE: byte := 0x05
  const CLIENTBW_TYPE: byte := 0x06
  const AUDIO_TYPE: byte := 0x08
  const VIDEO_TYPE: byte := 0x09
  const FLEX_MESSAGE_TYPE: byte := 0x11
  const FLV_TYPE: byte := 0x16

  const CONTROL_PING: nat := 0x06
  const CONTROL_PONG: nat := 0x07
  const CONTROL_CHANNEL: nat := 2

  /** Four bytes of memory behind a payload that is too short. */
  type Beyond = s: seq<byte> | |s| == 4 witness [0, 0, 0, 0]

  /** The queues that the program takes from, and the settings that the peer makes. */
  datatype Inbox = Inbox(messages: seq<seq<byte>>, frames: seq<seq<byte>>, bandwidth: uint32,
                         serverBandwidth: uint32, clientBW2: byte, mediaChannel: nat)

  function Dispatched(i: Inbox, m: Message, beyond: Beyond): Inbox {
    if m.packetType == SERVERBW_TYPE then
      i.(serverBandwidth := Decode32(m.payload + beyond))
    else if m.packetType == CLIENTBW_TYPE then
      i.(bandwidth := Decode32(m.payload + beyond), clientBW2 := if |m.payload| > 4 then m.payload[4] else 0xff)
    else if m.packetType == AUDIO_TYPE || m.packetType == VIDEO_TYPE then
      i.(mediaChannel := if i.mediaChannel == 0 then m.channel else i.mediaChannel)
    else if QueuesMessage(m) then
      i.(messages := i.messages + [m.payload])
    else if QueuesFrame(m) then
      i.(frames := i.frames + [m.payload])
    else
      i
  }

  predicate QueuesMessage(m: Message) {
    m.packetType == FLEX_MESSAGE_TYPE || m.packetType == INVOKE_TYPE
  }

  predicate QueuesFrame(m: Message) {
    m.packetType == FLV_TYPE
  }

  /** A ping of at least six bytes is answered. */
  predicate IsPing(m: Message) {
    m.packetType == CONTROL_TYPE && |m.payload| >= 6 && Decode16(m.payload) == CONTROL_PING
  }

  /** The answer carries the four bytes of the ping. */
  function Pong(ping: Message, now: uint32): Message
    requires IsPing(ping)
  {
    Message(CONTROL_CHANNEL, CONTROL_TYPE, 0, now, Encode16(CONTROL_PONG) + ping.payload[2..6])
  }

  /** The first four bytes of `p` as a number, most significant first. */
  function Word(p: seq<byte>): uint32
    requires |p| >= 4
  {
    0x100_0000 * (p[0] as int) + 0x1_0000 * (p[1] as int) + 0x100 * (p[2] as int) + p[3]
  }

  /** What each type of message changes, and that no other changes anything. */
  lemma DispatchedByType(i: Inbox, m: Message, beyond: Beyond)
    ensures var r, p := Dispatched(i, m, beyond), m.payload;
            match m.packetType
            case 0x05 => r == i.(serverBandwidth := Word(p + beyond))
            case 0x06 => r == i.(bandwidth := Word(p + beyond), clientBW2 := if |p| <= 4 then 0xff else p[4])
            case 0x08 => r == i.(mediaChannel := if i.mediaChannel == 0 then m.channel else i.mediaChannel)
            case 0x09 => r == i.(mediaChannel := if i.mediaChannel == 0 then m.channel else i.mediaChannel)
            case 0x11 => r == i.(messages := i.messages + [p])
            case 0x14 => r == i.(messages := i.messages + [p])
            case 0x16 => r == i.(frames := i.frames + [p])
            case _ => r == i
  {
    hide Decode32, Word;
    WordDecoded(m.payload + beyond);
  }

  lemma WordDecoded(p: seq<byte>)
    ensures |p| >= 4 ==> Decode32(p) == Word(p)
  {
  }

  /** A ping is a control message of at least six bytes that begins with 0 and 6; its answer goes to
      channel 2 and has a 7 in place of the 6, and the same four bytes behind it. */
  lemma PongBytes(m: Message, now: uint32)
    ensures var p := m.payload;
            && (IsPing(m) <==> m.packetType == 4 && |p| >= 6 && p[0] == 0 && p[1] == 6)
            && (IsPing(m) ==> Pong(m, now) == Message(2, 4, 0, now, [0, 7, p[2], p[3], p[4], p[5]]))
  {
    var p := m.payload;
    assert IsPing(m) ==> Encode16(CONTROL_PONG) + p[2..6] == [0, 7, p[2], p[3], p[4], p[5]];
  }

  /** The payloads of the messages that go to the queue of messages, or to that of frames. */
  function Payloads(ms: seq<Message>, frames: bool): seq<seq<byte>> {
    if ms == [] then [] else
      (if (if frames then QueuesFrame(ms[0]) else QueuesMessage(ms[0])) then [ms[0].payload] else []) +
      Payloads(ms[1..], frames)
  }

  lemma {:induction false} PayloadsOneMore(ms: seq<Message>, m: Message, frames: bool)
    ensures Payloads(ms + [m], frames) ==
            Payloads(ms, frames) +
            if (if frames then QueuesFrame(m) else QueuesMessage(m)) then [m.payload] else []
  {
    if ms == [] {
      assert [] + [m] == [m] && [m][1..] == [];
    } else {
      assert (ms + [m])[0] == ms[0] && (ms + [m])[1..] == ms[1..] + [m];
      PayloadsOneMore(ms[1..], m, frames);
    }
  }

  /** What the program has taken from the queues and what is in them are, in order, the payloads of
      the messages of their kinds that have been dispatched. */
  predicate QueuesKeep(taken: seq<seq<byte>>, takenFrames: seq<seq<byte>>, i: Inbox, dispatched: seq<Message>) {
    taken + i.messages == Payloads(dispatched, false) && takenFrames + i.frames == Payloads(dispatched, true)
  }

  lemma DispatchKeepsQueues(taken: seq<seq<byte>>, takenFrames: seq<seq<byte>>, i: Inbox, dispatched: seq<Message>,
                            m: Message, beyond: Beyond)
    requires QueuesKeep(taken, takenFrames, i, dispatched)
    ensures QueuesKeep(taken, takenFrames, Dispatched(i, m, beyond), dispatched + [m])
  {
    hide Payloads, Decode32;
    PayloadsOneMore(dispatched, m, false);
    PayloadsOneMore(dispatched, m, true);
    ConcatAssociative(taken, i.messages, [m.payload]);
    ConcatAssociative(takenFrames, i.frames, [m.payload]);
  }
}
