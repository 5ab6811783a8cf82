/** Chunk headers byte by byte (section 5.3.1 of the RTMP 1.0 specification), in numbers: what the
    sender puts on the wire, and what the receiver makes of any bytes. */
module RtmpLayout {
  import opened Bytes
  import opened RtmpWire
  import opened RtmpReceiver

  /** The two high bits of the first byte. */
  function KindBits(t: HeaderType): byte {
    match t case Large => 0x00 case Medium => 0x40 case Small => 0x80 case Minimum => 0xc0
  }

  // ----- Written

  lemma BasicBytes(t: HeaderType, c: nat)
    requires c <= 319
    ensures EncodeBasic(t, c) == if c <= 63 then [KindBits(t) + c] else [KindBits(t), c - 64]
  {
  }

  lemma FieldBytes(h: Header)
    ensures var t, n, i := h.timestamp, h.dataSize, h.streamId;
            EncodeFields(h) ==
            (if h.headerType == Minimum then []
             else if h.headerType == Large && t >= 0xffffff then [0xff, 0xff, 0xff]
             else [t / 0x1_0000 % 0x100, t / 0x100 % 0x100, t % 0x100])
            + (if h.headerType == Minimum || h.headerType == Small then []
               else [n / 0x1_0000 % 0x100, n / 0x100 % 0x100, n % 0x100, h.packetType])
            + (if h.headerType != Large then []
               else [i % 0x100, i / 0x100 % 0x100, i / 0x1_0000 % 0x100, i / 0x100_0000 % 0x100])
  {
  }

  /** Every byte of a header that is sent: type and channel, three bytes of time, three of size, the
      message type, and the stream id backwards. A large time is announced by 0xffffff and follows,
      backwards too. */
  lemma HeadBytes(h: Header)
    requires h.channel <= 319
    ensures var c, t, n, i := h.channel, h.timestamp, h.dataSize, h.streamId;
            var escaped := h.headerType == Large && t >= 0xffffff;
            EncodeHead(h) ==
            (if c <= 63 then [KindBits(h.headerType) + c] else [KindBits(h.headerType), c - 64])
            + ((if h.headerType == Minimum then []
                else if escaped then [0xff, 0xff, 0xff]
                else [t / 0x1_0000 % 0x100, t / 0x100 % 0x100, t % 0x100])
               + (if h.headerType == Minimum || h.headerType == Small then []
                  else [n / 0x1_0000 % 0x100, n / 0x100 % 0x100, n % 0x100, h.packetType])
               + (if h.headerType != Large then []
                  else [i % 0x100, i / 0x100 % 0x100, i / 0x1_0000 % 0x100, i / 0x100_0000 % 0x100]))
            + if !escaped then []
              else [t % 0x100, t / 0x100 % 0x100, t / 0x1_0000 % 0x100, t / 0x100_0000 % 0x100]
  {
    hide EncodeFields, EncodeBasic;
    BasicBytes(h.headerType, h.channel);
    FieldBytes(h);
  }

  // ----- Read

  /** The bytes that name channel `ch` behind the bits `kind`. */
  predicate Names(first: seq<byte>, kind: byte, ch: nat) {
    || (2 <= ch <= 63 && kind + ch < 0x100 && first == [kind + ch])
    || (ch >= 64 && first == [kind, ch - 64])
    || (|first| == 3 && first[0] == kind + 1 && ch == 64 + first[1] + 0x100 * (first[2] as int))
  }

  /** What is read behind the channel's name. */
  lemma BehindChannel(channels: InChannels, t: HeaderType, first: seq<byte>, ch: nat, fields: seq<byte>)
    requires Names(first, KindBits(t), ch)
    ensures ReadHead(channels, first + fields) == ReadFields(channels, t, ch, first + fields, |first|)
  {
    hide ReadFields;
    var w := first + fields;
    assert forall k :: 0 <= k < |first| ==> w[k] == first[k];
    assert ReadChannel(w) == (Some(ch), |first|);
  }

  function Number24(a: byte, b: byte, c: byte): nat {
    0x1_0000 * (a as int) + 0x100 * (b as int) + c
  }

  function Number32(a: byte, b: byte, c: byte, d: byte): uint32 {
    0x100_0000 * (a as int) + 0x1_0000 * (b as int) + 0x100 * (c as int) + d
  }

  /** The time of a compressed header: added to the last one, unless it is the escape value. */
  function TimeAfter(last: uint32, delta: nat): uint32 {
    if delta == 0xffffff then last else (last + delta) % 0x1_0000_0000
  }

  /** A large header stands for itself. Its escape value is lost. */
  lemma LargeRead(channels: InChannels, first: seq<byte>, ch: nat, f: seq<byte>, more: seq<byte>)
    requires Names(first, 0x00, ch) && |f| == 11
    ensures var time := Number24(f[0], f[1], f[2]);
            ReadHead(channels, first + (f + more)) ==
            Head(RawPacket.Packet(Header(Large, f[6], if time == 0xffffff then 0 else time,
                                         Number32(f[10], f[9], f[8], f[7]), ch, Number24(f[3], f[4], f[5])),
                                  Some([])), |first| + 11)
  {
    BehindChannel(channels, Large, first, ch, f + more);
    FieldsApart(first, f, more);
  }

  lemma FieldsApart(first: seq<byte>, f: seq<byte>, more: seq<byte>)
    ensures var w, at := first + (f + more), |first| + |f|;
            && w[|first|..at] == f && w[at..] == more && |w| == at + |more|
            && (|more| >= 4 ==> w[at..at + 4] == more[..4])
  {
    var w, at := first + (f + more), |first| + |f|;
    if |more| >= 4 {
      assert w[at..at + 4] == w[at..][..4];
    }
  }

  /** A compressed header changes the last packet of its channel. When the time comes to the escape
      value, four more bytes give it, most significant first. */
  lemma CompressedRead(channels: InChannels, t: HeaderType, first: seq<byte>, ch: nat, f: seq<byte>, more: seq<byte>)
    requires t != Large && Names(first, KindBits(t), ch)
    requires |f| == if t == Medium then 7 else if t == Small then 3 else 0
    ensures var r := ReadHead(channels, first + (f + more));
            if ch !in channels then r == HeadResult.Failed(|first|, false) else
              var last := channels[ch];
              var time := if t == Minimum then last.header.timestamp
                          else TimeAfter(last.header.timestamp, Number24(f[0], f[1], f[2]));
              var escaped := time == 0xffffff;
              var at := |first| + |f|;
              if escaped && |more| < 4 then r == HeadResult.Failed(at, true) else
                var stamp := if escaped then Number32(more[0], more[1], more[2], more[3]) else time;
                var h := last.header.(timestamp := stamp);
                var sized := if t == Medium then h.(dataSize := Number24(f[3], f[4], f[5]), packetType := f[6]) else h;
                && r.Head? && r.consumed == at + (if escaped then 4 else 0)
                && r.packet == if t == Medium || last.buffer.None?
                               then RawPacket.Packet(sized.(headerType := t), Some([]))
                               else RawPacket.Packet(sized, last.buffer)
  {
    hide ReadHead, Names;
    BehindChannel(channels, t, first, ch, f + more);
    FieldsApart(first, f, more);
    if ch in channels {
      FieldsRead(channels[ch], t, f);
    }
  }

  lemma FieldsRead(last: Packet, t: HeaderType, f: seq<byte>)
    requires t != Large && |f| == FieldSize(t)
    ensures DecodeFields(last, t, f) ==
            if t == Minimum then last else
              var h := last.header.(timestamp := TimeAfter(last.header.timestamp, Number24(f[0], f[1], f[2])));
              if t == Small then RawPacket.Packet(h, last.buffer)
              else RawPacket.Packet(h.(dataSize := Number24(f[3], f[4], f[5]), packetType := f[6]), None)
  {
    hide Decode24, Number24, Decode32LE;
    if t != Minimum {
      Decode24Is(f);
    }
    if t == Medium {
      Decode24Is(f[3..]);
      assert f[3..][0] == f[3] && f[3..][1] == f[4] && f[3..][2] == f[5];
    }
  }

  lemma Decode24Is(f: seq<byte>)
    ensures |f| >= 3 ==> Decode24(f) == Number24(f[0], f[1], f[2])
  {
  }

  /** A header that is not there in full loses exactly the parts that are: the first byte, the
      channel's further bytes if all of them are there, and then the fields. */
  lemma ShortRead(channels: InChannels, t: HeaderType, first: seq<byte>, ch: nat, f: seq<byte>, n: nat)
    requires Names(first, KindBits(t), ch) && (t == Large || ch in channels)
    requires |f| == (if t == Large then 11 else if t == Medium then 7 else if t == Small then 3 else 0)
    requires n < |first + f|
    ensures ReadHead(channels, (first + f)[..n]) ==
            HeadResult.Failed(if n == 0 then 0 else if n < |first| then 1 else |first|, true)
  {
    hide ReadFields;
    var w := (first + f)[..n];
    assert forall k :: 0 <= k < n ==> w[k] == if k < |first| then first[k] else f[k - |first|];
    if n >= |first| {
      assert w == first + f[..n - |first|];
      BehindChannel(channels, t, first, ch, f[..n - |first|]);
      FieldsMissing(channels, t, ch, w, |first|);
    }
  }

  lemma FieldsMissing(channels: InChannels, t: HeaderType, ch: nat, w: seq<byte>, at: nat)
    requires at <= |w| < at + FieldSize(t) && (t == Large || ch in channels)
    ensures ReadFields(channels, t, ch, w, at) == HeadResult.Failed(at, true)
  {
  }
}
