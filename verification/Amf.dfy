/** AMF0 values (AMF0 specification, sections 2.2, 2.3, 2.4 and 2.14) written to a growable buffer
    and read back by their type bytes. */
module Amf {
  import opened Bytes

  const NUMBER_AMF0: byte := 0x00
  const BOOLEAN_AMF0: byte := 0x01
  const STRING_AMF0: byte := 0x02
  const NULL_AMF0: byte := 0x05
  const UNDEFINED_AMF0: byte := 0x06
  const LONG_STRING_AMF0: byte := 0x0c
  const UNSUPPORTED_AMF0: byte := 0x0d
  const LONG: nat := 0x1_0000
  const WRAP: nat := 0x1_0000_0000

  /** A double as the eight bytes that a little-endian host keeps for it. */
  type Double = d: seq<byte> | |d| == 8 witness [0, 0, 0, 0, 0, 0, 0, 0]

  datatype Value = Number(d: Double) | Boolean(b: bool) | String(s: seq<byte>) | Null | Undefined

  // ----- The buffer

  /** A buffer of bytes that grows by reallocation. */
  class SimpleBuffer {
    var size: nat
    var capacity: nat
    var data: array<byte>

    ghost predicate Valid()
      reads this
    {
      data.Length == capacity && size <= capacity
    }

    ghost function Contents(): (s: seq<byte>)
      reads this, data
      requires Valid()
    {
      data[..size]
    }

    constructor (capacity: nat)
      ensures Valid() && fresh(data) && Contents() == [] && this.capacity == capacity
    {
      size, this.capacity := 0, capacity;
      data := new byte[capacity](_ => 0);
    }

    /** Makes room for at least `newCapacity` bytes, at least doubling a buffer that is too small. */
    method Reserve(newCapacity: nat)
      requires Valid()
      modifies this`capacity, this`data
      ensures Valid() && Contents() == old(Contents())
      ensures data == old(data) || fresh(data)
      ensures capacity == if old(capacity) >= newCapacity then old(capacity)
                          else if newCapacity > old(capacity) * 2 then newCapacity else old(capacity) * 2
    {
      if capacity >= newCapacity {
        return;
      }
      capacity := if newCapacity > capacity * 2 then newCapacity else capacity * 2;
      var tmp := data;
      data := new byte[capacity](_ => 0);
      forall i | 0 <= i < size {
        data[i] := tmp[i];
      }
      assert data[..size] == tmp[..size];
    }

    /** The bytes that are there stay; those beyond them are unspecified. */
    method Resize(newSize: nat)
      requires Valid()
      modifies this
      ensures Valid() && size == newSize
      ensures data == old(data) || fresh(data)
      ensures old(size) <= newSize ==> Contents()[..old(size)] == old(Contents())
      ensures old(size) >= newSize ==> Contents() == old(Contents())[..newSize]
    {
      ghost var before := Contents();
      Reserve(newSize);
      assert data[..size] == before;
      size := newSize;
    }

    method Append(inData: seq<byte>)
      requires Valid()
      modifies this, data
      ensures Valid() && Contents() == old(Contents()) + inData
      ensures data == old(data) || fresh(data)
    {
      var curSize := size;
      Resize(curSize + |inData|);
      forall i | 0 <= i < |inData| {
        data[curSize + i] := inData[i];
      }
      assert data[..curSize] == old(Contents()) && data[curSize..size] == inData;
      assert data[..size] == data[..curSize] + data[curSize..size];
    }

    method AppendByte(b: byte)
      requires Valid()
      modifies this, data
      ensures Valid() && Contents() == old(Contents()) + [b]
      ensures data == old(data) || fresh(data)
    {
      Resize(size + 1);
      data[size - 1] := b;
    }

    method AppendNetworkShort(s: nat)
      requires Valid()
      modifies this, data
      ensures Valid() && Contents() == old(Contents()) + Encode16(s)
      ensures data == old(data) || fresh(data)
    {
      Resize(size + 2);
      data[size - 2] := s / 0x100 % 0x100;
      data[size - 1] := s % 0x100;
    }

    method AppendNetworkLong(l: nat)
      requires Valid()
      modifies this, data
      ensures Valid() && Contents() == old(Contents()) + Encode32(l)
      ensures data == old(data) || fresh(data)
    {
      Resize(size + 4);
      data[size - 4] := l / 0x100_0000 % 0x100;
      data[size - 3] := l / 0x1_0000 % 0x100;
      data[size - 2] := l / 0x100 % 0x100;
      data[size - 1] := l % 0x100;
    }
  }

  // ----- Writing

  function Swapped(s: seq<byte>): (t: seq<byte>)
    ensures |t| == |s|
  {
    seq(|s|, i requires 0 <= i < |s| => s[|s| - 1 - i])
  }

  lemma SwappedTwice(s: seq<byte>)
    ensures Swapped(Swapped(s)) == s
  {
  }

  /** Reverses the bytes of a word in place. */
  method SwapBytes(word: array<byte>)
    modifies word
    ensures word[..] == Swapped(old(word[..]))
  {
    var n, i := word.Length, 0;
    while i < n / 2
      invariant 0 <= i <= n / 2
      invariant forall k :: 0 <= k < i ==> word[k] == old(word[n - 1 - k]) && word[n - 1 - k] == old(word[k])
      invariant forall k :: i <= k < n - i ==> word[k] == old(word[k])
    {
      word[i], word[n - 1 - i] := word[n - 1 - i], word[i];
      i := i + 1;
    }
  }

  function EncodedPlainString(s: seq<byte>, long: bool): seq<byte> {
    (if long then Encode32(|s|) else Encode16(|s|)) + s
  }

  function Encoded(v: Value): seq<byte> {
    match v
    case Number(d) => [NUMBER_AMF0] + Swapped(d)
    case Boolean(b) => [BOOLEAN_AMF0] + [if b then 1 else 0]
    case String(s) =>
      [if |s| < LONG then STRING_AMF0 else LONG_STRING_AMF0] + EncodedPlainString(s, |s| >= LONG)
    case Null => [NULL_AMF0]
    case Undefined => [UNDEFINED_AMF0]
  }

  function EncodedAll(vs: seq<Value>): seq<byte> {
    if vs == [] then [] else Encoded(vs[0]) + EncodedAll(vs[1..])
  }

  method WritePlainString(buf: SimpleBuffer, s: seq<byte>, t: byte) returns (ok: bool)
    requires buf.Valid()
    modifies buf, buf.data
    ensures buf.Valid() && (buf.data == old(buf.data) || fresh(buf.data))
    ensures ok == (t == STRING_AMF0 || t == LONG_STRING_AMF0)
    ensures buf.Contents() == old(buf.Contents()) + if ok then EncodedPlainString(s, t == LONG_STRING_AMF0) else []
  {
    hide Encode16, Encode32;
    ConcatAssociative(buf.Contents(), if t == LONG_STRING_AMF0 then Encode32(|s|) else Encode16(|s|), s);
    if t == LONG_STRING_AMF0 {
      buf.AppendNetworkLong(|s|);
    } else if t == STRING_AMF0 {
      buf.AppendNetworkShort(|s|);
    } else {
      return false;
    }
    buf.Append(s);
    return true;
  }

  method WritePlainNumber(buf: SimpleBuffer, d: Double)
    requires buf.Valid()
    modifies buf, buf.data
    ensures buf.Valid() && (buf.data == old(buf.data) || fresh(buf.data))
    ensures buf.Contents() == old(buf.Contents()) + Swapped(d)
  {
    var word := new byte[8](i requires 0 <= i < 8 => d[i]);
    assert word[..] == d;
    SwapBytes(word);
    buf.Append(word[..]);
  }

  method WriteString(buf: SimpleBuffer, s: seq<byte>)
    requires buf.Valid()
    modifies buf, buf.data
    ensures buf.Valid() && (buf.data == old(buf.data) || fresh(buf.data))
    ensures buf.Contents() == old(buf.Contents()) + Encoded(String(s))
  {
    hide EncodedPlainString;
    var t := if |s| < LONG then STRING_AMF0 else LONG_STRING_AMF0;
    ConcatAssociative(buf.Contents(), [t], EncodedPlainString(s, |s| >= LONG));
    buf.AppendByte(t);
    var ok := WritePlainString(buf, s, t);
  }

  method WriteNumber(buf: SimpleBuffer, d: Double)
    requires buf.Valid()
    modifies buf, buf.data
    ensures buf.Valid() && (buf.data == old(buf.data) || fresh(buf.data))
    ensures buf.Contents() == old(buf.Contents()) + Encoded(Number(d))
  {
    hide Swapped;
    ConcatAssociative(buf.Contents(), [NUMBER_AMF0], Swapped(d));
    buf.AppendByte(NUMBER_AMF0);
    WritePlainNumber(buf, d);
  }

  method WriteBoolean(buf: SimpleBuffer, b: bool)
    requires buf.Valid()
    modifies buf, buf.data
    ensures buf.Valid() && (buf.data == old(buf.data) || fresh(buf.data))
    ensures buf.Contents() == old(buf.Contents()) + Encoded(Boolean(b))
  {
    buf.AppendByte(BOOLEAN_AMF0);
    buf.AppendByte(if b then 1 else 0);
  }

  /** The three overloads of `write`, and the type bytes that stand alone. */
  method Write(buf: SimpleBuffer, v: Value)
    requires buf.Valid()
    modifies buf, buf.data
    ensures buf.Valid() && (buf.data == old(buf.data) || fresh(buf.data))
    ensures buf.Contents() == old(buf.Contents()) + Encoded(v)
  {
    match v
    case Number(d) => WriteNumber(buf, d);
    case Boolean(b) => WriteBoolean(buf, b);
    case String(s) => WriteString(buf, s);
    case Null => buf.AppendByte(NULL_AMF0);
    case Undefined => buf.AppendByte(UNDEFINED_AMF0);
  }

  method WriteAll(buf: SimpleBuffer, vs: seq<Value>)
    requires buf.Valid()
    modifies buf, buf.data
    ensures buf.Valid() && (buf.data == old(buf.data) || fresh(buf.data))
    ensures buf.Contents() == old(buf.Contents()) + EncodedAll(vs)
  {
    hide Encoded;
    var i := 0;
    ghost var before := buf.Contents();
    assert vs[0..] == vs;
    while i < |vs|
      invariant 0 <= i <= |vs| && buf.Valid() && (buf.data == old(buf.data) || fresh(buf.data))
      invariant before + EncodedAll(vs) == buf.Contents() + EncodedAll(vs[i..])
    {
      assert vs[i..][1..] == vs[i + 1..];
      ConcatAssociative(buf.Contents(), Encoded(vs[i]), EncodedAll(vs[i + 1..]));
      Write(buf, vs[i]);
      i := i + 1;
    }
    assert vs[i..] == [];
  }

  // ----- Reading

  /** A read that has succeeded: its value and the bytes behind it. */
  datatype Read<T> = Read(value: T, rest: seq<byte>)

  function ParseBoolean(s: seq<byte>): Option<Read<Value>> {
    if s == [] then None else Some(Read(Boolean(s[0] != 0), s[1..]))
  }

  function ParseNumber(s: seq<byte>): Option<Read<Value>> {
    if |s| < 8 then None else Some(Read(Number(Swapped(s[..8])), s[8..]))
  }

  function ParseString(s: seq<byte>): Option<Read<Value>> {
    if |s| < 2 then None else
      var si := Decode16(s);
      if |s| - 2 < si then None else Some(Read(String(s[2..2 + si]), s[2 + si..]))
  }

  /** The length is compared with the rest of the buffer as a 32-bit number. */
  function ParseLongString(s: seq<byte>): Option<Read<Value>> {
    if |s| < 4 then None else
      var si := Decode32(s);
      if (|s| - 4) % WRAP < si then None else
        Truncated(|s| - 4);
        Some(Read(String(s[4..4 + si]), s[4 + si..]))
  }

  lemma Truncated(n: nat)
    ensures n % WRAP <= n
    ensures n < WRAP ==> n % WRAP == n
  {
  }

  /** A value by its type byte; None for the exceptions, and for the types that need objects. */
  function Parse(s: seq<byte>): Option<Read<Value>> {
    if s == [] then None
    else if s[0] == BOOLEAN_AMF0 then ParseBoolean(s[1..])
    else if s[0] == STRING_AMF0 then ParseString(s[1..])
    else if s[0] == LONG_STRING_AMF0 then ParseLongString(s[1..])
    else if s[0] == NUMBER_AMF0 then ParseNumber(s[1..])
    else if s[0] == UNSUPPORTED_AMF0 || s[0] == UNDEFINED_AMF0 then Some(Read(Undefined, s[1..]))
    else if s[0] == NULL_AMF0 then Some(Read(Null, s[1..]))
    else None
  }

  lemma ParseShortens(s: seq<byte>)
    ensures Parse(s).Some? ==> |Parse(s).value.rest| < |s|
  {
  }

  /** All values up to the end of the buffer. */
  function ParseAll(s: seq<byte>): Option<seq<Value>>
    decreases |s|
  {
    if s == [] then Some([]) else
      ParseShortens(s);
      var r := Parse(s);
      if r.None? then None else
        var vs := ParseAll(r.value.rest);
        if vs.None? then None else Some([r.value.value] + vs.value)
  }

  /** A reader of a buffer: a position that moves over what has been read. */
  class Reader {
    const buf: seq<byte>
    var pos: nat

    ghost predicate Valid()
      reads this
    {
      pos <= |buf|
    }

    ghost function Rest(): seq<byte>
      reads this
      requires Valid()
    {
      buf[pos..]
    }

    constructor (buf: seq<byte>)
      ensures Valid() && this.buf == buf && Rest() == buf
    {
      this.buf := buf;
      pos := 0;
    }

    method ReadBoolean() returns (r: Option<Value>)
      requires Valid()
      modifies this
      ensures Valid() && Yields(r, ParseBoolean(old(Rest())))
    {
      if pos == |buf| {
        return None;
      }
      var val := buf[pos] != 0;
      pos := pos + 1;
      return Some(Boolean(val));
    }

    method ReadNumber() returns (r: Option<Value>)
      requires Valid()
      modifies this
      ensures Valid() && Yields(r, ParseNumber(old(Rest())))
    {
      if |buf| - pos < 8 {
        return None;
      }
      var word := buf[pos..pos + 8];
      var d := new byte[8](i requires 0 <= i < 8 => word[i]);
      assert d[..] == word == Rest()[..8];
      pos := pos + 8;
      SwapBytes(d);
      return Some(Number(d[..]));
    }

    method ReadString() returns (r: Option<Value>)
      requires Valid()
      modifies this
      ensures Valid() && Yields(r, ParseString(old(Rest())))
    {
      if |buf| - pos < 2 {
        return None;
      }
      var si := Decode16(buf[pos..]);
      pos := pos + 2;
      if |buf| - pos < si {
        return None;
      }
      var str := buf[pos..pos + si];
      assert str == old(Rest())[2..2 + si];
      pos := pos + si;
      return Some(String(str));
    }

    method ReadLongString() returns (r: Option<Value>)
      requires Valid()
      modifies this
      ensures Valid() && Yields(r, ParseLongString(old(Rest())))
    {
      if |buf| - pos < 4 {
        return None;
      }
      var si := Decode32(buf[pos..]);
      pos := pos + 4;
      if (|buf| - pos) % WRAP < si {
        return None;
      }
      Truncated(|buf| - pos);
      var str := buf[pos..pos + si];
      assert str == old(Rest())[4..4 + si];
      pos := pos + si;
      return Some(String(str));
    }

    /** The value read is the parsed one, and the position is behind it. */
    ghost predicate Yields(r: Option<Value>, parsed: Option<Read<Value>>)
      reads this
      requires Valid()
    {
      match parsed
      case None => r.None?
      case Some(p) => r == Some(p.value) && Rest() == p.rest
    }

    /** Reads the type byte and then the value that it announces. */
    method ReadValue() returns (r: Option<Value>)
      requires Valid()
      modifies this
      ensures Valid() && Yields(r, Parse(old(Rest())))
    {
      hide ParseBoolean, ParseString, ParseLongString, ParseNumber;
      if pos == |buf| {
        return None;
      }
      var t := buf[pos];
      pos := pos + 1;
      assert Rest() == old(Rest())[1..];
      if t == BOOLEAN_AMF0 {
        r := ReadBoolean();
      } else if t == STRING_AMF0 {
        r := ReadString();
      } else if t == LONG_STRING_AMF0 {
        r := ReadLongString();
      } else if t == NUMBER_AMF0 {
        r := ReadNumber();
      } else if t == UNSUPPORTED_AMF0 || t == UNDEFINED_AMF0 {
        r := Some(Undefined);
      } else if t == NULL_AMF0 {
        r := Some(Null);
      } else {
        r := None;
      }
    }
  }

  // ----- The format in numbers

  /** Every byte of a value that is written. */
  lemma EncodedBytes(v: Value)
    ensures v.Number? ==>
              Encoded(v) == [0, v.d[7], v.d[6], v.d[5], v.d[4], v.d[3], v.d[2], v.d[1], v.d[0]]
    ensures v.Boolean? ==> Encoded(v) == [1, if v.b then 1 else 0]
    ensures v.String? && |v.s| < 65536 ==> Encoded(v) == [2, |v.s| / 256, |v.s| % 256] + v.s
    ensures v.String? && |v.s| >= 65536 ==>
              Encoded(v) == [12, |v.s| / 0x100_0000 % 256, |v.s| / 0x1_0000 % 256, |v.s| / 256 % 256, |v.s| % 256] + v.s
    ensures v.Null? ==> Encoded(v) == [5]
    ensures v.Undefined? ==> Encoded(v) == [6]
  {
    hide Swapped, EncodedPlainString;
    if v.Number? {
      SwappedBytes(v.d);
    } else if v.String? {
      StringBytes(v.s);
      var short := |v.s| < LONG;
      ConcatAssociative([if short then 2 else 12], if short then Encode16(|v.s|) else Encode32(|v.s|), v.s);
    }
  }

  lemma SwappedBytes(d: Double)
    ensures Swapped(d) == [d[7], d[6], d[5], d[4], d[3], d[2], d[1], d[0]]
  {
  }

  lemma StringBytes(s: seq<byte>)
    ensures EncodedPlainString(s, false) == Encode16(|s|) + s && EncodedPlainString(s, true) == Encode32(|s|) + s
    ensures |s| < 65536 ==> Encode16(|s|) == [|s| / 256, |s| % 256]
    ensures Encode32(|s|) == [|s| / 0x100_0000 % 256, |s| / 0x1_0000 % 256, |s| / 256 % 256, |s| % 256]
  {
  }

  lemma Value16(s: seq<byte>)
    ensures |s| >= 2 ==> Decode16(s) == 256 * (s[0] as int) + s[1]
    ensures |s| >= 4 ==>
              Decode32(s) == 0x100_0000 * (s[0] as int) + 0x1_0000 * (s[1] as int) + 256 * (s[2] as int) + s[3]
  {
  }

  /** What any bytes are read as: by their type byte, whether the reader's own writer makes such bytes
      or not. Nothing is read of a value that is not there in full, or of another type. */
  lemma ParsedBytes(t: byte, s: seq<byte>)
    ensures var r := Parse([t] + s);
            match t
            case 0 => if |s| < 8 then r == None
                      else r == Some(Read(Number([s[7], s[6], s[5], s[4], s[3], s[2], s[1], s[0]]), s[8..]))
            case 1 => if s == [] then r == None else r == Some(Read(Boolean(s[0] != 0), s[1..]))
            case 2 =>
              if |s| < 2 || |s| - 2 < 256 * (s[0] as int) + s[1] then r == None else
                var n := 256 * (s[0] as int) + s[1];
                r == Some(Read(String(s[2..2 + n]), s[2 + n..]))
            case 12 =>
              if |s| < 4 then r == None else
                var n := 0x100_0000 * (s[0] as int) + 0x1_0000 * (s[1] as int) + 256 * (s[2] as int) + s[3];
                if (|s| - 4) % 0x1_0000_0000 < n then r == None
                else n <= |s| - 4 && r == Some(Read(String(s[4..4 + n]), s[4 + n..]))
            case 5 => r == Some(Read(Null, s))
            case 6 => r == Some(Read(Undefined, s))
            case 13 => r == Some(Read(Undefined, s))
            case _ => r == None
  {
    hide Decode16, Decode32, ParseNumber, Swapped;
    assert ([t] + s)[1..] == s;
    Value16(s);
    NumberParsed(s);
    if |s| >= 4 {
      Truncated(|s| - 4);
    }
  }

  lemma NumberParsed(s: seq<byte>)
    ensures ParseNumber(s) == if |s| < 8 then None
                              else Some(Read(Number([s[7], s[6], s[5], s[4], s[3], s[2], s[1], s[0]]), s[8..]))
  {
    hide Swapped;
    if |s| >= 8 {
      var d: Double := s[..8];
      SwappedBytes(d);
      assert forall k :: 0 <= k < 8 ==> d[k] == s[k];
    }
  }

  // ----- Round trip

  /** What the format can carry: a long string has a length of 32 bits, and the rest of the buffer
      behind that length must not look shorter than the string to a 32-bit comparison. */
  predicate Fits(v: Value, after: nat) {
    v.String? && |v.s| >= LONG ==> |v.s| < WRAP && (|v.s| + after) % WRAP >= |v.s|
  }

  lemma ParseShort(str: seq<byte>, rest: seq<byte>)
    requires |str| < LONG
    ensures ParseString(EncodedPlainString(str, false) + rest) == Some(Read(String(str), rest))
  {
    hide Encode16, Decode16;
    var s := EncodedPlainString(str, false) + rest;
    assert s == Encode16(|str|) + (str + rest);
    RoundTrip16(|str|, str + rest);
    assert s[2..2 + |str|] == str && s[2 + |str|..] == rest;
  }

  lemma ParseLong(str: seq<byte>, rest: seq<byte>)
    ensures var r := ParseLongString(EncodedPlainString(str, true) + rest);
            if |str| < WRAP && (|str| + |rest|) % WRAP >= |str| then r == Some(Read(String(str), rest))
            else r.None? || r.value.value != String(str)
  {
    hide Encode32, Decode32;
    var s := EncodedPlainString(str, true) + rest;
    assert s == Encode32(|str|) + (str + rest);
    RoundTrip32(|str|, str + rest);
    Truncated(|str|);
    if |str| < WRAP {
      assert s[4..4 + |str|] == str && s[4 + |str|..] == rest;
    }
  }

  lemma ParseFixed(v: Value, rest: seq<byte>)
    requires !v.String?
    ensures Parse(Encoded(v) + rest) == Some(Read(v, rest))
  {
    hide Swapped, EncodedPlainString, ParseString, ParseLongString;
    var s := Encoded(v) + rest;
    assert s[0] == Encoded(v)[0];
    if v.Number? {
      assert s[1..][..8] == Swapped(v.d) && s[1..][8..] == rest;
      SwappedTwice(v.d);
    } else if v.Boolean? {
      assert s[1..][1..] == rest;
    } else {
      assert s[1..] == rest;
    }
  }

  lemma ParseBehindType(str: seq<byte>, rest: seq<byte>)
    ensures Parse(Encoded(String(str)) + rest) ==
            if |str| < LONG then ParseString(EncodedPlainString(str, false) + rest)
            else ParseLongString(EncodedPlainString(str, true) + rest)
  {
    hide EncodedPlainString, ParseString, ParseLongString;
    var body := EncodedPlainString(str, |str| >= LONG);
    var s := Encoded(String(str)) + rest;
    assert s[1..] == body + rest && s[0] == Encoded(String(str))[0];
  }

  /** A value is read back, with nothing else consumed, iff it fits. */
  lemma ParseEncoded(v: Value, rest: seq<byte>)
    ensures Parse(Encoded(v) + rest) == Some(Read(v, rest)) <==> Fits(v, |rest|)
    ensures !Fits(v, |rest|) ==> Parse(Encoded(v) + rest).None? || Parse(Encoded(v) + rest).value.value != v
  {
    hide Parse, Encoded, EncodedPlainString, ParseString, ParseLongString;
    if v.String? {
      ParseBehindType(v.s, rest);
      if |v.s| < LONG {
        ParseShort(v.s, rest);
      } else {
        ParseLong(v.s, rest);
      }
    } else {
      ParseFixed(v, rest);
    }
  }

  predicate AllFit(vs: seq<Value>) {
    vs == [] || (Fits(vs[0], |EncodedAll(vs[1..])|) && AllFit(vs[1..]))
  }

  /** A list of values is read back, and the buffer consumed exactly, iff all of them fit. */
  lemma {:induction false} ParseEncodedAll(vs: seq<Value>)
    ensures ParseAll(EncodedAll(vs)) == Some(vs) <==> AllFit(vs)
  {
    hide Encoded, Parse, Fits;
    if vs == [] {
    } else {
      var rest := EncodedAll(vs[1..]);
      var s := EncodedAll(vs);
      ParseEncoded(vs[0], rest);
      ParseEncodedAll(vs[1..]);
      EncodedNotEmpty(vs[0]);
      ParseShortens(s);
      assert vs == [vs[0]] + vs[1..];
      var r := Parse(s);
      if r.Some? && ParseAll(r.value.rest).Some? {
        assert ParseAll(s).value[0] == r.value.value;
      }
    }
  }

  lemma EncodedNotEmpty(v: Value)
    ensures Encoded(v) != []
  {
  }

  /** In particular, every list whose encoding is less than 4 GiB is. */
  lemma {:induction false} SmallBuffersFit(vs: seq<Value>)
    requires |EncodedAll(vs)| < WRAP
    ensures AllFit(vs)
  {
    hide Encoded, Fits;
    if vs == [] {
    } else {
      SmallBuffersFit(vs[1..]);
      EncodedHolds(vs[0]);
      SmallFits(vs[0], |EncodedAll(vs[1..])|);
    }
  }

  lemma SmallFits(v: Value, after: nat)
    requires v.String? ==> |v.s| + after < WRAP
    ensures Fits(v, after)
  {
    if v.String? {
      Truncated(|v.s| + after);
    }
  }

  lemma EncodedHolds(v: Value)
    ensures v.String? ==> |Encoded(v)| >= |v.s|
  {
  }
}
