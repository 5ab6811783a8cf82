/** Bytes, machine words and the big- and little-endian codecs that several formats share. */
module Bytes {

  type byte = b: int | 0 <= b < 0x100
  type uint32 = w: int | 0 <= w < 0x1_0000_0000

  datatype Option<+T> = None | Some(value: T)

  function Min(a: int, b: int): (m: int)
    ensures m <= a && m <= b && (m == a || m == b)
  {
    if a < b then a else b
  }

  lemma ConcatAssociative<T>(a: seq<T>, b: seq<T>, c: seq<T>)
    ensures (a + b) + c == a + (b + c)
  {
  }

  lemma SliceOfSlice<T>(s: seq<T>, a: nat, b: nat, lo: nat, hi: nat)
    requires a <= b <= |s| && lo <= hi <= b - a
    ensures s[a..b][lo..hi] == s[a + lo..a + hi]
  {
    var t, u := s[a..b][lo..hi], s[a + lo..a + hi];
    forall k | 0 <= k < hi - lo
      ensures t[k] == u[k]
    {
      assert t[k] == s[a..b][lo + k] == s[a + lo + k];
    }
  }

  /** The index of the first `c`, or the length of `s` if there is none. */
  function Find<T(==)>(s: seq<T>, c: T): (i: nat)
    ensures i <= |s| && c !in s[..i]
    ensures i < |s| ==> s[i] == c
  {
    if s == [] || s[0] == c then 0 else 1 + Find(s[1..], c)
  }

  lemma {:induction false} FindIs<T>(s: seq<T>, c: T, i: nat)
    requires i <= |s| && c !in s[..i] && (i < |s| ==> s[i] == c)
    ensures Find(s, c) == i
  {
    if i == 0 {
    } else {
      assert s[..i][0] == s[0] && s[..i][1..] == s[1..][..i - 1];
      FindIs(s[1..], c, i - 1);
    }
  }

  /** Three bytes, most significant first; the high bits of a wider value are lost. */
  function Encode24(v: nat): (s: seq<byte>)
    ensures |s| == 3
  {
    [v / 0x1_0000 % 0x100, v / 0x100 % 0x100, v % 0x100]
  }

  function Decode24(s: seq<byte>): (v: nat)
    requires |s| >= 3
    ensures v < 0x100_0000
  {
    0x1_0000 * (s[0] as int) + 0x100 * (s[1] as int) + s[2]
  }

  /** Four bytes, least significant first. */
  function Encode32LE(v: nat): (s: seq<byte>)
    ensures |s| == 4
  {
    [v % 0x100, v / 0x100 % 0x100, v / 0x1_0000 % 0x100, v / 0x100_0000 % 0x100]
  }

  function Decode32LE(s: seq<byte>): (v: uint32)
    requires |s| >= 4
  {
    0x100_0000 * (s[3] as int) + 0x1_0000 * (s[2] as int) + 0x100 * (s[1] as int) + s[0]
  }

  /** Two bytes, most significant first. */
  function Encode16(v: nat): (s: seq<byte>)
    ensures |s| == 2
  {
    [v / 0x100 % 0x100, v % 0x100]
  }

  function Decode16(s: seq<byte>): (v: nat)
    requires |s| >= 2
    ensures v < 0x1_0000
  {
    0x100 * (s[0] as int) + s[1]
  }

  /** Four bytes, most significant first. */
  function Encode32(v: nat): (s: seq<byte>)
    ensures |s| == 4
  {
    [v / 0x100_0000 % 0x100, v / 0x1_0000 % 0x100, v / 0x100 % 0x100, v % 0x100]
  }

  function Decode32(s: seq<byte>): (v: uint32)
    requires |s| >= 4
  {
    0x100_0000 * (s[0] as int) + 0x1_0000 * (s[1] as int) + 0x100 * (s[2] as int) + s[3]
  }

  lemma {:induction false} Multiples(m: int, k: int)
    requires m > 0
    ensures k >= 1 ==> m * k >= m
    ensures k <= -1 ==> m * k <= -m
  {
    if k >= 1 {
      assert m * k == m + m * (k - 1) && m * (k - 1) >= 0;
    } else if k <= -1 {
      assert m * k == -m - m * (-k - 1) && m * (-k - 1) >= 0;
    }
  }

  /** The quotient and remainder of a value written as `m * q + r` are q and r. */
  lemma {:induction false} Division(v: nat, m: nat, q: nat, r: nat)
    requires 0 <= r < m && v == m * q + r
    ensures v / m == q && v % m == r
  {
    var k := v / m - q;
    assert m * k == m * (v / m) - m * q == r - v % m;
    Multiples(m, k);
  }

  /** Shifting by one byte at a time reaches the same quotients as shifting at once. */
  lemma NestedQuotients(v: nat)
    ensures v % 0x1_0000 == 0x100 * (v / 0x100 % 0x100) + v % 0x100
    ensures v % 0x100_0000 ==
            0x1_0000 * (v / 0x1_0000 % 0x100) + 0x100 * (v / 0x100 % 0x100) + v % 0x100
    ensures v % 0x1_0000_0000 ==
            0x100_0000 * (v / 0x100_0000 % 0x100) + 0x1_0000 * (v / 0x1_0000 % 0x100) +
            0x100 * (v / 0x100 % 0x100) + v % 0x100
  {
    var q1, b0 := v / 0x100, v % 0x100;
    var q2, b1 := q1 / 0x100, q1 % 0x100;
    var q3, b2 := q2 / 0x100, q2 % 0x100;
    var q4, b3 := q3 / 0x100, q3 % 0x100;
    Division(v, 0x1_0000, q2, 0x100 * b1 + b0);
    Division(v, 0x100_0000, q3, 0x1_0000 * b2 + 0x100 * b1 + b0);
    Division(v, 0x1_0000_0000, q4, 0x100_0000 * b3 + 0x1_0000 * b2 + 0x100 * b1 + b0);
  }

  /** The 24-bit field carries exactly the low 24 bits, so it round-trips iff the value fits. */
  lemma RoundTrip24(v: nat, rest: seq<byte>)
    ensures Decode24(Encode24(v) + rest) == v % 0x100_0000
  {
    var s := Encode24(v) + rest;
    NestedQuotients(v);
    assert s[0] == v / 0x1_0000 % 0x100 && s[1] == v / 0x100 % 0x100 && s[2] == v % 0x100;
  }

  lemma RoundTrip32LE(v: uint32, rest: seq<byte>)
    ensures Decode32LE(Encode32LE(v) + rest) == v
  {
    var s := Encode32LE(v) + rest;
    NestedQuotients(v);
    assert s[0] == v % 0x100 && s[1] == v / 0x100 % 0x100;
    assert s[2] == v / 0x1_0000 % 0x100 && s[3] == v / 0x100_0000 % 0x100;
  }

  lemma RoundTrip16(v: nat, rest: seq<byte>)
    ensures Decode16(Encode16(v) + rest) == v % 0x1_0000
  {
    var s := Encode16(v) + rest;
    NestedQuotients(v);
    assert s[0] == v / 0x100 % 0x100 && s[1] == v % 0x100;
  }

  lemma RoundTrip32(v: nat, rest: seq<byte>)
    ensures Decode32(Encode32(v) + rest) == v % 0x1_0000_0000
  {
    var s := Encode32(v) + rest;
    NestedQuotients(v);
    assert s[0] == v / 0x100_0000 % 0x100 && s[1] == v / 0x1_0000 % 0x100;
    assert s[2] == v / 0x100 % 0x100 && s[3] == v % 0x100;
  }
}
