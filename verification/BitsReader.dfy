/** Bit-packed reads from a buffer that goes round at its end. */
module BitsReader {
  import opened Bytes

  function Pow2(n: nat): (p: nat)
    ensures p > 0
  {
    if n == 0 then 1 else 2 * Pow2(n - 1)
  }

  /** Bit `i` of the buffer repeated for ever, most significant bit of a byte first. */
  function Bit(data: seq<byte>, i: nat): (b: nat)
    requires data != []
    ensures b < 2
  {
    data[i / 8 % |data|] / Pow2(7 - i % 8) % 2
  }

  /** The `n` bits from `at` on as a number, most significant bit first. */
  function Value(data: seq<byte>, at: nat, n: nat): (v: nat)
    requires data != []
    ensures v < Pow2(n)
  {
    if n == 0 then 0 else 2 * Value(data, at, n - 1) + Bit(data, at + n - 1)
  }

  lemma {:induction false} Pow2Adds(a: nat, b: nat)
    ensures Pow2(a + b) == Pow2(a) * Pow2(b)
  {
    if b == 0 {
    } else {
      Pow2Adds(a, b - 1);
    }
  }

  lemma DoubledProduct(v: int, p: int)
    ensures 2 * (v * p) == v * (2 * p)
  {
  }

  /** Reading a bits and then b bits is reading a + b bits. */
  lemma {:induction false} ValueConcat(data: seq<byte>, at: nat, a: nat, b: nat)
    requires data != []
    ensures Value(data, at, a + b) == Value(data, at, a) * Pow2(b) + Value(data, at + a, b)
  {
    hide Bit;
    if b == 0 {
    } else {
      ValueConcat(data, at, a, b - 1);
      DoubledProduct(Value(data, at, a), Pow2(b - 1));
    }
  }

  lemma BitPeriodic(data: seq<byte>, i: nat)
    requires data != []
    ensures Bit(data, i + 8 * |data|) == Bit(data, i)
  {
    assert (i + 8 * |data|) / 8 == i / 8 + |data| && (i + 8 * |data|) % 8 == i % 8;
    var n, q := |data|, i / 8;
    Division(q + n, n, q / n + 1, q % n);
  }

  lemma {:induction false} ValuePeriodic(data: seq<byte>, at: nat, n: nat)
    requires data != []
    ensures Value(data, at + 8 * |data|, n) == Value(data, at, n)
  {
    hide Bit;
    if n == 0 {
    } else {
      ValuePeriodic(data, at, n - 1);
      BitPeriodic(data, at + n - 1);
    }
  }

  // ----- Bits of one byte

  lemma SmallPowers()
    ensures Pow2(0) == 1 && Pow2(1) == 2 && Pow2(2) == 4 && Pow2(3) == 8 && Pow2(4) == 16
    ensures Pow2(5) == 32 && Pow2(6) == 64 && Pow2(7) == 128 && Pow2(8) == 256
  {
    assert Pow2(2) == 2 * Pow2(1) && Pow2(4) == 2 * Pow2(3) && Pow2(6) == 2 * Pow2(5) && Pow2(8) == 2 * Pow2(7);
  }

  lemma HalfAndBit(x: nat, e: nat)
    requires e < 8
    ensures x / Pow2(e) == 2 * (x / Pow2(e + 1)) + x / Pow2(e) % 2
  {
    SmallPowers();
    if e == 0 {} else if e == 1 {} else if e == 2 {} else if e == 3 {}
    else if e == 4 {} else if e == 5 {} else if e == 6 {} else {}
  }

  /** The quotient by p of a multiple of 2 * p and a remainder has the parity of the remainder's. */
  lemma Parity(p: nat, m: nat, x: nat)
    requires p > 0
    ensures (p * (2 * m) + x) / p % 2 == x / p % 2
  {
    var y := x / p;
    assert x == p * y + x % p;
    Distribute(p, 2 * m, y);
    Division(p * (2 * m) + x, p, 2 * m + y, x % p);
  }

  lemma Distribute(p: int, a: int, b: int)
    ensures p * (a + b) == p * a + p * b
  {
  }

  lemma Regroup(p: int, r: int, q: int)
    ensures q * (p * (2 * r)) == p * (2 * (q * r))
  {
  }

  lemma MaskedParity(b: nat, m: nat, p: nat, k: nat, r: nat)
    requires p > 0 && m > 0 && m == p * k && k == 2 * r
    ensures b % m / p % 2 == b / p % 2
  {
    var q, x := b / m, b % m;
    assert b == q * m + x;
    Regroup(p, r, q);
    Parity(p, q * r, x);
  }

  /** A mask keeps the bits below it. */
  lemma MaskedBit(b: nat, w: nat, e: nat)
    requires e < w
    ensures b % Pow2(w) / Pow2(e) % 2 == b / Pow2(e) % 2
  {
    Pow2Adds(e, w - e);
    MaskedParity(b, Pow2(w), Pow2(e), Pow2(w - e), Pow2(w - e - 1));
  }

  lemma PowerOfOne()
    ensures Pow2(0) == 1 && Pow2(1) == 2
  {
  }

  /** The field of `k` bits of a byte that follows its first `u` bits. */
  function Field(b: byte, u: nat, k: nat): int
    requires u + k <= 8
  {
    b % Pow2(8 - u) / Pow2(8 - u - k)
  }

  lemma {:induction false} FieldIsValue(data: seq<byte>, p: nat, u: nat, k: nat)
    requires data != [] && u + k <= 8 && u < 8
    ensures Field(data[p % |data|], u, k) == Value(data, 8 * p + u, k)
    decreases k
  {
    hide Pow2, Bit;
    var b := data[p % |data|];
    var x := b % Pow2(8 - u);
    if k == 0 {
      Division(x, Pow2(8 - u), 0, x);
    } else {
      FieldIsValue(data, p, u, k - 1);
      HalfAndBit(x, 8 - u - k);
      MaskedBit(b, 8 - u, 8 - u - k);
      BitOfByte(data, p, u + k - 1);
    }
  }

  /** Whole bytes are read as numbers, most significant byte first. */
  lemma {:induction false} WholeBytes(data: seq<byte>, p: nat, k: nat)
    requires data != []
    ensures Value(data, 8 * p, 8) == data[p % |data|]
    ensures Value(data, 8 * p, 8 * k + 8) == 0x100 * Value(data, 8 * p, 8 * k) + data[(p + k) % |data|]
  {
    hide Value;
    SmallPowers();
    FieldIsValue(data, p, 0, 8);
    FieldIsValue(data, p + k, 0, 8);
    ValueConcat(data, 8 * p, 8 * k, 8);
  }

  lemma BitOfByte(data: seq<byte>, p: nat, j: nat)
    requires data != [] && j < 8
    ensures Bit(data, 8 * p + j) == data[p % |data|] / Pow2(7 - j) % 2
  {
    hide Pow2;
    assert (8 * p + j) / 8 == p && (8 * p + j) % 8 == j;
  }

  // ----- Gathering fields

  /** The bitwise or of two unsigned numbers. */
  function BitOr(a: nat, b: nat): nat
    decreases a + b
  {
    if a == 0 then b
    else if b == 0 then a
    else 2 * BitOr(a / 2, b / 2) + if a % 2 == 1 || b % 2 == 1 then 1 else 0
  }

  /** A number with k low zero bits is joined with a number of k bits by adding. */
  lemma {:induction false} DisjointOr(m: nat, b: nat, k: nat)
    requires b < Pow2(k)
    ensures BitOr(m * Pow2(k), b) == m * Pow2(k) + b
    decreases k
  {
    if k == 0 {
    } else {
      DoubledProduct(m, Pow2(k - 1));
      assert m * Pow2(k) == 2 * (m * Pow2(k - 1));
      DisjointOr(m, b / 2, k - 1);
    }
  }

  /** A cursor that goes round is the position modulo the bits of the buffer. */
  lemma WrapCursor(c: nat, n: nat)
    requires n > 0
    ensures 8 * (c / 8 % n) + c % 8 == c % (8 * n)
  {
    var q := c / 8;
    var laps, p := q / n, q % n;
    assert q == n * laps + p;
    assert 8 * (n * laps) == (8 * n) * laps;
    Division(c, 8 * n, laps, 8 * p + c % 8);
  }

  /** Where the cursor is `k` bits on, within the byte or at the start of the next. */
  lemma CursorMoves(c: nat, k: nat, n: nat)
    requires n > 0 && c % 8 + k <= 8
    ensures c % 8 + k < 8 ==> (c + k) / 8 == c / 8 && (c + k) % 8 == c % 8 + k
    ensures c % 8 + k == 8 ==> (c + k) / 8 % n == (c / 8 % n + 1) % n && (c + k) % 8 == 0
  {
    if c % 8 + k == 8 {
      var q := c / 8;
      assert (c + k) / 8 == q + 1;
      NextModulo(q, n);
    }
  }

  lemma NextModulo(q: nat, n: nat)
    requires n > 0
    ensures (q + 1) % n == (q % n + 1) % n
  {
    var laps, p := q / n, q % n;
    assert q == n * laps + p;
    if p + 1 == n {
      assert n * laps + n == n * (laps + 1);
      Division(q + 1, n, laps + 1, 0);
      Division(n, n, 1, 0);
    } else {
      Division(q + 1, n, laps, p + 1);
      Division(p + 1, n, 0, p + 1);
    }
  }

  /** Or-ing a field into its place extends the number read so far. */
  lemma Gathered(data: seq<byte>, at: nat, done: nat, k: nat, shift: nat, f: nat)
    requires data != [] && f == Value(data, at + done, k)
    ensures BitOr(Value(data, at, done) * Pow2(k + shift), f * Pow2(shift)) ==
            Value(data, at, done + k) * Pow2(shift)
  {
    hide Value, BitOr, Pow2;
    var v, p, s := Value(data, at, done), Pow2(k), Pow2(shift);
    Pow2Adds(k, shift);
    ValueConcat(data, at, done, k);
    Scaled(f, p, s);
    DisjointOr(v, f * s, k + shift);
    Factored(v, p, s, f);
  }

  lemma Scaled(f: nat, p: nat, s: nat)
    requires f < p && s > 0
    ensures f * s < p * s
  {
  }

  lemma Factored(v: int, p: int, s: int, f: int)
    ensures v * (p * s) + f * s == (v * p + f) * s
  {
  }

  lemma StartCursor(ptr: nat, usedBits: nat, n: nat)
    requires ptr < n && usedBits < 8
    ensures (8 * ptr + usedBits) / 8 % n == ptr && (8 * ptr + usedBits) % 8 == usedBits
  {
    Division(ptr, n, 0, ptr);
  }

  lemma OneBit(data: seq<byte>, ptr: nat, usedBits: nat)
    requires ptr < |data| && usedBits < 8
    ensures Value(data, 8 * ptr + usedBits, 1) == data[ptr] / Pow2(7 - usedBits) % 2
  {
    hide Pow2;
    StartCursor(ptr, usedBits, |data|);
    assert Value(data, 8 * ptr + usedBits, 1) == 2 * Value(data, 8 * ptr + usedBits, 0) + Bit(data, 8 * ptr + usedBits);
  }

  lemma NoBits(data: seq<byte>, at: nat, n: nat)
    requires data != []
    ensures Value(data, at, 0) * Pow2(n) == 0
  {
  }

  class BitsReader {
    const data: seq<byte>
    var ptr: nat
    var usedBits: nat

    ghost predicate Valid()
      reads this
    {
      ptr < |data| && usedBits < 8
    }

    /** How many bits the cursor is from the start of the buffer. */
    ghost function Cursor(): nat
      reads this
    {
      8 * ptr + usedBits
    }

    constructor (data: seq<byte>)
      requires data != []
      ensures Valid() && this.data == data && Cursor() == 0
    {
      this.data := data;
      ptr, usedBits := 0, 0;
    }

    method AdvanceToNextByte()
      requires ptr < |data|
      modifies this
      ensures Valid() && usedBits == 0 && ptr == (old(ptr) + 1) % |data|
    {
      ptr := ptr + 1;
      if ptr == |data| {
        ptr := 0;
      }
      usedBits := 0;
    }

    /** Discards what is left of a byte that has been begun. */
    method Align()
      requires Valid()
      modifies this
      ensures Valid() && usedBits == 0
      ensures ptr == if old(usedBits) == 0 then old(ptr) else (old(ptr) + 1) % |data|
    {
      if usedBits != 0 {
        AdvanceToNextByte();
      }
    }

    method ReadBit() returns (ret: bool)
      requires Valid()
      modifies this
      ensures Valid() && ret == (Value(data, old(Cursor()), 1) == 1)
      ensures Cursor() == (old(Cursor()) + 1) % (8 * |data|)
    {
      hide Value, Pow2;
      ghost var at := Cursor();
      OneBit(data, ptr, usedBits);
      StartCursor(ptr, usedBits, |data|);
      CursorMoves(at, 1, |data|);
      ret := data[ptr] / Pow2(7 - usedBits) % 2 != 0;
      usedBits := usedBits + 1;
      if usedBits == 8 {
        AdvanceToNextByte();
      }
      WrapCursor(at + 1, |data|);
    }

    /** Puts the `k` bits behind the cursor `shift` places above the end of the number. */
    method Gather(value: nat, k: nat, shift: nat, ghost at: nat, ghost done: nat) returns (r: nat)
      requires Valid() && usedBits + k <= 8
      requires (at + done) / 8 % |data| == ptr && (at + done) % 8 == usedBits
      requires value == Value(data, at, done) * Pow2(k + shift)
      ensures r == Value(data, at, done + k) * Pow2(shift)
    {
      hide Value, BitOr, Pow2;
      FieldIsValue(data, (at + done) / 8, usedBits, k);
      Gathered(data, at, done, k, shift, Field(data[ptr], usedBits, k));
      r := BitOr(value, Field(data[ptr], usedBits, k) * Pow2(shift));
    }

    /** The next bits of the buffer, most significant first, across byte boundaries and around
        the end of the buffer. */
    method ReadUint(bitcount: nat) returns (value: nat)
      requires Valid() && bitcount <= 32
      modifies this
      ensures Valid() && value == Value(data, old(Cursor()), bitcount)
      ensures Cursor() == (old(Cursor()) + bitcount) % (8 * |data|)
    {
      hide Value, Field, BitOr, Pow2;
      ghost var at, done: nat := Cursor(), 0;
      value := 0;
      var bitsNeeded: nat := bitcount;
      NoBits(data, at, bitcount);
      StartCursor(ptr, usedBits, |data|);
      while true
        invariant Valid() && done + bitsNeeded == bitcount
        invariant value == Value(data, at, done) * Pow2(bitsNeeded)
        invariant (at + done) / 8 % |data| == ptr && (at + done) % 8 == usedBits
        decreases bitsNeeded
      {
        var unusedBits := 8 - usedBits;
        CursorMoves(at + done, Min(bitsNeeded, unusedBits), |data|);
        if bitsNeeded == unusedBits {
          value := Gather(value, unusedBits, 0, at, done);
          AdvanceToNextByte();
          done := done + unusedBits;
          break;
        } else if bitsNeeded > unusedBits {
          bitsNeeded := bitsNeeded - unusedBits;
          value := Gather(value, unusedBits, bitsNeeded, at, done);
          AdvanceToNextByte();
          done := done + unusedBits;
        } else {
          value := Gather(value, bitsNeeded, 0, at, done);
          usedBits := usedBits + bitsNeeded;
          done := done + bitsNeeded;
          break;
        }
      }
      assert Pow2(0) == 1 by { PowerOfOne(); }
      WrapCursor(at + bitcount, |data|);
    }

    /** The same bits as a two's-complement number: the number of that width that is congruent to
        the unsigned one. At the full width the sign bit must be clear, since the code cannot shift
        the sign any further. */
    method ReadSint(bitcount: nat) returns (value: int)
      requires Valid() && 1 <= bitcount <= 32
      requires bitcount == 32 ==> Value(data, Cursor(), 32) < Pow2(31)
      modifies this
      ensures Valid()
      ensures IsTwosComplement(value, Value(data, old(Cursor()), bitcount), bitcount)
      ensures Cursor() == (old(Cursor()) + bitcount) % (8 * |data|)
    {
      value := ReadUint(bitcount);
      SignBit(value, bitcount);
      if value / Pow2(bitcount - 1) % 2 != 0 {
        value := value - Pow2(bitcount);
      }
    }
  }

  /** `v` is the number between -2^(n-1) and 2^(n-1) - 1 that is equal to `u` modulo 2^n. */
  predicate IsTwosComplement(v: int, u: nat, n: nat)
    requires n > 0
  {
    0 <= v + Pow2(n - 1) && v < Pow2(n - 1) && (v == u || v == u - Pow2(n))
  }

  lemma SignBit(u: nat, n: nat)
    requires n > 0 && u < Pow2(n)
    ensures u / Pow2(n - 1) % 2 == if u < Pow2(n - 1) then 0 else 1
  {
    var p: int := Pow2(n - 1);
    if u < p {
      Division(u, p, 0, u);
    } else {
      Division(u, p, 1, u - p);
    }
  }

  /** There is only one such number, so the read yields what the encoding means. */
  lemma TwosComplementUnique(v: int, w: int, u: nat, n: nat)
    requires n > 0 && IsTwosComplement(v, u, n) && IsTwosComplement(w, u, n)
    ensures v == w
  {
    assert Pow2(n) == 2 * Pow2(n - 1);
  }

  lemma {:induction false} ValueAround(data: seq<byte>, at: nat, n: nat)
    requires data != []
    ensures Value(data, at % (8 * |data|), n) == Value(data, at, n)
    decreases at
  {
    hide Value;
    var size := 8 * |data|;
    if at < size {
      Division(at, size, 0, at);
    } else {
      ValueAround(data, at - size, n);
      ValuePeriodic(data, at - size, n);
      NextLap(at - size, size);
    }
  }

  lemma NextLap(at: nat, size: nat)
    requires size > 0
    ensures (at + size) % size == at % size
  {
    var laps := at / size;
    assert at == size * laps + at % size;
    Distribute(size, laps, 1);
    Division(at + size, size, laps + 1, at % size);
  }

  /** Two reads in a row yield what one read of both widths yields, also around the end. */
  lemma ReadsCompose(data: seq<byte>, at: nat, a: nat, b: nat)
    requires data != []
    ensures Value(data, at, a) * Pow2(b) + Value(data, (at + a) % (8 * |data|), b) == Value(data, at, a + b)
  {
    ValueAround(data, at + a, b);
    ValueConcat(data, at, a, b);
  }
}
