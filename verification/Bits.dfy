// Bits of natural numbers, and payloads read as one little-endian or
// big-endian integer.
module Bits {
  import opened Arith
  import opened BusTypes

  function Pow2(n: nat): (p: nat)
    ensures p > 0
  {
    if n == 0 then 1 else 2 * Pow2(n - 1)
  }

  /** `n >> i`. */
  function Shr(n: nat, i: nat): nat {
    DivNonNegative(n, Pow2(i));
    n / Pow2(i)
  }

  lemma DivNonNegative(n: nat, d: nat)
    requires d > 0
    ensures n / d >= 0
  {
  }

  function Bit(n: nat, i: nat): (b: nat)
    ensures b < 2
  {
    Shr(n, i) % 2
  }

  /** `len` bits of `n` from bit `low` up, as a number. */
  function Field(n: nat, low: nat, len: nat): nat {
    Shr(n, low) % Pow2(len)
  }

  function LittleEndian(b: seq<byte>): nat {
    if b == [] then 0 else b[0] + 256 * LittleEndian(b[1..])
  }

  function BigEndian(b: seq<byte>): nat {
    if b == [] then 0 else 256 * BigEndian(b[..|b| - 1]) + b[|b| - 1]
  }

  lemma {:induction false} Pow2Adds(a: nat, b: nat)
    ensures Pow2(a + b) == Pow2(a) * Pow2(b)
    decreases a
  {
    if a > 0 {
      Pow2Adds(a - 1, b);
      MulAssoc(2, Pow2(a - 1), Pow2(b));
    }
  }

  lemma DivDiv(n: nat, a: nat, b: nat)
    requires a > 0 && b > 0
    ensures a * b > 0 && n / (a * b) == n / a / b
  {
    var q, r := n / a / b, n / a % b;
    assert n == a * (b * q + r) + n % a;
    assert a * (b * q + r) == (a * b) * q + a * r;
    assert 0 <= a * r <= a * (b - 1);
    assert a * (b - 1) == a * b - a;
    DivModUnique(a * b, n, q, a * r + n % a);
  }

  lemma Shift(n: nat, a: nat, b: nat)
    ensures Shr(n, a + b) == Shr(Shr(n, a), b)
  {
    Pow2Adds(a, b);
    DivDiv(n, Pow2(a), Pow2(b));
  }

  lemma ShiftBit(n: nat, a: nat, b: nat)
    ensures Bit(Shr(n, a), b) == Bit(n, a + b)
  {
    Shift(n, a, b);
  }

  lemma Zero(n: nat, i: nat)
    requires n < Pow2(i)
    ensures Shr(n, i) == 0
  {
    DivModUnique(Pow2(i), n, 0, n);
  }

  lemma {:induction false} Pow2Monotone(a: nat, b: nat)
    requires a <= b
    ensures Pow2(a) <= Pow2(b)
    decreases b
  {
    if a < b { Pow2Monotone(a, b - 1); }
  }

  /** Growing a field upwards by its next bit. */
  lemma FieldGrowsUp(n: nat, low: nat, len: nat)
    ensures Field(n, low, len + 1) == Field(n, low, len) + Bit(n, low + len) * Pow2(len)
  {
    var m, p := Shr(n, low), Pow2(len);
    ShiftBit(n, low, len);
    var q := m / p;
    assert m == p * q + m % p;
    assert q == 2 * (q / 2) + q % 2;
    assert p * q == (2 * p) * (q / 2) + p * (q % 2);
    DivModUnique(2 * p, m, q / 2, p * (q % 2) + m % p);
    assert p * (q % 2) == (q % 2) * p;
  }

  /** Growing a field downwards by the bit below it. */
  lemma FieldGrowsDown(n: nat, low: nat, len: nat)
    requires low > 0
    ensures Field(n, low - 1, len + 1) == 2 * Field(n, low, len) + Bit(n, low - 1)
  {
    var m, p := Shr(n, low - 1), Pow2(len);
    Shift(n, low - 1, 1);
    assert Pow2(1) == 2;
    var h := m / 2;
    assert h == Shr(n, low) && m == 2 * h + m % 2;
    assert h == p * (h / p) + h % p;
    assert m == (2 * p) * (h / p) + (2 * (h % p) + m % 2);
    DivModUnique(2 * p, m, h / p, 2 * (h % p) + m % 2);
  }

  ghost predicate SameBits(a: nat, b: nat, low: nat, len: nat) {
    forall i | low <= i < low + len :: Bit(a, i) == Bit(b, i)
  }

  lemma {:induction false} FieldIsItsBits(a: nat, b: nat, low: nat, len: nat)
    requires SameBits(a, b, low, len)
    ensures Field(a, low, len) == Field(b, low, len)
    decreases len
  {
    if len > 0 {
      FieldIsItsBits(a, b, low, len - 1);
      FieldGrowsUp(a, low, len - 1);
      FieldGrowsUp(b, low, len - 1);
    }
  }

  lemma FieldBelow(n: nat, low: nat, len: nat, more: nat)
    requires n < Pow2(low + len)
    ensures Field(n, low, len + more) == Field(n, low, len) == Shr(n, low)
  {
    Shift(n, low, len);
    Zero(n, low + len);
    var m := Shr(n, low);
    DivBounds(Pow2(len), m);
    assert m < Pow2(len);
    Pow2Monotone(len, len + more);
    DivModUnique(Pow2(len), m, 0, m);
    DivModUnique(Pow2(len + more), m, 0, m);
  }

  // ----- bytes -----

  lemma EightBits()
    ensures Pow2(8) == 256 && Pow2(3) == 8 && Pow2(4) == 16
  {
  }

  lemma LowByteBit(hi: nat, lo: byte, j: nat)
    requires j < 8
    ensures Bit(256 * hi + lo, j) == Bit(lo, j)
  {
    var p, r := Pow2(j), Pow2(7 - j);
    EightBits();
    Pow2Adds(j, 8 - j);
    MulAssoc(p, 2 * r, hi);
    MulDistributes(p, 2 * r * hi, lo / p);
    DivNonNegative(lo, p);
    DivModUnique(p, 256 * hi + lo, 2 * r * hi + lo / p, lo % p);
    MulAssoc(2, r, hi);
    ModOfShift(2, r * hi, lo / p);
  }

  lemma HighByteBit(hi: nat, lo: byte, j: nat)
    requires j >= 8
    ensures Bit(256 * hi + lo, j) == Bit(hi, j - 8)
  {
    EightBits();
    Shift(256 * hi + lo, 8, j - 8);
    DivModUnique(256, 256 * hi + lo, hi, lo);
  }

  /** The low eight bits of `256 * hi + lo` are those of `lo`, the rest `hi`. */
  lemma ByteBit(hi: nat, lo: byte, j: nat)
    ensures Bit(256 * hi + lo, j) == if j < 8 then Bit(lo, j) else Bit(hi, j - 8)
  {
    if j < 8 { LowByteBit(hi, lo, j); } else { HighByteBit(hi, lo, j); }
  }

  lemma BytePosition(j: nat)
    ensures j < 8 ==> j / 8 == 0 && j % 8 == j
    ensures j >= 8 ==> (j - 8) / 8 == j / 8 - 1 && (j - 8) % 8 == j % 8
  {
  }

  lemma {:induction false} LittleEndianBit(b: seq<byte>, j: nat)
    requires j < 8 * |b|
    ensures Bit(LittleEndian(b), j) == Bit(b[j / 8], j % 8)
    decreases |b|
  {
    ByteBit(LittleEndian(b[1..]), b[0], j);
    BytePosition(j);
    if j >= 8 {
      LittleEndianBit(b[1..], j - 8);
    }
  }

  lemma {:induction false} BigEndianBit(b: seq<byte>, j: nat)
    requires j < 8 * |b|
    ensures Bit(BigEndian(b), j) == Bit(b[|b| - 1 - j / 8], j % 8)
    decreases |b|
  {
    ByteBit(BigEndian(b[..|b| - 1]), b[|b| - 1], j);
    BytePosition(j);
    if j >= 8 {
      BigEndianBit(b[..|b| - 1], j - 8);
    }
  }

  lemma {:induction false} LittleEndianBound(b: seq<byte>)
    ensures LittleEndian(b) < Pow2(8 * |b|)
    decreases |b|
  {
    if b != [] {
      LittleEndianBound(b[1..]);
      EightBits();
      Pow2Adds(8, 8 * (|b| - 1));
    }
  }

  lemma {:induction false} BigEndianBound(b: seq<byte>)
    ensures BigEndian(b) < Pow2(8 * |b|)
    decreases |b|
  {
    if b != [] {
      BigEndianBound(b[..|b| - 1]);
      EightBits();
      Pow2Adds(8, 8 * (|b| - 1));
    }
  }

  lemma {:induction false} LittleEndianPadding(b: seq<byte>, z: nat)
    ensures LittleEndian(b + Zeros(z)) == LittleEndian(b)
    decreases |b| + z
  {
    var all := b + Zeros(z);
    if b != [] {
      assert all[1..] == b[1..] + Zeros(z);
      LittleEndianPadding(b[1..], z);
    } else if z > 0 {
      assert all[1..] == [] + Zeros(z - 1);
      LittleEndianPadding([], z - 1);
    }
  }

  lemma {:induction false} BigEndianPadding(b: seq<byte>, z: nat)
    ensures BigEndian(b + Zeros(z)) == BigEndian(b) * Pow2(8 * z)
    decreases z
  {
    var all := b + Zeros(z);
    if z > 0 {
      assert all[..|all| - 1] == b + Zeros(z - 1);
      BigEndianPadding(b, z - 1);
      EightBits();
      Pow2Adds(8, 8 * (z - 1));
      MulAssoc(256, BigEndian(b), Pow2(8 * (z - 1)));
      MulAssoc(BigEndian(b), 256, Pow2(8 * (z - 1)));
    } else {
      assert all == b;
    }
  }
}
