/** Bitwise exclusive or on non-negative integers, defined bit by bit, and the
    facts about it that `Entity::to_bits` needs: XOR with zero keeps a field,
    XOR with all ones complements it, and XOR acts on the high and the low
    part of a word separately. */
module Bits {

  function Pow2(n: nat): (r: nat)
    ensures r >= 1
  {
    if n == 0 then 1 else 2 * Pow2(n - 1)
  }

  /** The width of a `u32` field. */
  lemma Pow2Of32()
    ensures Pow2(32) == 0x1_0000_0000
  {
    assert Pow2(8) == 0x100;
    assert Pow2(16) == 0x1_0000;
    assert Pow2(24) == 0x100_0000;
  }

  /** The low `n` bits of `a ^ b`. */
  function Xor(a: int, b: int, n: nat): (r: nat)
    decreases n
  {
    if n == 0 then 0
    else 2 * Xor(a / 2, b / 2, n - 1) + (if a % 2 == b % 2 then 0 else 1)
  }

  /** A positive multiple of `d` is at least `d`. */
  lemma {:induction false} MultipleAtLeast(k: int, d: int)
    requires k >= 1 && d > 0
    ensures k * d >= d
  {
    if k > 1 {
      MultipleAtLeast(k - 1, d);
      assert k * d == (k - 1) * d + d;
    }
  }

  lemma DoubleProduct(x: int, y: int)
    ensures 2 * (x * y) == x * (2 * y)
  {
  }

  /** Division with remainder has exactly one answer. */
  lemma DivModUnique(a: int, d: int, q: int, r: int)
    requires d > 0 && 0 <= r < d && a == q * d + r
    ensures a / d == q && a % d == r
  {
    var q0, r0 := a / d, a % d;
    assert a == q0 * d + r0 && 0 <= r0 < d;
    assert (q - q0) * d == r0 - r;
    if q > q0 {
      MultipleAtLeast(q - q0, d);
    } else if q < q0 {
      MultipleAtLeast(q0 - q, d);
    }
  }

  /** Dropping the lowest bit and then `m` more bits is dropping `m + 1` bits;
      what is kept of the low `m + 1` bits after dropping the lowest is the low
      `m` bits of the rest. */
  lemma HalveThenSplit(a: int, m: nat)
    ensures a / 2 / Pow2(m) == a / Pow2(m + 1)
    ensures (a / 2) % Pow2(m) == (a % Pow2(m + 1)) / 2
    ensures (a % Pow2(m + 1)) % 2 == a % 2
  {
    var p := Pow2(m);
    var q, r := a / (2 * p), a % (2 * p);
    assert a == q * (2 * p) + r;
    assert a / 2 == q * p + r / 2;
    DivModUnique(a / 2, p, q, r / 2);
  }

  /** XOR with zero leaves a value of `n` bits unchanged. */
  lemma {:induction false} XorZero(a: int, n: nat)
    requires 0 <= a < Pow2(n)
    ensures Xor(a, 0, n) == a
  {
    if n > 0 {
      XorZero(a / 2, n - 1);
    }
  }

  /** XOR with `n` ones complements a value of `n` bits. */
  lemma {:induction false} XorOnes(a: int, n: nat)
    requires 0 <= a < Pow2(n)
    ensures Xor(a, Pow2(n) - 1, n) == Pow2(n) - 1 - a
  {
    if n > 0 {
      var half := Pow2(n - 1);
      assert Pow2(n) == 2 * half;
      assert (Pow2(n) - 1) / 2 == half - 1 && (Pow2(n) - 1) % 2 == 1;
      XorOnes(a / 2, n - 1);
      assert Xor(a / 2, half - 1, n - 1) == half - 1 - a / 2;
    }
  }

  /** XOR over `m + n` bits is XOR of the high `n` bits beside XOR of the low
      `m` bits. */
  lemma {:induction false} XorSplit(a: int, b: int, m: nat, n: nat)
    decreases m
    ensures Xor(a, b, m + n)
         == Xor(a / Pow2(m), b / Pow2(m), n) * Pow2(m) + Xor(a % Pow2(m), b % Pow2(m), m)
  {
    if m > 0 {
      var p := Pow2(m);
      var high := Xor(a / p, b / p, n);
      var bit := if a % 2 == b % 2 then 0 else 1;
      var rest := Xor((a % p) / 2, (b % p) / 2, m - 1);
      XorSplit(a / 2, b / 2, m - 1, n);
      HalveThenSplit(a, m - 1);
      HalveThenSplit(b, m - 1);
      assert Xor(a / 2, b / 2, m - 1 + n) == high * Pow2(m - 1) + rest;
      assert Xor(a, b, m + n) == 2 * (high * Pow2(m - 1) + rest) + bit;
      assert Xor(a % p, b % p, m) == 2 * rest + bit;
      var half := Pow2(m - 1);
      assert p == 2 * half;
      DoubleProduct(high, half);
    }
  }

  // The same facts at the widths of `Entity`: 32-bit halves of a 64-bit word.

  lemma XorZero32(a: int)
    requires 0 <= a < 0x1_0000_0000
    ensures Xor(a, 0, 32) == a
  {
    Pow2Of32();
    XorZero(a, 32);
  }

  lemma XorOnes32(a: int)
    requires 0 <= a < 0x1_0000_0000
    ensures Xor(a, 0xFFFF_FFFF, 32) == 0xFFFF_FFFF - a
  {
    Pow2Of32();
    XorOnes(a, 32);
  }

  lemma XorSplit32(a: int, b: int)
    ensures Xor(a, b, 64)
         == Xor(a / 0x1_0000_0000, b / 0x1_0000_0000, 32) * 0x1_0000_0000
          + Xor(a % 0x1_0000_0000, b % 0x1_0000_0000, 32)
  {
    Pow2Of32();
    XorSplit(a, b, 32, 32);
  }

  /** XOR over 64 bits with a mask whose high half is all ones and whose low
      half is zero complements the high half and keeps the low half. */
  lemma XorComplementsHigh(raw: int, mask: int)
    requires 0 <= raw < 0x1_0000_0000_0000_0000
    requires mask / 0x1_0000_0000 == 0xFFFF_FFFF && mask % 0x1_0000_0000 == 0
    ensures Xor(raw, mask, 64)
         == (0xFFFF_FFFF - raw / 0x1_0000_0000) * 0x1_0000_0000 + raw % 0x1_0000_0000
  {
    XorSplit32(raw, mask);
    XorOnes32(raw / 0x1_0000_0000);
    XorZero32(raw % 0x1_0000_0000);
  }
}
