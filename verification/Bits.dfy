/**
 Machine integers as mathematical ones: bytes, powers of two, and the shift and
 bitwise-or instructions with their wrap-around written out.
 */
module Bits {
  import opened Arithmetic
  import Seqs

  type byte = x: int | 0 <= x < 256

  const TWO_32: nat := 0x1_0000_0000
  const TWO_64: nat := 0x1_0000_0000_0000_0000

  type u32 = x: int | 0 <= x < TWO_32
  type u64 = x: int | 0 <= x < TWO_64

  function Pow2(n: nat): (p: nat)
    ensures p >= 1
  {
    if n == 0 then 1 else 2 * Pow2(n - 1)
  }

  lemma {:induction false} Pow2Add(m: nat, n: nat)
    ensures Pow2(m + n) == Pow2(m) * Pow2(n)
  {
    if m == 0 {
    } else {
      Pow2Add(m - 1, n);
      assert Pow2(m + n) == 2 * Pow2(m - 1 + n);
    }
  }

  lemma {:induction false} Pow2Monotone(m: nat, n: nat)
    requires m <= n
    ensures Pow2(m) <= Pow2(n)
  {
    if m == n {
    } else {
      Pow2Monotone(m, n - 1);
    }
  }

  lemma Pow2Small()
    ensures Pow2(4) == 16 && Pow2(7) == 128 && Pow2(8) == 256
  {
  }

  lemma Pow2Of32()
    ensures Pow2(32) == TWO_32
  {
    Pow2Add(8, 8);
    assert Pow2(16) == 65536;
    Pow2Add(16, 16);
  }

  lemma Pow2Of64()
    ensures Pow2(64) == TWO_64
    ensures Pow2(63) == 0x8000_0000_0000_0000
  {
    Pow2Of32();
    Pow2Add(32, 32);
    Pow2Add(1, 63);
  }

  /** Bitwise or. */
  function Or(a: nat, b: nat): nat
  {
    if a == 0 then b
    else if b == 0 then a
    else 2 * Or(a / 2, b / 2) + (if a % 2 == 1 || b % 2 == 1 then 1 else 0)
  }

  /** Or adds when the bits of the operands do not overlap. */
  lemma {:induction false} OrDisjoint(a: nat, q: nat, k: nat)
    requires a < Pow2(k)
    ensures Or(a, q * Pow2(k)) == a + q * Pow2(k)
  {
    var b := q * Pow2(k);
    if k == 0 || a == 0 || b == 0 {
    } else {
      assert b == 2 * (q * Pow2(k - 1)) by {
        assert Pow2(k) == 2 * Pow2(k - 1);
      }
      assert b / 2 == q * Pow2(k - 1);
      OrDisjoint(a / 2, q, k - 1);
    }
  }

  /** `wrapping_shl` on a 64-bit word: the shift amount is taken modulo 64. */
  function Shl64(x: nat, s: nat): nat
  {
    (x * Pow2(s % 64)) % TWO_64
  }

  /** `wrapping_shl(4)` on a byte. */
  function Shl8By4(x: byte): byte
  {
    (x * 16) % 256
  }

  /** `wrapping_shr` on a word of `width` bits: the shift amount is taken modulo the width. */
  function ShrWrapping(x: nat, s: nat, width: nat): nat
    requires width > 0
  {
    Quotient(x, Pow2(s % width))
  }

  /** A shift by the whole width wraps to no shift at all. */
  lemma ShrUpToWidth(x: nat, s: nat, width: nat)
    requires s <= width && width > 0
    ensures ShrWrapping(x, s, width) == Quotient(x, Pow2(if s == width then 0 else s))
  {
    assert s < width ==> s % width == s;
    assert width % width == 0;
  }

  function Quotient(v: nat, d: nat): nat
    requires d > 0
  {
    DivNonNegative(v, d);
    v / d
  }

  lemma DivNonNegative(x: nat, d: nat)
    requires d > 0
    ensures 0 <= x / d
  {
  }

  /** Shifting a nibble into a byte: the old low nibble moves up and the old high nibble is lost. */
  lemma NibbleIn(x: byte, d: nat)
    requires d < 16
    ensures Or(Shl8By4(x), d) == (x % 16) * 16 + d
  {
    assert (x * 16) % 256 == (x % 16) * 16;
    Pow2Small();
    OrDisjoint(d, x % 16, 4);
    OrCommutes(d, (x % 16) * 16);
  }

  lemma {:induction false} OrCommutes(a: nat, b: nat)
    ensures Or(a, b) == Or(b, a)
  {
    if a == 0 || b == 0 {
    } else {
      OrCommutes(a / 2, b / 2);
    }
  }

  lemma {:induction false} OrAtLeast(a: nat, b: nat)
    ensures Or(a, b) >= a
  {
    if a == 0 || b == 0 {
    } else {
      OrAtLeast(a / 2, b / 2);
    }
  }

  function Bit(x: nat, k: nat): nat {
    Quotient(x, Pow2(k)) % 2
  }

  lemma BitOfHalf(x: nat, k: nat)
    requires k > 0
    ensures Bit(x, k) == Bit(x / 2, k - 1)
  {
    DivideTwice(x, 2, Pow2(k - 1));
  }

  /** A bit of `Or` is set if it is set on either side. */
  lemma {:induction false} OrBit(a: nat, b: nat, k: nat)
    ensures Bit(Or(a, b), k) == if Bit(a, k) == 1 || Bit(b, k) == 1 then 1 else 0
    decreases k
  {
    if a == 0 || b == 0 {
      ZeroBit(k);
    } else if k == 0 {
    } else {
      OrBit(a / 2, b / 2, k - 1);
      BitOfHalf(a, k);
      BitOfHalf(b, k);
      BitOfHalf(Or(a, b), k);
      assert Or(a, b) / 2 == Or(a / 2, b / 2);
    }
  }

  lemma ZeroBit(k: nat)
    ensures Bit(0, k) == 0
  {
    DivisionUnique(0, Pow2(k), 0, 0);
  }

  /** A shift by 64 places more is the same. */
  lemma ShiftWraps(x: nat, s: nat)
    ensures Shl64(x, s + 64) == Shl64(x, s)
  {
    assert (s + 64) % 64 == s % 64;
  }

  /** A shift by one place more doubles modulo 2^64. */
  lemma ShiftDoubles(x: nat, s: nat)
    requires s < 63
    ensures Shl64(x, s + 1) == (2 * Shl64(x, s)) % TWO_64
  {
    var p := Pow2(s);
    DoubleProduct(x, p);
    DoubleModTwo64(x * p);
    assert s % 64 == s && (s + 1) % 64 == s + 1;
    assert Pow2(s + 1) == 2 * p;
  }

  lemma DoubleProduct(x: nat, p: nat)
    ensures x * (2 * p) == 2 * (x * p)
  {
  }

  lemma DoubleModTwo64(y: nat)
    ensures (2 * y) % TWO_64 == (2 * (y % TWO_64)) % TWO_64
  {
    var q, r := y / TWO_64, y % TWO_64;
    if 2 * r < TWO_64 {
      ModTwo64(2 * y, 2 * q, 2 * r);
      Small64(2 * r);
    } else {
      ModTwo64(2 * y, 2 * q + 1, 2 * r - TWO_64);
      ModTwo64(2 * r, 1, 2 * r - TWO_64);
    }
  }

  lemma Small64(x: int)
    requires 0 <= x < TWO_64
    ensures x % TWO_64 == x
  {
  }

  /** A remainder modulo 2^64, found by naming the quotient. */
  lemma ModTwo64(x: int, q: int, r: int)
    requires x == q * TWO_64 + r && 0 <= r < TWO_64
    ensures x % TWO_64 == r
  {
  }

  lemma {:induction false} OrBound(a: nat, b: nat, k: nat)
    requires a < Pow2(k) && b < Pow2(k)
    ensures Or(a, b) < Pow2(k)
  {
    if a == 0 || b == 0 {
    } else {
      OrBound(a / 2, b / 2, k - 1);
    }
  }

  /** The number that bytes stand for, most significant first. */
  function BigEndian(b: seq<byte>): nat {
    if b == [] then 0 else BigEndian(b[..|b| - 1]) * 256 + b[|b| - 1]
  }

  lemma BigEndianSnoc(b: seq<byte>, c: byte)
    ensures BigEndian(b + [c]) == BigEndian(b) * 256 + c
  {
    Seqs.Snoc(b, c);
  }
}
