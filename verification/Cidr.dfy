/** Addresses as bit strings, and the prefix comparison of `InetAddress::is_within`. */
module Cidr {
  import opened Arithmetic
  import opened Bits
  import Seqs

  type bit = x: int | 0 <= x < 2

  /** The `n` lowest bits of `v`, most significant first. */
  function BitsOf(v: nat, n: nat): (r: seq<bit>)
    ensures |r| == n
  {
    if n == 0 then [] else BitsOf(v / 2, n - 1) + [v % 2]
  }

  /** The bits of an address in the order in which they are sent. */
  function AddressBits(ip: seq<byte>): (r: seq<bit>)
    ensures |r| == 8 * |ip|
  {
    if ip == [] then [] else AddressBits(ip[..|ip| - 1]) + BitsOf(ip[|ip| - 1], 8)
  }

  // ---------------------------------------------------------------------------------
  // Bits, shifts and numbers
  // ---------------------------------------------------------------------------------

  /** Dropping low bits is shifting right. */
  lemma {:induction false} PrefixIsShift(v: nat, n: nat, k: nat)
    requires k <= n
    ensures BitsOf(v, n)[..k] == BitsOf(Quotient(v, Pow2(n - k)), k)
  {
    if k == n {
      Seqs.TakeAll(BitsOf(v, n));
      assert v / 1 == v;
    } else {
      PrefixIsShift(v / 2, n - 1, k);
      Seqs.TakeOfSum(BitsOf(v / 2, n - 1), [v % 2], k);
      DivTwice(v, Pow2(n - 1 - k));
      Seqs.Empty(BitsOf(v / 2, n - 1));
    }
  }

  lemma DivTwice(v: nat, d: nat)
    requires d > 0
    ensures Quotient(v / 2, d) == Quotient(v, 2 * d)
  {
    var q, r := v / 2 / d, v / 2 % d;
    assert v / 2 == d * q + r;
    assert v == (2 * d) * q + (2 * r + v % 2);
    DivisionUnique(v, 2 * d, q, 2 * r + v % 2);
  }

  lemma {:induction false} BitsDetermine(v: nat, w: nat, n: nat)
    requires v < Pow2(n) && w < Pow2(n)
    ensures BitsOf(v, n) == BitsOf(w, n) <==> v == w
  {
    if n == 0 {
    } else {
      BitsDetermine(v / 2, w / 2, n - 1);
      Seqs.Snoc(BitsOf(v / 2, n - 1), v % 2);
      Seqs.Snoc(BitsOf(w / 2, n - 1), w % 2);
    }
  }

  lemma {:induction false} BitsConcat(v: nat, c: nat, n: nat, m: nat)
    requires c < Pow2(m)
    ensures BitsOf(v * Pow2(m) + c, n + m) == BitsOf(v, n) + BitsOf(c, m)
  {
    if m == 0 {
      Seqs.Empty(BitsOf(v, n));
    } else {
      var x := v * Pow2(m - 1);
      assert v * Pow2(m) == 2 * x;
      BitsConcat(v, c / 2, n, m - 1);
      Seqs.Assoc(BitsOf(v, n), BitsOf(c / 2, m - 1), [c % 2]);
      assert (2 * x + c) / 2 == x + c / 2 && (2 * x + c) % 2 == c % 2;
    }
  }

  lemma OneMoreByte(v: nat, c: byte, n: nat)
    requires v < Pow2(8 * n)
    ensures v * 256 + c < Pow2(8 * (n + 1))
  {
    Pow2Small();
    Pow2Add(8 * n, 8);
    ProductMonotone(v + 1, Pow2(8 * n), 256);
  }

  lemma {:induction false} NumberBits(ip: seq<byte>)
    ensures AddressBits(ip) == BitsOf(BigEndian(ip), 8 * |ip|)
    ensures BigEndian(ip) < Pow2(8 * |ip|)
  {
    if ip == [] {
    } else {
      var n := |ip| - 1;
      NumberBits(ip[..n]);
      OneMoreByte(BigEndian(ip[..n]), ip[n], n);
      assert Pow2(8) == 256 by {
        Pow2Small();
      }
      BitsConcat(BigEndian(ip[..n]), ip[n], 8 * n, 8);
    }
  }

  lemma ShiftCompares(v: nat, w: nat, n: nat, k: nat, d: nat)
    requires v < Pow2(n) && w < Pow2(n) && k <= n && d == Pow2(n - k)
    ensures Quotient(v, d) == Quotient(w, d) <==> BitsOf(v, n)[..k] == BitsOf(w, n)[..k]
  {
    PrefixIsShift(v, n, k);
    PrefixIsShift(w, n, k);
    ShiftBound(v, n, k);
    ShiftBound(w, n, k);
    BitsDetermine(Quotient(v, d), Quotient(w, d), k);
  }

  /** A shift of the big-endian number compares a prefix of the address. */
  lemma ShiftComparesPrefix(a: seq<byte>, b: seq<byte>, k: nat, d: nat)
    requires |a| == |b| && k <= 8 * |a| && d == Pow2(8 * |a| - k)
    ensures Quotient(BigEndian(a), d) == Quotient(BigEndian(b), d) <==> AddressBits(a)[..k] == AddressBits(b)[..k]
  {
    NumberBits(a);
    NumberBits(b);
    ShiftCompares(BigEndian(a), BigEndian(b), 8 * |a|, k, d);
  }

  lemma ShiftBound(v: nat, n: nat, k: nat)
    requires k <= n && v < Pow2(n)
    ensures Quotient(v, Pow2(n - k)) < Pow2(k)
  {
    var d, q := Pow2(n - k), Quotient(v, Pow2(n - k));
    Pow2Add(n - k, k);
    assert d * q <= v;
    if q >= Pow2(k) {
      ProductMonotone(Pow2(k), q, d);
    }
  }

  // ---------------------------------------------------------------------------------
  // Whole bytes and a part of the next one
  // ---------------------------------------------------------------------------------

  lemma {:induction false} BitsOfParts(x: seq<byte>, y: seq<byte>)
    ensures AddressBits(x + y) == AddressBits(x) + AddressBits(y)
    decreases |y|
  {
    if y == [] {
      Seqs.Empty(x);
      Seqs.Empty(AddressBits(x));
    } else {
      var m, c := |y| - 1, y[|y| - 1];
      Seqs.InitLast(y);
      Seqs.Assoc(x, y[..m], [c]);
      Seqs.Snoc(x + y[..m], c);
      BitsOfParts(x, y[..m]);
      Seqs.Assoc(AddressBits(x), AddressBits(y[..m]), BitsOf(c, 8));
    }
  }

  lemma {:induction false} AddressBitsDetermine(x: seq<byte>, y: seq<byte>)
    requires |x| == |y|
    ensures AddressBits(x) == AddressBits(y) <==> x == y
  {
    if x == [] {
    } else {
      var m := |x| - 1;
      AddressBitsDetermine(x[..m], y[..m]);
      Pow2Small();
      BitsDetermine(x[m], y[m], 8);
      SameConcat(AddressBits(x[..m]), BitsOf(x[m], 8), AddressBits(y[..m]), BitsOf(y[m], 8));
      Seqs.InitLast(x);
      Seqs.InitLast(y);
    }
  }

  lemma SameConcat<T>(a: seq<T>, b: seq<T>, c: seq<T>, d: seq<T>)
    requires |a| == |c|
    ensures a + b == c + d <==> a == c && b == d
  {
    Seqs.Parts(a, b);
    Seqs.Parts(c, d);
  }

  lemma BitsOfByte(c: byte)
    ensures AddressBits([c]) == BitsOf(c, 8)
  {
    Seqs.Snoc([], c);
    Seqs.Empty([c]);
    Seqs.Empty(BitsOf(c, 8));
  }

  lemma BitsAround(a: seq<byte>, p: nat)
    requires p < |a|
    ensures AddressBits(a) == (AddressBits(a[..p]) + BitsOf(a[p], 8)) + AddressBits(a[p + 1..])
  {
    Seqs.TakeDrop(a, p + 1);
    Seqs.TakeMore(a, p);
    BitsOfParts(a[..p + 1], a[p + 1..]);
    BitsOfParts(a[..p], [a[p]]);
    BitsOfByte(a[p]);
  }

  /** The first `8 * p + r` bits are `p` bytes and the top of the next. */
  lemma PrefixOfBytes(a: seq<byte>, p: nat, r: nat)
    requires p < |a| && r <= 8
    ensures AddressBits(a)[..8 * p + r] == AddressBits(a[..p]) + BitsOf(a[p], 8)[..r]
  {
    BitsAround(a, p);
    Seqs.TakeInto(AddressBits(a[..p]), BitsOf(a[p], 8), AddressBits(a[p + 1..]), r);
  }

  /** Comparing `p` bytes, and the next byte after a shift that keeps `r` bits, compares a prefix. */
  lemma BytesComparePrefix(a: seq<byte>, b: seq<byte>, p: nat, r: nat, d: nat)
    requires |a| == |b| && p < |a| && r <= 8 && d == Pow2(8 - r)
    ensures (a[..p] == b[..p] && Quotient(a[p], d) == Quotient(b[p], d)) <==>
              AddressBits(a)[..8 * p + r] == AddressBits(b)[..8 * p + r]
  {
    PrefixOfBytes(a, p, r);
    PrefixOfBytes(b, p, r);
    AddressBitsDetermine(a[..p], b[..p]);
    Pow2Small();
    ShiftCompares(a[p], b[p], 8, r, d);
    SameConcat(AddressBits(a[..p]), BitsOf(a[p], 8)[..r], AddressBits(b[..p]), BitsOf(b[p], 8)[..r]);
  }
}
