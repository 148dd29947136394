/** The base-128 integer codec of src/varint.rs. The top bit marks the last byte. */
module Varint {
  import opened Arithmetic
  import opened Bits
  import opened Wrappers
  import Io
  import Seqs

  const VARINT_MAX_SIZE_BYTES: nat := 10

  // ---------------------------------------------------------------------------------
  // The encoding
  // ---------------------------------------------------------------------------------

  function Encoding(v: nat): seq<byte> {
    if v > 0x7f then [v % 128] + Encoding(v / 128) else [v + 128]
  }

  /** The base-128 number, least significant first, that the low seven bits of bytes spell. */
  function LowBits(b: seq<byte>): nat {
    if b == [] then 0 else b[0] % 128 + 128 * LowBits(b[1..])
  }

  /** The index of the first byte with its top bit set, or the length. */
  function Stop(b: seq<byte>): (i: nat)
    ensures i <= |b|
    ensures i < |b| ==> b[i] >= 128
    ensures forall k :: 0 <= k < i ==> b[k] < 128
  {
    if b == [] || b[0] >= 128 then 0 else 1 + Stop(b[1..])
  }

  /** What `decode` returns: the number up to the stop byte, if that is among the first ten. */
  function Decoding(b: seq<byte>): Option<(u64, nat)> {
    var i := Stop(b);
    if i < |b| && i < VARINT_MAX_SIZE_BYTES then Some((LowBits(b[..i + 1]) % TWO_64, i + 1)) else None
  }

  function Pow128(k: nat): nat {
    Pow2(7 * k)
  }

  lemma {:induction false} LowBitsSnoc(b: seq<byte>, c: byte)
    ensures LowBits(b + [c]) == LowBits(b) + (c % 128) * Pow128(|b|)
  {
    if b == [] {
      Seqs.Singleton(c);
      Seqs.Empty([c]);
    } else {
      Seqs.Tail(b, [c]);
      LowBitsSnoc(b[1..], c);
      Scale128(c % 128, |b| - 1);
    }
  }

  lemma Scale128(d: nat, k: nat)
    ensures 128 * (d * Pow128(k)) == d * Pow128(k + 1)
  {
    Pow2Add(7, 7 * k);
    assert Pow2(7) == 128;
    assert 128 * (d * Pow128(k)) == d * (128 * Pow128(k));
  }

  lemma {:induction false} LowBitsBound(b: seq<byte>)
    ensures LowBits(b) < Pow128(|b|)
  {
    if b == [] {
    } else {
      LowBitsBound(b[1..]);
      Scale128(1, |b| - 1);
    }
  }

  // ---------------------------------------------------------------------------------
  // The code
  // ---------------------------------------------------------------------------------

  lemma {:induction false} EncodingLength(v: nat, k: nat)
    requires v < Pow128(k)
    ensures |Encoding(v)| <= if k == 0 then 1 else k
  {
    if v > 0x7f {
      assert k > 0;
      Scale128(1, k - 1);
      EncodingLength(v / 128, k - 1);
    }
  }

  lemma Max64(v: u64)
    ensures v < Pow128(10)
  {
    Pow2Of64();
    Pow2Monotone(64, 70);
  }

  /**
   Writes the encoding at the front of the buffer and leaves the rest of it alone; in a
   buffer too short for the encoding it writes as far as that goes, and panics.
   */
  method Encode(b: array<byte>, value: u64) returns (r: Outcome<nat>)
    modifies b
    ensures r.Returns? <==> |Encoding(value)| <= b.Length
    ensures r.Returns? ==>
              && r.value == |Encoding(value)| <= VARINT_MAX_SIZE_BYTES
              && b[..] == Encoding(value) + old(b[..])[r.value..]
    ensures r.Panic? ==> b[..] == Encoding(value)[..b.Length]
  {
    var v: u64 := value;
    ghost var was: seq<byte>, done: seq<byte> := b[..], [];
    Max64(value);
    EncodingLength(value, 10);
    var i := 0;
    while true
      invariant i == |done| <= b.Length
      invariant done + Encoding(v) == Encoding(value)
      invariant b[..] == done + was[i..]
      decreases v
    {
      if i >= b.Length {
        CutShort(done, Encoding(v), was[i..]);
        return Panic;
      }
      if v > 0x7f {
        Seqs.Assoc(done, [v % 128], Encoding(v / 128));
        b[i] := v % 128;
        Overwrite(done, was, v % 128);
        done := done + [v % 128];
        i := i + 1;
        v := ShrWrapping(v, 7, 64);
      } else {
        OrTop(v);
        b[i] := Or(v, 0x80);
        Overwrite(done, was, v + 128);
        i := i + 1;
        break;
      }
    }
    return Returns(i);
  }

  lemma CutShort(done: seq<byte>, more: seq<byte>, rest: seq<byte>)
    requires rest == []
    ensures done + rest == (done + more)[..|done|]
  {
  }

  lemma OrTop(v: nat)
    requires v < 128
    ensures Or(v, 0x80) == v + 128
  {
    Pow2Small();
    OrDisjoint(v, 1, 7);
  }

  lemma Overwrite(done: seq<byte>, was: seq<byte>, x: byte)
    requires |done| < |was|
    ensures (done + was[|done|..])[|done| := x] == (done + [x]) + was[|done| + 1..]
  {
  }

  /** `write`: appends the encoding. */
  method Write(w: seq<byte>, v: u64) returns (w': seq<byte>)
    ensures w' == w + Encoding(v)
  {
    var b := new byte[VARINT_MAX_SIZE_BYTES](_ => 0);
    Max64(v);
    EncodingLength(v, 10);
    var r := Encode(b, v);
    var i := r.value;
    Seqs.Parts(Encoding(v), b[..][i..]);
    w' := w + b[..i];
  }

  /** The accumulator of the decoding loops after the bytes `b`. */
  function Accumulated(b: seq<byte>): nat {
    if b == [] then 0
    else var n := |b| - 1; Or(Accumulated(b[..n]), Shl64(b[n] % 128, 7 * n))
  }

  lemma AccumulatedSnoc(b: seq<byte>, c: byte)
    ensures Accumulated(b + [c]) == Or(Accumulated(b), Shl64(c % 128, 7 * |b|))
  {
    Seqs.Snoc(b, c);
  }

  /** A shift that loses nothing. */
  lemma ShiftFits(d: nat, p: nat)
    requires p < 64 && d * Pow2(p) < TWO_64
    ensures Shl64(d, p) == d * Pow2(p)
  {
    ModTwo64(d * Pow2(p), 0, d * Pow2(p));
  }

  lemma DigitBound(n: nat, d: nat)
    requires d < 128
    ensures d * Pow128(n) + Pow128(n) <= Pow128(n + 1)
  {
    Scale128(1, n);
    ProductMonotone(d + 1, 128, Pow128(n));
    assert (d + 1) * Pow128(n) == d * Pow128(n) + Pow128(n);
  }

  /** The first nine bytes fit whole. */
  lemma LowShift(n: nat, d: nat)
    requires n <= 8 && d < 128
    ensures d * Pow128(n) + Pow128(n) <= Pow2(63)
    ensures Shl64(d, 7 * n) == d * Pow128(n)
  {
    DigitBound(n, d);
    Pow2Monotone(7 * (n + 1), 63);
    Pow2Of64();
    ShiftFits(d, 7 * n);
  }

  /** The tenth byte has room for one bit. */
  lemma TopShift(d: nat)
    ensures Shl64(d, 63) == d % 2 * Pow2(63)
  {
    Pow2Of64();
    ModTwo64(d * Pow2(63), d / 2, d % 2 * Pow2(63));
  }

  /** One more digit on top of `low`. */
  lemma AddLowDigit(low: nat, d: nat, n: nat)
    requires n <= 8 && d < 128 && low < Pow128(n)
    ensures low + d * Pow128(n) < TWO_64
    ensures Or(low, Shl64(d, 7 * n)) == low + d * Pow128(n)
  {
    Pow2Of64();
    LowShift(n, d);
    OrDisjoint(low, d, 7 * n);
  }

  lemma AddTopDigit(low: nat, d: nat)
    requires d < 128 && low < Pow128(9)
    ensures Or(low, Shl64(d, 63)) == (low + d * Pow128(9)) % TWO_64
  {
    Pow2Of64();
    TopShift(d);
    OrDisjoint(low, d % 2, 63);
    ModTwo64(low + d * Pow2(63), d / 2, low + d % 2 * Pow2(63));
  }

  lemma AddDigit(low: nat, d: nat, n: nat)
    requires n <= 9 && d < 128 && low < Pow128(n)
    ensures Or(low, Shl64(d, 7 * n)) == (low + d * Pow128(n)) % TWO_64
  {
    if n == 9 {
      AddTopDigit(low, d);
    } else {
      AddLowDigit(low, d, n);
      Small64(low + d * Pow128(n));
    }
  }

  lemma NineDigitsFit(low: nat, n: nat)
    requires n <= 9 && low < Pow128(n)
    ensures low % TWO_64 == low
  {
    Pow2Monotone(7 * n, 63);
    Pow2Of64();
    Small64(low);
  }

  /** Up to ten bytes the shifting accumulator is the number, modulo 2^64. */
  lemma {:induction false} AccumulatedIsLowBits(b: seq<byte>)
    requires |b| <= VARINT_MAX_SIZE_BYTES
    ensures Accumulated(b) == LowBits(b) % TWO_64
    decreases |b|
  {
    if b == [] {
    } else {
      var n := |b| - 1;
      AccumulatedIsLowBits(b[..n]);
      Seqs.InitLast(b);
      LowBitsSnoc(b[..n], b[n]);
      LowBitsBound(b[..n]);
      AddDigit(LowBits(b[..n]), b[n] % 128, n);
      NineDigitsFit(LowBits(b[..n]), n);
    }
  }

  lemma AccumulatedIs64Bits(b: seq<byte>)
    ensures Accumulated(b) < TWO_64
  {
    if b != [] {
      var n := |b| - 1;
      AccumulatedIs64Bits(b[..n]);
      Pow2Of64();
      OrBound(Accumulated(b[..n]), Shl64(b[n] % 128, 7 * n), 64);
    }
  }

  lemma OneMoreByte(b: seq<byte>, i: nat)
    requires i < |b|
    ensures Accumulated(b[..i + 1]) == Or(Accumulated(b[..i]), Shl64(b[i] % 128, 7 * i)) < TWO_64
    ensures b[i] < 128 ==> b[i] % 128 == b[i]
  {
    Seqs.TakeMore(b, i);
    AccumulatedSnoc(b[..i], b[i]);
    AccumulatedIs64Bits(b[..i + 1]);
  }

  lemma DecodingAt(b: seq<byte>, i: nat)
    requires i < |b| && i < VARINT_MAX_SIZE_BYTES && b[i] >= 128
    requires forall k :: 0 <= k < i ==> b[k] < 128
    ensures Decoding(b) == Some((Accumulated(b[..i + 1]), i + 1))
  {
    assert Stop(b) == i;
    AccumulatedIsLowBits(b[..i + 1]);
  }

  lemma DecodingFails(b: seq<byte>, i: nat)
    requires i == |b| || i == VARINT_MAX_SIZE_BYTES <= |b|
    requires forall k :: 0 <= k < i ==> b[k] < 128
    ensures Decoding(b) == None
  {
    assert Stop(b) >= i;
  }

  method Decode(b: seq<byte>) returns (r: Option<(u64, nat)>)
    ensures r == Decoding(b)
  {
    var v: u64 := 0;
    var pos := 0;
    var i := 0;
    while i < |b| && i < VARINT_MAX_SIZE_BYTES
      invariant 0 <= i <= |b| && i <= VARINT_MAX_SIZE_BYTES
      invariant pos == 7 * i
      invariant forall k :: 0 <= k < i ==> b[k] < 128
      invariant v == Accumulated(b[..i])
    {
      var c := b[i];
      OneMoreByte(b, i);
      i := i + 1;
      if c <= 0x7f {
        v := Or(v, Shl64(c, pos));
        pos := pos + 7;
      } else {
        v := Or(v, Shl64(c % 128, pos));
        DecodingAt(b, i - 1);
        return Some((v, i));
      }
    }
    DecodingFails(b, i);
    return None;
  }

  /** One integer off the front of a stream, and the stream behind it. */
  function ReadOne(s: seq<byte>): Option<(u64, nat, seq<byte>)> {
    var i := Stop(s);
    if i == |s| then None
    else
      AccumulatedIs64Bits(s[..i + 1]);
      Some((Accumulated(s[..i + 1]), i + 1, s[i + 1..]))
  }

  lemma ReadOneAt(s: seq<byte>, i: nat)
    requires i < |s| && s[i] >= 128 && forall k :: 0 <= k < i ==> s[k] < 128
    ensures ReadOne(s) == Some((Accumulated(s[..i + 1]), i + 1, s[i + 1..]))
  {
    assert Stop(s) == i;
  }

  /** `read` has no limit of ten bytes; it fails only when the stream ends first. */
  method Read(r: Io.Reader) returns (x: Result<(u64, nat)>)
    modifies r
    ensures x.Ok? <==> ReadOne(old(r.data)).Some?
    ensures x.Ok? ==> ReadOne(old(r.data)) == Some((x.value.0, x.value.1, r.data))
  {
    ghost var s := r.data;
    var v: u64 := 0;
    var pos := 0;
    var i := 0;
    Seqs.TakeAll(s);
    while true
      invariant 0 <= i <= |s| && r.data == s[i..]
      invariant pos == 7 * i
      invariant forall k :: 0 <= k < i ==> s[k] < 128
      invariant v == Accumulated(s[..i])
      decreases |s| - i
    {
      var buf := r.ReadExact(1);
      if buf.UnexpectedEof? {
        return UnexpectedEof;
      }
      var c := buf.value[0];
      Seqs.DropMore(s, i);
      OneMoreByte(s, i);
      i := i + 1;
      if c <= 0x7f {
        v := Or(v, Shl64(c, pos));
        pos := pos + 7;
      } else {
        v := Or(v, Shl64(c % 128, pos));
        ReadOneAt(s, i - 1);
        return Ok((v, i));
      }
    }
  }

  // ---------------------------------------------------------------------------------
  // What the codec promises
  // ---------------------------------------------------------------------------------

  /** Decoding and reading agree wherever decoding succeeds: on up to ten bytes. */
  lemma ReadAgreesWithDecode(s: seq<byte>)
    ensures Decoding(s).Some? <==> ReadOne(s).Some? && ReadOne(s).value.1 <= VARINT_MAX_SIZE_BYTES
    ensures Decoding(s).Some? ==> Decoding(s).value == (ReadOne(s).value.0, ReadOne(s).value.1)
  {
    var i := Stop(s);
    if i < |s| && i < VARINT_MAX_SIZE_BYTES {
      AccumulatedIsLowBits(s[..i + 1]);
    }
  }

  /** Digits from the eleventh on are multiples of 2^64. */
  lemma HighDigit(low: nat, d: nat, n: nat)
    requires n >= 10
    ensures (low + d * Pow128(n)) % TWO_64 == low % TWO_64
  {
    var p := Pow2(7 * n - 64);
    Pow2Add(64, 7 * n - 64);
    Pow2Of64();
    assert d * Pow128(n) == (d * p) * TWO_64;
    ModTwo64(low + d * Pow128(n), low / TWO_64 + d * p, low % TWO_64);
  }

  lemma {:induction false} TenDigitsCount(b: seq<byte>)
    requires |b| >= VARINT_MAX_SIZE_BYTES
    ensures LowBits(b) % TWO_64 == LowBits(b[..VARINT_MAX_SIZE_BYTES]) % TWO_64
    decreases |b|
  {
    if |b| == VARINT_MAX_SIZE_BYTES {
      Seqs.TakeAll(b);
    } else {
      var n := |b| - 1;
      Seqs.InitLast(b);
      LowBitsSnoc(b[..n], b[n]);
      HighDigit(LowBits(b[..n]), b[n] % 128, n);
      TenDigitsCount(b[..n]);
      Seqs.TakeSlice(b, 0, n, VARINT_MAX_SIZE_BYTES);
      assert b[0..n] == b[..n];
    }
  }

  /** The bits of the bytes past the tenth, shifted to where the wrapped shift puts them, are set already. */
  ghost predicate ExtraBitsSet(b: seq<byte>) {
    forall k :: VARINT_MAX_SIZE_BYTES <= k < |b| ==>
                  Or(LowBits(b[..VARINT_MAX_SIZE_BYTES]) % TWO_64, Shl64(b[k] % 128, 7 * k))
                  == LowBits(b[..VARINT_MAX_SIZE_BYTES]) % TWO_64
  }

  lemma ExtraBitsSetSnoc(b: seq<byte>, n: nat)
    requires |b| == n + 1 && n >= VARINT_MAX_SIZE_BYTES
    ensures b[..n][..VARINT_MAX_SIZE_BYTES] == b[..VARINT_MAX_SIZE_BYTES]
    ensures var low := LowBits(b[..VARINT_MAX_SIZE_BYTES]) % TWO_64;
            ExtraBitsSet(b) <==> ExtraBitsSet(b[..n]) && Or(low, Shl64(b[n] % 128, 7 * n)) == low
  {
    var c := b[..n];
    assert c[..VARINT_MAX_SIZE_BYTES] == b[..VARINT_MAX_SIZE_BYTES];
    assert forall k :: VARINT_MAX_SIZE_BYTES <= k < n ==> c[k] == b[k];
  }

  /** The accumulator only grows, and stays what it was after ten bytes exactly if no new bit comes. */
  lemma {:induction false} AccumulatedBeyond(b: seq<byte>)
    requires |b| >= VARINT_MAX_SIZE_BYTES
    ensures Accumulated(b) >= LowBits(b[..VARINT_MAX_SIZE_BYTES]) % TWO_64
    ensures Accumulated(b) == LowBits(b[..VARINT_MAX_SIZE_BYTES]) % TWO_64 <==> ExtraBitsSet(b)
    decreases |b|
  {
    if |b| == VARINT_MAX_SIZE_BYTES {
      Seqs.TakeAll(b);
      AccumulatedIsLowBits(b);
    } else {
      var n := |b| - 1;
      ExtraBitsSetSnoc(b, n);
      AccumulatedBeyond(b[..n]);
      OrAtLeast(Accumulated(b[..n]), Shl64(b[n] % 128, 7 * n));
    }
  }

  /**
   `read` gives the base-128 number modulo 2^64, as decoding does, exactly for up to ten
   bytes or when the later bytes happen to bring no new bit.
   */
  lemma ReadValueExactly(s: seq<byte>)
    requires ReadOne(s).Some?
    ensures var (v, n) := (ReadOne(s).value.0, ReadOne(s).value.1);
            n <= |s| && (v == LowBits(s[..n]) % TWO_64 <==> n <= VARINT_MAX_SIZE_BYTES || ExtraBitsSet(s[..n]))
  {
    var n := ReadOne(s).value.1;
    if n <= VARINT_MAX_SIZE_BYTES {
      AccumulatedIsLowBits(s[..n]);
    } else {
      AccumulatedBeyond(s[..n]);
      TenDigitsCount(s[..n]);
    }
  }

  /** Beyond ten bytes they part: decoding gives up, and reading may give another number. */
  lemma ReadBeyondTenBytes()
    ensures exists s :: Decoding(s).None? && ReadOne(s).Some? && !ExtraBitsSet(s[..ReadOne(s).value.1])
  {
    var z: seq<byte> := seq(10, _ => 0);
    var s := z + [129];
    ZeroesAddNothing(z);
    Seqs.Parts(z, [129]);
    Seqs.TakeAll(s);
    assert Stop(s) == 10 by {
      assert s[10] == 129;
    }
    assert !ExtraBitsSet(s) by {
      assert Or(0, Shl64(s[10] % 128, 70)) == 64;
    }
    assert Decoding(s).None? && ReadOne(s).Some?;
  }

  lemma {:induction false} ZeroesAddNothing(z: seq<byte>)
    requires forall k :: 0 <= k < |z| ==> z[k] == 0
    ensures LowBits(z) == 0
  {
    if z == [] {
    } else {
      ZeroesAddNothing(z[1..]);
    }
  }

  /** Decoding succeeds exactly when one of the first ten bytes has its top bit set. */
  lemma DecodingSucceeds(b: seq<byte>)
    ensures Decoding(b).Some? <==> exists k :: 0 <= k < |b| && k < VARINT_MAX_SIZE_BYTES && b[k] >= 128
  {
  }

  lemma {:induction false} EncodingShape(v: nat, s: seq<byte>)
    ensures Stop(Encoding(v) + s) == |Encoding(v)| - 1
    ensures LowBits(Encoding(v)) == v
  {
    var e := Encoding(v);
    if v > 0x7f {
      EncodingShape(v / 128, s);
      Seqs.Assoc([v % 128], Encoding(v / 128), s);
      Seqs.Parts([v % 128], Encoding(v / 128) + s);
      Seqs.Front([v % 128], Encoding(v / 128) + s, 0);
      Seqs.Parts([v % 128], Encoding(v / 128));
    } else {
      Seqs.Front(e, s, 0);
      Seqs.Singleton(v + 128);
    }
  }

  /** Decoding an encoded integer gives it back, with its exact length, whatever follows it. */
  lemma RoundTrip(v: u64, s: seq<byte>)
    ensures Decoding(Encoding(v) + s) == Some((v, |Encoding(v)|))
    ensures ReadOne(Encoding(v) + s) == Some((v, |Encoding(v)|, s))
  {
    EncodingShape(v, s);
    Max64(v);
    EncodingLength(v, 10);
    Seqs.Parts(Encoding(v), s);
    ModTwo64(v, 0, v);
    AccumulatedIsLowBits(Encoding(v));
  }

  lemma {:induction false} EncodingMinimal(v: nat)
    ensures |Encoding(v)| >= 1 && v < Pow128(|Encoding(v)|)
    ensures |Encoding(v)| > 1 ==> v >= Pow128(|Encoding(v)| - 1)
  {
    if v > 0x7f {
      var n := |Encoding(v / 128)|;
      EncodingMinimal(v / 128);
      Scale128(1, n);
      Scale128(1, n - 1);
    } else {
      assert Pow2(7) == 128;
    }
  }

  /** The length is the least number of base-128 digits that can hold the value. */
  lemma ShortestEncoding(v: u64, k: nat)
    requires k >= 1
    ensures 1 <= |Encoding(v)| <= VARINT_MAX_SIZE_BYTES
    ensures v < Pow128(k) <==> |Encoding(v)| <= k
  {
    Max64(v);
    EncodingLength(v, 10);
    EncodingMinimal(v);
    if v < Pow128(k) {
      EncodingLength(v, k);
    } else if |Encoding(v)| <= k {
      Pow2Monotone(7 * |Encoding(v)|, 7 * k);
    }
  }

  /** Encoding a decoded value again never takes more bytes than were consumed. */
  lemma ReencodingNotLonger(b: seq<byte>)
    requires Decoding(b).Some?
    ensures |Encoding(Decoding(b).value.0)| <= Decoding(b).value.1
  {
    var n := Decoding(b).value.1;
    LowBitsBound(b[..n]);
    EncodingLength(Decoding(b).value.0, n);
  }

  /** The bytes of an encoding are the base-128 digits, and the last has its top bit set. */
  lemma {:induction false} EncodingDigits(v: nat, k: nat)
    requires k < |Encoding(v)|
    ensures Encoding(v)[k] == Quotient(v, Pow128(k)) % 128 + (if k == |Encoding(v)| - 1 then 128 else 0)
    decreases k
  {
    if k == 0 {
    } else {
      EncodingDigits(v / 128, k - 1);
      Seqs.Parts([v % 128], Encoding(v / 128));
      Pow2Small();
      Pow2Add(7, 7 * (k - 1));
      DivideTwice(v, 128, Pow128(k - 1));
    }
  }

  function EncodeAll(vs: seq<u64>): seq<byte> {
    if vs == [] then [] else Encoding(vs[0]) + EncodeAll(vs[1..])
  }

  /** `count` integers read one after the other. */
  function ReadMany(count: nat, s: seq<byte>): Option<(seq<u64>, seq<byte>)> {
    if count == 0 then Some(([], s))
    else match ReadOne(s)
         case None => None
         case Some(x) =>
           match ReadMany(count - 1, x.2)
           case None => None
           case Some(rest) => Some(([x.0] + rest.0, rest.1))
  }

  lemma ReadManyStep(e: seq<byte>, t: seq<byte>, s: seq<byte>, v: u64, n: nat, vs: seq<u64>)
    requires ReadOne(e + (t + s)) == Some((v, n, t + s)) && ReadMany(|vs|, t + s) == Some((vs, s))
    ensures ReadMany(|vs| + 1, e + t + s) == Some(([v] + vs, s))
  {
    Seqs.Assoc(e, t, s);
  }

  lemma ReadBackOne(v: u64, s: seq<byte>)
    ensures ReadOne(Encoding(v) + s) == Some((v, |Encoding(v)|, s))
  {
    RoundTrip(v, s);
  }

  lemma StreamStep(vs: seq<u64>, s: seq<byte>)
    requires vs != [] && ReadMany(|vs| - 1, EncodeAll(vs[1..]) + s) == Some((vs[1..], s))
    ensures ReadMany(|vs|, EncodeAll(vs) + s) == Some((vs, s))
  {
    var v, rest := vs[0], vs[1..];
    var e, t := Encoding(v), EncodeAll(rest);
    ReadBackOne(v, t + s);
    ReadManyStep(e, t, s, v, |e|, rest);
    Seqs.HeadTail(vs);
  }

  /** Integers written back to back are read back unchanged, and nothing more is consumed. */
  lemma {:induction false} StreamRoundTrip(vs: seq<u64>, s: seq<byte>)
    ensures ReadMany(|vs|, EncodeAll(vs) + s) == Some((vs, s))
    decreases |vs|
  {
    if vs == [] {
      Seqs.Empty(s);
    } else {
      StreamRoundTrip(vs[1..], s);
      StreamStep(vs, s);
    }
  }
}
