/** Hexadecimal codecs (src/hex.rs). Strings are the bytes they consist of. */
module Hex {
  import opened Arithmetic
  import opened Bits
  import opened Wrappers
  import Seqs
  import Utf8

  const HEX_CHARS: seq<byte> := [48, 49, 50, 51, 52, 53, 54, 55, 56, 57, 97, 98, 99, 100, 101, 102]

  type nibble = x: int | 0 <= x < 16

  /** What the table holds. */
  function HexChar(d: nibble): byte {
    if d < 10 then 48 + d else 87 + d
  }

  lemma HexTable(d: nibble)
    ensures HEX_CHARS[d] == HexChar(d)
  {
  }

  // ---------------------------------------------------------------------------------
  // What hexadecimal text means
  // ---------------------------------------------------------------------------------

  predicate IsHex(c: byte) {
    48 <= c <= 57 || 65 <= c <= 70 || 97 <= c <= 102
  }

  predicate IsLowerHex(c: byte) {
    48 <= c <= 57 || 97 <= c <= 102
  }

  function Digit(c: byte): nibble
    requires IsHex(c)
  {
    if c <= 57 then c - 48 else if c <= 70 then c - 55 else c - 87
  }

  /** `s` without its bytes that are not hex digits. */
  function OnlyHex(s: seq<byte>): seq<byte> {
    if s == [] then [] else (if IsHex(s[0]) then [s[0]] else []) + OnlyHex(s[1..])
  }

  function Nibbles(s: seq<byte>): seq<nibble> {
    if s == [] then [] else (if IsHex(s[0]) then [Digit(s[0])] else []) + Nibbles(s[1..])
  }

  function Join(high: nibble, low: nibble): byte {
    (high as int) * 16 + low
  }

  /** Nibbles joined two by two; an odd one at the end is lost. */
  function Pairs(n: seq<nibble>): seq<byte> {
    if |n| < 2 then [] else [Join(n[0], n[1])] + Pairs(n[2..])
  }

  function Decode(s: seq<byte>): seq<byte> {
    Pairs(Nibbles(s))
  }

  function EncodeByte(c: byte): seq<byte> {
    [HexChar(c / 16), HexChar(c % 16)]
  }

  function Encode(b: seq<byte>): seq<byte> {
    if b == [] then [] else EncodeByte(b[0]) + Encode(b[1..])
  }

  /** The number that nibbles stand for, most significant first. */
  function NibbleValue(n: seq<nibble>): nat {
    if n == [] then 0 else NibbleValue(n[..|n| - 1]) * 16 + n[|n| - 1]
  }

  predicate AllDigits(s: seq<byte>) {
    forall i :: 0 <= i < |s| ==> IsLowerHex(s[i])
  }

  /** `s` is `v` in lower-case hexadecimal, on all 16 digits or without leading zeroes. */
  predicate IsHexOf(s: seq<byte>, v: u64, stripped: bool) {
    && AllDigits(s)
    && NibbleValue(Nibbles(s)) == v
    && (if stripped then |s| <= 16 && (s != [] ==> s[0] != HexChar(0)) else |s| == 16)
  }

  // ---------------------------------------------------------------------------------
  // Lemmas about adding one character at the end
  // ---------------------------------------------------------------------------------

  lemma {:induction false} NibblesAppend(s: seq<byte>, t: seq<byte>)
    ensures Nibbles(s + t) == Nibbles(s) + Nibbles(t)
  {
    if s == [] {
      Seqs.Empty(t);
      Seqs.Empty(Nibbles(t));
    } else {
      Seqs.Tail(s, t);
      NibblesAppend(s[1..], t);
      Seqs.Assoc(if IsHex(s[0]) then [Digit(s[0])] else [], Nibbles(s[1..]), Nibbles(t));
    }
  }

  lemma NibblesSnoc(s: seq<byte>, c: byte)
    ensures Nibbles(s + [c]) == if IsHex(c) then Nibbles(s) + [Digit(c)] else Nibbles(s)
  {
    NibblesAppend(s, [c]);
    Seqs.Singleton(c);
    Seqs.Empty(Nibbles(s));
    assert Nibbles([c]) == if IsHex(c) then [Digit(c)] else [];
  }

  lemma {:induction false} PairsSnoc(n: seq<nibble>, d: nibble)
    ensures |Pairs(n)| == |n| / 2
    ensures Pairs(n + [d]) == if |n| % 2 == 0 then Pairs(n) else Pairs(n) + [Join(n[|n| - 1], d)]
  {
    if |n| < 2 {
      Seqs.Parts(n, [d]);
      assert (n + [d])[|n|] == d;
    } else {
      var m, two := n[2..], n[..2];
      Seqs.TakeDrop(n, 2);
      Seqs.Assoc(two, m, [d]);
      Seqs.Parts(two, m + [d]);
      Seqs.Front(n, [d], 0);
      Seqs.Front(n, [d], 1);
      PairsSnoc(m, d);
      if |n| % 2 == 1 {
        Seqs.Assoc([Join(n[0], n[1])], Pairs(m), [Join(m[|m| - 1], d)]);
      }
    }
  }

  lemma NibbleValueSnoc(n: seq<nibble>, d: nibble)
    ensures NibbleValue(n + [d]) == NibbleValue(n) * 16 + d
  {
    Seqs.Snoc(n, d);
  }

  lemma {:induction false} EncodeLength(b: seq<byte>)
    ensures |Encode(b)| == 2 * |b|
  {
    if b == [] {
    } else {
      EncodeLength(b[1..]);
    }
  }

  lemma {:induction false} EncodeAppend(x: seq<byte>, y: seq<byte>)
    ensures Encode(x + y) == Encode(x) + Encode(y)
    decreases x
  {
    if x == [] {
      Seqs.Empty(y);
      Seqs.Empty(Encode(y));
    } else {
      Seqs.Tail(x, y);
      EncodeAppend(x[1..], y);
      Seqs.Assoc(EncodeByte(x[0]), Encode(x[1..]), Encode(y));
    }
  }

  lemma EncodeSnoc(b: seq<byte>, c: byte)
    ensures Encode(b + [c]) == Encode(b) + EncodeByte(c)
  {
    EncodeAppend(b, [c]);
    Seqs.Singleton(c);
    Seqs.Empty(EncodeByte(c));
  }

  // ---------------------------------------------------------------------------------
  // Byte strings
  // ---------------------------------------------------------------------------------

  method ToString(b: seq<byte>) returns (s: seq<byte>)
    ensures s == Encode(b)
  {
    s := [];
    for i := 0 to |b|
      invariant s == Encode(b[..i])
    {
      var x := b[i];
      EncodeSnoc(b[..i], x);
      Seqs.TakeMore(b, i);
      HexTable(x / 16);
      HexTable(x % 16);
      Seqs.Assoc(s, [HexChar(x / 16)], [HexChar(x % 16)]);
      s := s + [HEX_CHARS[x / 16]];
      s := s + [HEX_CHARS[x % 16]];
    }
    Seqs.TakeAll(b);
  }

  /** What the decoders' two variables say about the digits seen so far. */
  ghost predicate Waiting(n: seq<nibble>, have8: bool, acc: byte) {
    (have8 <==> |n| % 2 == 1) && (have8 ==> acc % 16 == n[|n| - 1])
  }

  lemma NibbleJoin(acc: byte, d: nibble)
    ensures Or(Shl8By4(acc), d) == Join(acc % 16, d)
  {
    NibbleIn(acc, d);
  }

  /** `byte.wrapping_shl(4) | digit`. */
  function ShiftIn(acc: byte, d: nibble): byte {
    NibbleJoin(acc, d);
    Or(Shl8By4(acc), d)
  }

  lemma JoinLow(h: nibble, d: nibble)
    ensures Join(h, d) % 16 == d
  {
  }

  lemma WaitingStep(n: seq<nibble>, d: nibble, have8: bool, acc: byte, acc': byte)
    requires Waiting(n, have8, acc) && acc' == Join(acc % 16, d) && acc' % 16 == d
    ensures Waiting(n + [d], !have8, acc')
    ensures Pairs(n + [d]) == if have8 then Pairs(n) + [acc'] else Pairs(n)
  {
    PairsSnoc(n, d);
    WaitingFlips(n, d, have8, acc, acc');
  }

  lemma WaitingFlips(n: seq<nibble>, d: nibble, have8: bool, acc: byte, acc': byte)
    requires Waiting(n, have8, acc) && acc' % 16 == d
    ensures Waiting(n + [d], !have8, acc')
  {
    var m := n + [d];
    assert |m| == |n| + 1 && m[|m| - 1] == d;
  }

  lemma DecodeStep(s: seq<byte>, c: byte, have8: bool, acc: byte)
    requires IsHex(c) && Waiting(Nibbles(s), have8, acc)
    ensures var acc' := ShiftIn(acc, Digit(c));
            && Waiting(Nibbles(s + [c]), !have8, acc')
            && Decode(s + [c]) == if have8 then Decode(s) + [acc'] else Decode(s)
  {
    NibblesSnoc(s, c);
    NibbleJoin(acc, Digit(c));
    JoinLow(acc % 16, Digit(c));
    WaitingStep(Nibbles(s), Digit(c), have8, acc, Join(acc % 16, Digit(c)));
  }

  lemma DecodeSkip(s: seq<byte>, c: byte)
    requires !IsHex(c)
    ensures Nibbles(s + [c]) == Nibbles(s)
  {
    NibblesSnoc(s, c);
  }

  /** The decoder as written: `acc` is never reset, `have8` says whether a nibble is waiting. */
  method FromString(s: seq<byte>) returns (b: seq<byte>)
    ensures b == Decode(s)
  {
    b := [];
    var acc: byte := 0;
    var have8 := false;
    for i := 0 to |s|
      invariant b == Decode(s[..i])
      invariant Waiting(Nibbles(s[..i]), have8, acc)
    {
      var c := s[i];
      Seqs.TakeMore(s, i);
      if IsHex(c) {
        DecodeStep(s[..i], c, have8, acc);
        acc := ShiftIn(acc, Digit(c));
        if have8 {
          b := b + [acc];
        }
        have8 := !have8;
      } else {
        DecodeSkip(s[..i], c);
      }
    }
    Seqs.TakeAll(s);
  }

  /** The two stores for one byte, as far as there is room: `n` of them are made. */
  method PutByte(x: byte, dest: array<byte>, j: nat, ghost done: seq<byte>, ghost was: seq<byte>) returns (n: nat)
    requires j == |done| <= dest.Length == |was| && dest[..] == done + was[j..]
    modifies dest
    ensures n <= 2 && j + n <= dest.Length
    ensures n == 2 ==> dest[..] == (done + EncodeByte(x)) + was[j + 2..]
    ensures n < 2 ==> j + n == dest.Length && dest[..] == done + EncodeByte(x)[..n]
  {
    ghost var e := EncodeByte(x);
    HexTable(x / 16);
    HexTable(x % 16);
    if j >= dest.Length {
      return 0;
    }
    dest[j] := HEX_CHARS[x / 16];
    WriteOne(done, was, e[0]);
    assert e[..1] == [e[0]];
    if j + 1 >= dest.Length {
      return 1;
    }
    dest[j + 1] := HEX_CHARS[x % 16];
    WriteOne(done + e[..1], was, e[1]);
    assert done + e[..1] + [e[1]] == done + e;
    return 2;
  }

  /**
   Fills `dest` in place; in a slice that is too short it writes as far as that goes, and
   panics.
   */
  method ToHexBytes(b: seq<byte>, dest: array<byte>) returns (r: Outcome<nat>)
    modifies dest
    ensures r.Returns? <==> 2 * |b| <= dest.Length
    ensures r.Returns? ==> r.value == 2 * |b| && dest[..] == Encode(b) + old(dest[..])[r.value..]
    ensures r.Panic? ==> |Encode(b)| > dest.Length && dest[..] == Encode(b)[..dest.Length]
  {
    var j := 0;
    ghost var was: seq<byte>, done := dest[..], Encode([]);
    EncodeLength(b);
    for i := 0 to |b|
      invariant j == 2 * i == |done| <= dest.Length
      invariant done == Encode(b[..i])
      invariant dest[..] == done + was[j..]
    {
      var n := PutByte(b[i], dest, j, done, was);
      if n < 2 {
        Truncated(b, i, n);
        return Panic;
      }
      ByteDone(b, i);
      done := done + EncodeByte(b[i]);
      j := j + 2;
    }
    Seqs.TakeAll(b);
    return Returns(j);
  }

  lemma ByteDone(b: seq<byte>, i: nat)
    requires i < |b|
    ensures Encode(b[..i]) + EncodeByte(b[i]) == Encode(b[..i + 1])
    ensures |Encode(b[..i])| == 2 * i && |Encode(b[..i + 1])| == 2 * (i + 1)
  {
    EncodeLength(b[..i]);
    EncodeLength(b[..i + 1]);
    EncodeSnoc(b[..i], b[i]);
    Seqs.TakeMore(b, i);
  }

  lemma EncodePrefix(b: seq<byte>, i: nat)
    requires i <= |b|
    ensures |Encode(b[..i])| == 2 * i <= |Encode(b)| && Encode(b)[..2 * i] == Encode(b[..i])
  {
    EncodeLength(b[..i]);
    EncodeAppend(b[..i], b[i..]);
    Seqs.TakeDrop(b, i);
    Seqs.Parts(Encode(b[..i]), Encode(b[i..]));
  }

  /** What is written when the room is used up is the front of all that was to be written. */
  lemma Truncated(b: seq<byte>, i: nat, n: nat)
    requires i < |b| && n < 2
    ensures 2 * i + n < |Encode(b)|
    ensures Encode(b[..i]) + EncodeByte(b[i])[..n] == Encode(b)[..2 * i + n]
  {
    var e, all := EncodeByte(b[i]), Encode(b);
    EncodePrefix(b, i);
    EncodePrefix(b, i + 1);
    Seqs.TakeMore(b, i);
    EncodeSnoc(b[..i], b[i]);
    Seqs.TakeOfSum(Encode(b[..i]), e, 2 * i + n);
    Seqs.TakeSlice(all, 0, 2 * (i + 1), 2 * i + n);
    assert all[0..2 * (i + 1)] == all[..2 * (i + 1)];
  }

  lemma WriteOne(done: seq<byte>, was: seq<byte>, x: byte)
    requires |done| < |was|
    ensures (done + was[|done|..])[|done| := x] == (done + [x]) + was[|done| + 1..]
  {
  }

  lemma {:induction false} NibblesOnlyHex(s: seq<byte>)
    ensures Nibbles(OnlyHex(s)) == Nibbles(s)
  {
    if s == [] {
    } else {
      NibblesOnlyHex(s[1..]);
      Seqs.Empty(OnlyHex(s[1..]));
      Seqs.Parts([s[0]], OnlyHex(s[1..]));
    }
  }

  lemma HexCharDigit(d: nibble)
    ensures IsHex(HexChar(d)) && Digit(HexChar(d)) == d
  {
  }

  lemma EncodedByteNibbles(c: byte)
    ensures Nibbles(EncodeByte(c)) == [c / 16, c % 16]
  {
    HexCharDigit(c / 16);
    HexCharDigit(c % 16);
    var x, y := HexChar(c / 16), HexChar(c % 16);
    assert EncodeByte(c) == [x] + [y];
    NibblesSnoc([x], y);
    Seqs.Empty([x]);
    NibblesSnoc([], x);
  }

  lemma {:induction false} DecodeEncode(b: seq<byte>)
    ensures Decode(Encode(b)) == b
  {
    if b == [] {
    } else {
      DecodeEncode(b[1..]);
      EncodedByteNibbles(b[0]);
      NibblesAppend(EncodeByte(b[0]), Encode(b[1..]));
      Seqs.Parts([b[0] / 16, b[0] % 16], Nibbles(Encode(b[1..])));
      Seqs.HeadTail(b);
    }
  }

  /** Decoding gives the bytes back from their encoding mixed with anything that is not hex. */
  lemma DecodeThroughNoise(b: seq<byte>, s: seq<byte>)
    requires OnlyHex(s) == Encode(b)
    ensures Decode(s) == b
  {
    NibblesOnlyHex(s);
    DecodeEncode(b);
  }

  function UpperCase(s: seq<byte>): seq<byte> {
    if s == [] then [] else [if 97 <= s[0] <= 102 then s[0] - 32 else s[0]] + UpperCase(s[1..])
  }

  /** Digits above nine may be written in capitals. */
  lemma CaseIgnored(s: seq<byte>)
    ensures Decode(UpperCase(s)) == Decode(s)
  {
    UpperCaseNibbles(s);
  }

  lemma {:induction false} UpperCaseNibbles(s: seq<byte>)
    ensures Nibbles(UpperCase(s)) == Nibbles(s)
  {
    if s == [] {
    } else {
      UpperCaseNibbles(s[1..]);
      var u := UpperCase(s);
      assert u[1..] == UpperCase(s[1..]);
    }
  }

  /** The characters written for byte `i`: the high and the low digit, in lower case. */
  lemma {:induction false} EncodedDigits(b: seq<byte>, i: nat)
    requires i < |b|
    ensures |Encode(b)| == 2 * |b|
    ensures Encode(b)[2 * i] == (if b[i] / 16 < 10 then 48 + b[i] / 16 else 97 + (b[i] / 16 - 10))
    ensures Encode(b)[2 * i + 1] == (if b[i] % 16 < 10 then 48 + b[i] % 16 else 97 + (b[i] % 16 - 10))
  {
    EncodeLength(b);
    if i == 0 {
    } else {
      EncodedDigits(b[1..], i - 1);
    }
  }

  /** 0 to 9, A to F and a to f are digits of that value, and all other characters are skipped. */
  lemma CharactersRead(x: byte, y: byte)
    ensures Decode([x, y]) ==
            if !(48 <= x <= 57 || 65 <= x <= 70 || 97 <= x <= 102) then []
            else if !(48 <= y <= 57 || 65 <= y <= 70 || 97 <= y <= 102) then []
            else [16 * (if x <= 57 then x - 48 else if x <= 70 then x - 65 + 10 else x - 97 + 10)
                  + (if y <= 57 then y - 48 else if y <= 70 then y - 65 + 10 else y - 97 + 10)]
    ensures OnlyHex([x]) == if 48 <= x <= 57 || 65 <= x <= 70 || 97 <= x <= 102 then [x] else []
  {
    assert [x] + [y] == [x, y] && [] + [x] == [x];
    NibblesSnoc([x], y);
    NibblesSnoc([], x);
    Seqs.Singleton(x);
    Seqs.Empty(OnlyHex([x]));
    var n := Nibbles([x, y]);
    if IsHex(x) && IsHex(y) {
      assert n == [Digit(x), Digit(y)] && n[2..] == [];
      assert Pairs(n) == [Join(Digit(x), Digit(y))] + Pairs([]);
    } else {
      assert |n| < 2;
    }
  }

  // ---------------------------------------------------------------------------------
  // 64-bit integers
  // ---------------------------------------------------------------------------------

  /** Shifting a byte into a wrapping 64-bit accumulator. */
  lemma ByteIn(value: nat, c: byte)
    ensures Or(Shl64(value % TWO_64, 8), c) == (value * 256 + c) % TWO_64
  {
    var q, r := value / TWO_64, value % TWO_64;
    var p, h := (r * 256) / TWO_64, (r * 256) % TWO_64;
    assert Pow2(8) == 256;
    assert Shl64(r, 8) == h;
    var m := h / 256;
    assert h == m * 256;
    ModTwo64(value * 256 + c, q * 256 + p, h + c);
    OrDisjoint(c, m, 8);
    OrCommutes(c, h);
  }

  lemma IntegerStep(s: seq<byte>, c: byte, have8: bool, acc: byte)
    requires IsHex(c) && Waiting(Nibbles(s), have8, acc)
    ensures var acc', n := ShiftIn(acc, Digit(c)), BigEndian(Decode(s)) % TWO_64;
            && Waiting(Nibbles(s + [c]), !have8, acc')
            && BigEndian(Decode(s + [c])) % TWO_64 == if have8 then Or(Shl64(n, 8), acc') else n
  {
    DecodeStep(s, c, have8, acc);
    if have8 {
      var acc' := ShiftIn(acc, Digit(c));
      BigEndianSnoc(Decode(s), acc');
      ByteIn(BigEndian(Decode(s)), acc');
    }
  }

  method FromStringU64(s: seq<byte>) returns (n: u64)
    ensures n == BigEndian(Decode(s)) % TWO_64
  {
    n := 0;
    var acc: byte := 0;
    var have8 := false;
    for i := 0 to |s|
      invariant n == BigEndian(Decode(s[..i])) % TWO_64
      invariant Waiting(Nibbles(s[..i]), have8, acc)
    {
      var c := s[i];
      Seqs.TakeMore(s, i);
      if IsHex(c) {
        IntegerStep(s[..i], c, have8, acc);
        acc := ShiftIn(acc, Digit(c));
        if have8 {
          n := Or(Shl64(n, 8), acc);
        }
        have8 := !have8;
      } else {
        DecodeSkip(s[..i], c);
      }
    }
    Seqs.TakeAll(s);
  }

  function Times16(v: nat, k: nat): nat {
    if k == 0 then v else Times16(v, k - 1) * 16
  }

  lemma {:induction false} Times16IsShift(v: nat, k: nat)
    ensures Times16(v, k) == v * Pow2(4 * k)
  {
    if k == 0 {
    } else {
      Times16IsShift(v, k - 1);
      Pow2Add(4 * (k - 1), 4);
      assert Pow2(4) == 16;
      assert v * (Pow2(4 * (k - 1)) * 16) == (v * Pow2(4 * (k - 1))) * 16;
    }
  }

  lemma Times16Is64Bits(v: nat)
    ensures Times16(v, 16) == v * TWO_64
  {
    Times16IsShift(v, 16);
    Pow2Of64();
  }

  /** The top nibble leaves a 64-bit word and the rest moves up. */
  lemma NibbleOut(hi: nat, r: u64)
    ensures var ii := r / 0x1000_0000_0000_0000;
            && 0 <= ii < 16
            && (hi * TWO_64 + r) * 16 == (hi * 16 + ii) * TWO_64 + Shl64(r, 4)
  {
    var ii, low := r / 0x1000_0000_0000_0000, r % 0x1000_0000_0000_0000;
    assert Pow2(4) == 16;
    ModTwo64(r * 16, ii, low * 16);
  }

  /** `k` digits of `v` are out and the others are at the top of `i`. */
  ghost predicate HexPrefix(s: seq<byte>, v: nat, k: nat, i: nat, stripped: bool) {
    && AllDigits(s)
    && Times16(v, k) == NibbleValue(Nibbles(s)) * TWO_64 + i
    && (if stripped then |s| <= k && (s != [] ==> s[0] != HexChar(0)) else |s| == k)
  }

  lemma DigitOut(s: seq<byte>, v: nat, k: nat, i: u64, stripped: bool)
    requires HexPrefix(s, v, k, i, stripped)
    ensures var d := i / 0x1000_0000_0000_0000;
            && 0 <= d < 16
            && var t := if d != 0 || s != [] || !stripped then s + [HexChar(d)] else s;
            HexPrefix(t, v, k + 1, Shl64(i, 4), stripped)
  {
    var d: nibble := i / 0x1000_0000_0000_0000;
    NibbleOut(NibbleValue(Nibbles(s)), i);
    HexCharDigit(d);
    HexCharDigit(0);
    NibblesSnoc(s, HexChar(d));
    NibbleValueSnoc(Nibbles(s), d);
  }

  lemma HexPrefixComplete(s: seq<byte>, v: u64, i: u64, stripped: bool)
    requires HexPrefix(s, v, 16, i, stripped)
    ensures IsHexOf(s, v, stripped)
  {
    Times16Is64Bits(v);
  }

  /** `to_vec_u64`, and byte for byte `to_string_u64`. */
  method ToVecU64(v: u64, skipLeadingZeroes: bool) returns (s: seq<byte>)
    ensures IsHexOf(s, v, skipLeadingZeroes)
  {
    s := [];
    var i: u64 := v;
    for k := 0 to 16
      invariant HexPrefix(s, v, k, i, skipLeadingZeroes)
    {
      DigitOut(s, v, k, i, skipLeadingZeroes);
      var ii := i / 0x1000_0000_0000_0000;
      if ii != 0 || s != [] || !skipLeadingZeroes {
        HexTable(ii);
        s := s + [HEX_CHARS[ii]];
      }
      i := Shl64(i, 4);
    }
    HexPrefixComplete(s, v, i, skipLeadingZeroes);
  }

  /** The nibbles that have a partner. */
  function Paired(n: seq<nibble>): seq<nibble> {
    if |n| % 2 == 0 then n else n[..|n| - 1]
  }

  lemma {:induction false} PairsValue(n: seq<nibble>)
    ensures BigEndian(Pairs(n)) == NibbleValue(Paired(n))
    decreases |n|
  {
    if |n| < 2 {
    } else if |n| % 2 == 1 {
      var m := n[..|n| - 1];
      Seqs.InitLast(n);
      PairsSnoc(m, n[|n| - 1]);
      PairsValue(m);
      assert Pairs(n) == Pairs(m) && Paired(n) == m && Paired(m) == m;
    } else {
      var m := n[..|n| - 2];
      Seqs.InitLastTwo(n);
      PairsSnocTwo(m, n[|n| - 2], n[|n| - 1]);
      PairsValue(m);
      assert Paired(n) == n && Paired(m) == m;
    }
  }

  lemma PairsSnocTwo(m: seq<nibble>, x: nibble, y: nibble)
    requires |m| % 2 == 0
    ensures BigEndian(Pairs(m + [x] + [y])) == BigEndian(Pairs(m)) * 256 + Join(x, y)
    ensures NibbleValue(m + [x] + [y]) == NibbleValue(m) * 256 + Join(x, y)
  {
    PairsSnoc(m, x);
    PairsSnoc(m + [x], y);
    BigEndianSnoc(Pairs(m), Join(x, y));
    NibbleValueSnoc(m, x);
    NibbleValueSnoc(m + [x], y);
  }

  lemma {:induction false} DigitsAreNibbles(s: seq<byte>)
    requires AllDigits(s)
    ensures |Nibbles(s)| == |s|
    ensures s != [] ==> Nibbles(s)[0] == Digit(s[0])
  {
    if s == [] {
    } else {
      assert IsLowerHex(s[0]);
      DigitsAreNibbles(s[1..]);
    }
  }

  /**
   Reading back a written integer: exact on an even number of digits, so always on 16;
   the lowest digit is lost on an odd number.
   */
  lemma IntegerReadBack(s: seq<byte>, v: u64, stripped: bool)
    requires IsHexOf(s, v, stripped)
    ensures BigEndian(Decode(s)) % TWO_64 == if |s| % 2 == 0 then v else v / 16
  {
    var n := Nibbles(s);
    DigitsAreNibbles(s);
    PairsValue(n);
    PairedValue(n);
    ModTwo64(NibbleValue(Paired(n)), 0, NibbleValue(Paired(n)));
  }

  lemma PairedValue(n: seq<nibble>)
    ensures NibbleValue(Paired(n)) == if |n| % 2 == 0 then NibbleValue(n) else NibbleValue(n) / 16
  {
  }

  /** `from_string_u64` inverts `to_string_u64` exactly when the digit count is even. */
  lemma IntegerRoundTripExactly(s: seq<byte>, v: u64, stripped: bool)
    requires IsHexOf(s, v, stripped)
    ensures BigEndian(Decode(s)) % TWO_64 == v <==> |s| % 2 == 0
  {
    IntegerReadBack(s, v, stripped);
    if |s| % 2 == 1 {
      DigitsAreNibbles(s);
      NonZeroLeadingDigit(s, v, stripped);
    }
  }

  lemma {:induction false} LeadingDigitCounts(n: seq<nibble>)
    requires n != [] && n[0] != 0
    ensures NibbleValue(n) > 0
    decreases |n|
  {
    if |n| == 1 {
    } else {
      LeadingDigitCounts(n[..|n| - 1]);
    }
  }

  lemma NonZeroLeadingDigit(s: seq<byte>, v: u64, stripped: bool)
    requires IsHexOf(s, v, stripped) && stripped
    ensures v == 0 <==> s == []
  {
    DigitsAreNibbles(s);
    if s != [] {
      assert IsLowerHex(s[0]);
      LeadingDigitCounts(Nibbles(s));
    }
  }

  predicate NoLeadingZero(n: seq<nibble>) {
    n == [] || n[0] != 0
  }

  lemma {:induction false} NibbleValueInjective(m: seq<nibble>, n: seq<nibble>)
    requires |m| == |n| || (NoLeadingZero(m) && NoLeadingZero(n))
    requires NibbleValue(m) == NibbleValue(n)
    ensures m == n
    decreases |m|
  {
    if m == [] || n == [] {
      if m != [] { LeadingDigitCounts(m); }
      if n != [] { LeadingDigitCounts(n); }
    } else {
      NibbleValueInjective(m[..|m| - 1], n[..|n| - 1]);
      Seqs.InitLast(m);
      Seqs.InitLast(n);
    }
  }

  lemma {:induction false} DigitsDetermined(s: seq<byte>, t: seq<byte>)
    requires AllDigits(s) && AllDigits(t) && Nibbles(s) == Nibbles(t)
    ensures s == t
  {
    DigitsAreNibbles(s);
    DigitsAreNibbles(t);
    if s == [] {
    } else {
      assert IsLowerHex(s[0]) && IsLowerHex(t[0]);
      Seqs.Parts([Digit(s[0])], Nibbles(s[1..]));
      Seqs.Parts([Digit(t[0])], Nibbles(t[1..]));
      DigitsDetermined(s[1..], t[1..]);
      Seqs.HeadTail(s);
      Seqs.HeadTail(t);
    }
  }

  /** There is one way to write a number, so its stored form is canonical. */
  lemma HexFormUnique(s: seq<byte>, t: seq<byte>, v: u64, stripped: bool)
    requires IsHexOf(s, v, stripped) && IsHexOf(t, v, stripped)
    ensures s == t
  {
    DigitsAreNibbles(s);
    DigitsAreNibbles(t);
    if stripped {
      if s != [] { assert IsLowerHex(s[0]); }
      if t != [] { assert IsLowerHex(t[0]); }
    }
    NibbleValueInjective(Nibbles(s), Nibbles(t));
    DigitsDetermined(s, t);
  }

  /** The hexadecimal digit of `v` at place `j`, counted from the right. */
  function Place(v: nat, j: nat): nibble {
    Quotient(v, Pow2(4 * j)) % 16
  }

  lemma {:induction false} NibbleAt(n: seq<nibble>, k: nat)
    requires k < |n|
    ensures Place(NibbleValue(n), |n| - 1 - k) == n[k]
    decreases |n|
  {
    var m := |n| - 1;
    var v, d := NibbleValue(n[..m]), n[m];
    assert (v * 16 + d) / 16 == v && (v * 16 + d) % 16 == d;
    if k == m {
    } else {
      NibbleAt(n[..m], k);
      Pow2Small();
      Pow2Add(4, 4 * (m - 1 - k));
      DivideTwice(v * 16 + d, 16, Pow2(4 * (m - 1 - k)));
    }
  }

  lemma {:induction false} NibbleOfDigit(s: seq<byte>, k: nat)
    requires AllDigits(s) && k < |s|
    ensures |Nibbles(s)| == |s| && s[k] == HexChar(Nibbles(s)[k])
  {
    DigitsAreNibbles(s);
    if k == 0 {
    } else {
      NibbleOfDigit(s[1..], k - 1);
      assert s[1..][k - 1] == s[k];
    }
  }

  lemma DigitShown(d: nibble)
    ensures HexChar(d) == if d < 10 then 48 + d else 97 + (d - 10)
  {
  }

  lemma IntegerLength(s: seq<byte>, v: u64, stripped: bool)
    requires IsHexOf(s, v, stripped)
    ensures |s| <= 16 && (if stripped then s == [] || s[0] != 48 else |s| == 16)
  {
  }

  /** Every character of the hexadecimal form is the digit of its place, in lower case. */
  lemma IntegerDigits(s: seq<byte>, v: u64, stripped: bool, k: nat)
    requires IsHexOf(s, v, stripped) && k < |s|
    ensures var d := Place(v, |s| - 1 - k); s[k] == if d < 10 then 48 + d else 97 + (d - 10)
  {
    var n := Nibbles(s);
    NibbleOfDigit(s, k);
    NibbleAt(n, k);
    var d := Place(v, |s| - 1 - k);
    assert d == n[k];
    DigitShown(d);
  }

  // ---------------------------------------------------------------------------------
  // The standard library's radix-16 parser, by contract
  // ---------------------------------------------------------------------------------

  /** `u64::from_str_radix(s, 16)`: an optional plus, at least one digit, nothing else, no overflow. */
  function FromStrRadix16(s: seq<byte>): Option<u64> {
    var t := if |s| > 1 && s[0] == 43 then s[1..] else s;
    if t != [] && AllHex(t) && NibbleValue(Nibbles(t)) < TWO_64 then Some(NibbleValue(Nibbles(t))) else None
  }

  predicate AllHex(s: seq<byte>) {
    forall i :: 0 <= i < |s| ==> IsHex(s[i])
  }

  /** The stripped form of every number but zero is UTF-8 text that parses back to it. */
  lemma StrippedParsesBack(s: seq<byte>, v: u64)
    requires IsHexOf(s, v, true)
    ensures Utf8.Valid(s)
    ensures FromStrRadix16(s) == if v == 0 then None else Some(v)
  {
    NonZeroLeadingDigit(s, v, true);
    forall i | 0 <= i < |s| ensures IsHex(s[i]) && s[i] < 0x80 && s[i] != 43 {
      assert IsLowerHex(s[i]);
    }
    Utf8.AsciiIsValid(s);
  }

  /** A digit reads as its value. */
  lemma RadixDigit(c: byte)
    requires 48 <= c <= 57 || 65 <= c <= 70 || 97 <= c <= 102
    ensures FromStrRadix16([c]) == Some(Digit(c))
    ensures Digit(c) == if c <= 57 then c - 48 else if c <= 70 then c - 65 + 10 else c - 97 + 10
  {
    NibblesSnoc([], c);
    NibbleValueSnoc([], Digit(c));
    assert [] + [c] == [c] && [] + [Digit(c)] == [Digit(c)];
  }

  lemma RadixPlain(s: seq<byte>)
    requires s != [] && s[0] != 43
    ensures FromStrRadix16(s)
         == if AllHex(s) && NibbleValue(Nibbles(s)) < TWO_64 then Some(NibbleValue(Nibbles(s))) else None
  {
  }

  /** One digit more multiplies by sixteen, as long as that fits. */
  lemma RadixSnoc(s: seq<byte>, c: byte, v: u64)
    requires IsHex(c) && FromStrRadix16(s) == Some(v) && s[0] != 43
    ensures var w := v as int * 16 + Digit(c);
            FromStrRadix16(s + [c]) == if w < TWO_64 then Some(w) else None
  {
    RadixPlain(s);
    AllHexSnoc(s, c);
    NumberSnoc(s, c);
    Seqs.Front(s, [c], 0);
    RadixPlain(s + [c]);
  }

  lemma NumberSnoc(s: seq<byte>, c: byte)
    requires IsHex(c)
    ensures NibbleValue(Nibbles(s + [c])) == NibbleValue(Nibbles(s)) * 16 + Digit(c)
  {
    NibblesSnoc(s, c);
    NibbleValueSnoc(Nibbles(s), Digit(c));
  }

  lemma AllHexSnoc(s: seq<byte>, c: byte)
    requires AllHex(s) && IsHex(c)
    ensures AllHex(s + [c])
  {
  }

  /** Nothing but digits is accepted behind an optional sign, nor nothing at all. */
  lemma RadixRefuses(s: seq<byte>, i: nat)
    requires i < |s| && !(48 <= s[i] <= 57 || 65 <= s[i] <= 70 || 97 <= s[i] <= 102)
    ensures FromStrRadix16([]) == None
    ensures i > 0 || s[0] != 43 || |s| == 1 ==> FromStrRadix16(s) == None
  {
    assert !IsHex(s[i]);
    if |s| > 1 && s[0] == 43 && i > 0 {
      assert s[1..][i - 1] == s[i];
    }
  }

  lemma RadixSign(s: seq<byte>)
    requires s != [] && s[0] != 43
    ensures FromStrRadix16([43] + s) == FromStrRadix16(s)
  {
    Seqs.Parts([43], s);
    Seqs.Front([43], s, 0);
  }
}
