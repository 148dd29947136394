/** Well-formed UTF-8 (section 4 of RFC 3629), which is what `String::from_utf8` accepts. */
module Utf8 {
  import opened Bits
  import Seqs

  predicate Tail(b: seq<byte>, i: nat, lo: byte, hi: byte) {
    i < |b| && lo <= b[i] <= hi
  }

  /** The length of the character encoded at the front of `b`, or 0 if there is none. */
  function FirstLength(b: seq<byte>): (n: nat)
    ensures n <= |b|
    ensures n == 1 <==> b != [] && b[0] < 0x80
  {
    if b == [] then 0
    else if b[0] < 0x80 then 1
    else if 0xc2 <= b[0] <= 0xdf && Tail(b, 1, 0x80, 0xbf) then 2
    else if 0xe0 <= b[0] <= 0xef
         && Tail(b, 1, if b[0] == 0xe0 then 0xa0 else 0x80, if b[0] == 0xed then 0x9f else 0xbf)
         && Tail(b, 2, 0x80, 0xbf) then 3
    else if 0xf0 <= b[0] <= 0xf4
         && Tail(b, 1, if b[0] == 0xf0 then 0x90 else 0x80, if b[0] == 0xf4 then 0x8f else 0xbf)
         && Tail(b, 2, 0x80, 0xbf) && Tail(b, 3, 0x80, 0xbf) then 4
    else 0
  }

  predicate Valid(b: seq<byte>) {
    b == [] || (FirstLength(b) > 0 && Valid(b[FirstLength(b)..]))
  }

  lemma {:induction false} AsciiIsValid(b: seq<byte>)
    requires forall i :: 0 <= i < |b| ==> b[i] < 0x80
    ensures Valid(b)
  {
    if b == [] {
    } else {
      AsciiIsValid(b[1..]);
    }
  }

  // ---------------------------------------------------------------------------------
  // The characters that well-formed text consists of
  // ---------------------------------------------------------------------------------

  /** Code points but surrogates. */
  type scalar = c: int | 0 <= c < 0xd800 || 0xe000 <= c < 0x11_0000

  function Encode(c: scalar): seq<byte> {
    if c < 0x80 then [c]
    else if c < 0x800 then [0xc0 + c / 64, 0x80 + c % 64]
    else if c < 0x1_0000 then [0xe0 + c / 4096, 0x80 + c / 64 % 64, 0x80 + c % 64]
    else [0xf0 + c / 0x4_0000, 0x80 + c / 4096 % 64, 0x80 + c / 64 % 64, 0x80 + c % 64]
  }

  function EncodeText(text: seq<scalar>): seq<byte> {
    if text == [] then [] else Encode(text[0]) + EncodeText(text[1..])
  }

  lemma FirstLengthOf(c: scalar, t: seq<byte>)
    ensures FirstLength(Encode(c) + t) == |Encode(c)|
  {
    var e, b := Encode(c), Encode(c) + t;
    assert forall i :: 0 <= i < |e| ==> b[i] == e[i];
    if 0x800 <= c < 0x1_0000 {
      assert c / 4096 == 0 ==> c / 64 >= 32;
      assert c / 4096 == 13 ==> c / 64 % 64 < 32;
    } else if c >= 0x1_0000 {
      assert c / 0x4_0000 == 0 ==> c / 4096 % 64 >= 16;
      assert c / 0x4_0000 == 4 ==> c / 4096 % 64 < 16;
    }
  }

  lemma TwoBytes(x: int, y: int) returns (c: scalar)
    requires 2 <= x < 32 && 0 <= y < 64
    ensures Encode(c) == [0xc0 + x, 0x80 + y]
  {
    c := x * 64 + y;
  }

  lemma ThreeBytes(x: int, y: int, z: int) returns (c: scalar)
    requires 0 <= x < 16 && 0 <= y < 64 && 0 <= z < 64
    requires (x == 0 ==> y >= 32) && (x == 13 ==> y < 32)
    ensures Encode(c) == [0xe0 + x, 0x80 + y, 0x80 + z]
  {
    c := x * 4096 + y * 64 + z;
    assert c / 64 == x * 64 + y;
  }

  lemma FourBytes(x: int, y: int, z: int, w: int) returns (c: scalar)
    requires 0 <= x <= 4 && 0 <= y < 64 && 0 <= z < 64 && 0 <= w < 64
    requires (x == 0 ==> y >= 16) && (x == 4 ==> y < 16)
    ensures Encode(c) == [0xf0 + x, 0x80 + y, 0x80 + z, 0x80 + w]
  {
    c := x * 0x4_0000 + y * 4096 + z * 64 + w;
    assert c / 64 == x * 4096 + y * 64 + z;
    assert c / 4096 == x * 64 + y;
  }

  /** The bytes found well-formed at the front are the encoding of a code point. */
  lemma FirstCharacter(b: seq<byte>) returns (c: scalar)
    requires FirstLength(b) > 0
    ensures Encode(c) == b[..FirstLength(b)]
  {
    var n := FirstLength(b);
    if n == 1 {
      c := b[0];
    } else if n == 2 {
      c := TwoBytes(b[0] - 0xc0, b[1] - 0x80);
    } else if n == 3 {
      c := ThreeBytes(b[0] - 0xe0, b[1] - 0x80, b[2] - 0x80);
    } else {
      c := FourBytes(b[0] - 0xf0, b[1] - 0x80, b[2] - 0x80, b[3] - 0x80);
    }
  }

  lemma {:induction false} TextIsValid(text: seq<scalar>)
    ensures Valid(EncodeText(text))
  {
    if text == [] {
    } else {
      TextIsValid(text[1..]);
      FirstLengthOf(text[0], EncodeText(text[1..]));
      Seqs.Parts(Encode(text[0]), EncodeText(text[1..]));
    }
  }

  lemma {:induction false} ValidIsText(b: seq<byte>) returns (text: seq<scalar>)
    requires Valid(b)
    ensures EncodeText(text) == b
  {
    if b == [] {
      text := [];
    } else {
      var n := FirstLength(b);
      var c := FirstCharacter(b);
      var rest := ValidIsText(b[n..]);
      text := [c] + rest;
      Seqs.TakeDrop(b, n);
    }
  }

  /** Valid is what is the encoding of some text. */
  lemma ValidExactly(b: seq<byte>)
    ensures Valid(b) <==> exists text :: EncodeText(text) == b
  {
    if Valid(b) {
      var text := ValidIsText(b);
    } else {
      forall text ensures EncodeText(text) != b {
        TextIsValid(text);
      }
    }
  }
}
