/** `\XX` escaping of unprintable bytes (src/str.rs). Strings are the bytes they consist of. */
module StrEscape {
  import opened Bits
  import Hex
  import Seqs

  const BACKSLASH: byte := 92

  predicate KeptAsIs(c: byte) {
    43 <= c <= 126 && c != 92 && c != 96
  }

  function EscapeByte(c: byte): seq<byte> {
    if KeptAsIs(c) then [c] else [BACKSLASH] + Hex.EncodeByte(c)
  }

  function Escaped(b: seq<byte>): seq<byte> {
    if b == [] then [] else EscapeByte(b[0]) + Escaped(b[1..])
  }

  /** The value of the hex digits among two characters; anything else counts for nothing. */
  function PairValue(x: byte, y: byte): byte {
    if Hex.IsHex(x) && Hex.IsHex(y) then Hex.Join(Hex.Digit(x), Hex.Digit(y))
    else if Hex.IsHex(x) then Hex.Digit(x)
    else if Hex.IsHex(y) then Hex.Digit(y)
    else 0
  }

  /** A backslash with fewer than two characters behind it ends the text. */
  function Unescaped(s: seq<byte>): seq<byte> {
    if s == [] then []
    else if s[0] != BACKSLASH then [s[0]] + Unescaped(s[1..])
    else if |s| < 3 then []
    else [PairValue(s[1], s[2])] + Unescaped(s[3..])
  }

  lemma {:induction false} EscapedSnoc(b: seq<byte>, c: byte)
    ensures Escaped(b + [c]) == Escaped(b) + EscapeByte(c)
  {
    if b == [] {
      Seqs.Singleton(c);
      Seqs.Empty([c]);
      Seqs.Empty(EscapeByte(c));
    } else {
      Seqs.Tail(b, [c]);
      EscapedSnoc(b[1..], c);
      Seqs.Assoc(EscapeByte(b[0]), Escaped(b[1..]), EscapeByte(c));
    }
  }

  method Escape(b: seq<byte>) returns (s: seq<byte>)
    ensures s == Escaped(b)
  {
    s := [];
    for i := 0 to |b|
      invariant s == Escaped(b[..i])
    {
      var c := b[i];
      EscapedSnoc(b[..i], c);
      Seqs.TakeMore(b, i);
      if 43 <= c <= 126 && c != 92 && c != 96 {
        s := s + [c];
      } else {
        Hex.HexTable(c / 16);
        Hex.HexTable(c % 16);
        s := s + [BACKSLASH, Hex.HEX_CHARS[c / 16], Hex.HEX_CHARS[c % 16]];
      }
    }
    Seqs.TakeAll(b);
  }

  lemma ShiftInFirst(d: Hex.nibble)
    ensures Hex.ShiftIn(0, d) == d
  {
    Hex.NibbleJoin(0, d);
  }

  lemma ShiftInSecond(d: Hex.nibble, e: Hex.nibble)
    ensures Hex.ShiftIn(d, e) == Hex.Join(d, e)
  {
    assert d % 16 == d;
    Hex.NibbleJoin(d, e);
  }

  method Unescape(text: seq<byte>) returns (b: seq<byte>)
    ensures b == Unescaped(text)
  {
    b := [];
    var s := text;
    while s != []
      invariant b + Unescaped(s) == Unescaped(text)
      decreases |s|
    {
      var c := s[0];
      if c == BACKSLASH {
        if |s| < 3 {
          break;
        }
        var cc: byte := 0;
        if Hex.IsHex(s[1]) {
          ShiftInFirst(Hex.Digit(s[1]));
          cc := Hex.ShiftIn(cc, Hex.Digit(s[1]));
        }
        if Hex.IsHex(s[2]) {
          ShiftInFirst(Hex.Digit(s[2]));
          if Hex.IsHex(s[1]) {
            ShiftInSecond(Hex.Digit(s[1]), Hex.Digit(s[2]));
          }
          cc := Hex.ShiftIn(cc, Hex.Digit(s[2]));
        }
        Seqs.Assoc(b, [cc], Unescaped(s[3..]));
        b := b + [cc];
        s := s[3..];
      } else {
        Seqs.Assoc(b, [c], Unescaped(s[1..]));
        b := b + [c];
        s := s[1..];
      }
    }
    Seqs.Empty(b);
  }

  lemma UnescapeOne(c: byte, t: seq<byte>)
    ensures Unescaped(EscapeByte(c) + t) == [c] + Unescaped(t)
  {
    if KeptAsIs(c) {
      Seqs.Parts([c], t);
    } else {
      var h, l := c / 16, c % 16;
      Hex.HexCharDigit(h);
      Hex.HexCharDigit(l);
      var e := [BACKSLASH, Hex.HexChar(h), Hex.HexChar(l)];
      assert EscapeByte(c) == e;
      Seqs.Parts(e, t);
      Seqs.Front(e, t, 0);
      Seqs.Front(e, t, 1);
      Seqs.Front(e, t, 2);
    }
  }

  /** Unescaping gives the bytes back, whatever text comes behind the escaped part. */
  lemma {:induction false} EscapeRoundTrip(a: seq<byte>, s: seq<byte>)
    ensures Unescaped(Escaped(a) + s) == a + Unescaped(s)
    decreases a
  {
    if a == [] {
      Seqs.Empty(s);
      Seqs.Empty(Unescaped(s));
    } else {
      Seqs.Assoc(EscapeByte(a[0]), Escaped(a[1..]), s);
      UnescapeOne(a[0], Escaped(a[1..]) + s);
      EscapeRoundTrip(a[1..], s);
      Seqs.Assoc([a[0]], a[1..], Unescaped(s));
      Seqs.HeadTail(a);
    }
  }

  /** Escaped text is printable and holds no quote, space or backtick. */
  lemma {:induction false} EscapedIsPrintable(a: seq<byte>)
    ensures forall i :: 0 <= i < |Escaped(a)| ==> 43 <= Escaped(a)[i] <= 126 && Escaped(a)[i] != 96
  {
    if a == [] {
    } else {
      EscapedIsPrintable(a[1..]);
    }
  }

  /**
   Characters 43 to 126 but the backslash (92) and the backquote (96) are left alone, and any
   other byte becomes a backslash and its two digits in lower case.
   */
  lemma EscapedByte(c: byte)
    ensures Escaped([c]) ==
            if 43 <= c <= 126 && c != 92 && c != 96 then [c]
            else [92, if c / 16 < 10 then 48 + c / 16 else 97 + (c / 16 - 10),
                  if c % 16 < 10 then 48 + c % 16 else 97 + (c % 16 - 10)]
  {
    Seqs.Singleton(c);
    Seqs.Empty(EscapeByte(c));
  }

  /**
   Behind a backslash the two next characters are taken, of which those that are no digits
   count for nothing; a backslash with fewer ends the text; and all else stands for itself.
   */
  lemma CharactersRead(c: byte, x: byte, y: byte, t: seq<byte>)
    ensures c != 92 ==> Unescaped([c] + t) == [c] + Unescaped(t)
    ensures Unescaped([92]) == [] && Unescaped([92, x]) == []
    ensures Hex.IsHex(x) && Hex.IsHex(y) ==> Unescaped([92, x, y] + t) == Hex.Decode([x, y]) + Unescaped(t)
    ensures Hex.IsHex(x) && !Hex.IsHex(y) ==> Unescaped([92, x, y] + t) == Hex.Decode([48, x]) + Unescaped(t)
    ensures !Hex.IsHex(x) && Hex.IsHex(y) ==> Unescaped([92, x, y] + t) == Hex.Decode([48, y]) + Unescaped(t)
    ensures !Hex.IsHex(x) && !Hex.IsHex(y) ==> Unescaped([92, x, y] + t) == [0] + Unescaped(t)
  {
    var s := [92, x, y] + t;
    Seqs.Parts([c], t);
    Seqs.Parts([92, x, y], t);
    assert s[0] == 92 && s[1] == x && s[2] == y;
    Hex.CharactersRead(x, y);
    Hex.CharactersRead(48, x);
    Hex.CharactersRead(48, y);
  }
}
