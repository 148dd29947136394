/** The `Dictionary` object of src/dictionary.rs, proved against DictionaryFormat. */
module DictionaryObject {
  import opened Bits
  import opened Wrappers
  import opened DictionaryFormat
  import opened DictionaryTheorems
  import Lex
  import Hex
  import Seqs
  import Utf8

  const BOOL_TRUTH: seq<byte> := [49, 116, 84, 121, 89]

  function Lookup(e: seq<Entry>, k: seq<byte>): Option<seq<byte>> {
    if k in ToMap(e) then Some(ToMap(e)[k]) else None
  }

  /** `write_escaped`: appends the escaped form of `b` to `w`. */
  method WriteEscaped(b: seq<byte>, w: seq<byte>) returns (w': seq<byte>)
    ensures w' == w + Escape(b)
  {
    w' := w;
    var i := 0;
    while i < |b|
      invariant 0 <= i <= |b|
      invariant w' == w + Escape(b[..i])
    {
      var c := b[i];
      EscapeAppend(b[..i], [c]);
      Seqs.Singleton(c);
      Seqs.Empty(EscapeByte(c));
      Seqs.TakeMore(b, i);
      Seqs.Assoc(w, Escape(b[..i]), EscapeByte(c));
      if c == NUL {
        w' := w' + [BACKSLASH, ZERO];
      } else if c == LF {
        w' := w' + [BACKSLASH, LOWER_N];
      } else if c == CR {
        w' := w' + [BACKSLASH, LOWER_R];
      } else if c == EQ {
        w' := w' + [BACKSLASH, LOWER_E];
      } else if c == BACKSLASH {
        w' := w' + [BACKSLASH, BACKSLASH];
      } else {
        w' := w' + [c];
      }
      i := i + 1;
    }
    Seqs.TakeAll(b);
  }

  lemma LineWritten(w: seq<byte>, k: seq<byte>, v: seq<byte>, rest: seq<byte>)
    ensures (((w + k) + [EQ]) + v) + [LF] + rest == w + ((k + [EQ] + v + [LF]) + rest)
  {
  }

  /** Keys come before those they are a prefix of, and otherwise as at the first difference. */
  ghost predicate InOrder(e: seq<Entry>) {
    forall i, j :: 0 <= i < j < |e| ==> Lex.Precedes(e[i].key, e[j].key)
  }

  lemma SortedInOrder(e: seq<Entry>)
    requires Sorted(e)
    ensures InOrder(e)
  {
    forall i, j | 0 <= i < j < |e| ensures Lex.Precedes(e[i].key, e[j].key) {
      Lex.LtIsPrecedes(e[i].key, e[j].key);
    }
  }

  class Dictionary {
    /** The BTreeMap, as the list of its entries in key order. */
    var entries: seq<Entry>

    ghost predicate Valid()
      reads this
    {
      IsDict(entries)
    }

    ghost function Contents(): map<seq<byte>, seq<byte>>
      reads this
    {
      ToMap(entries)
    }

    constructor ()
      ensures Valid() && entries == [] && Contents() == map[]
    {
      entries := [];
    }

    method Clear()
      modifies this
      ensures Valid() && Contents() == map[]
    {
      entries := [];
    }

    /** `set_bytes`, and `set_str` with the bytes of the string. */
    method SetBytes(k: seq<byte>, v: seq<byte>)
      requires Valid() && Utf8.Valid(k)
      modifies this
      ensures Valid() && Contents() == old(Contents())[k := v]
      ensures entries == Insert(old(entries), k, v)
    {
      InsertIsDict(entries, k, v);
      InsertMap(entries, k, v);
      entries := Insert(entries, k, v);
    }

    method SetU64(k: seq<byte>, v: u64)
      requires Valid() && Utf8.Valid(k)
      modifies this
      ensures Valid()
      ensures k in Contents() && Hex.IsHexOf(Contents()[k], v, true)
      ensures Contents() == old(Contents())[k := Contents()[k]]
    {
      var s := Hex.ToVecU64(v, true);
      SetBytes(k, s);
    }

    method SetBool(k: seq<byte>, v: bool)
      requires Valid() && Utf8.Valid(k)
      modifies this
      ensures Valid() && Contents() == old(Contents())[k := [if v then 49 else 48]]
    {
      SetBytes(k, [if v then 49 else 48]);
    }

    method GetBytes(k: seq<byte>) returns (r: Option<seq<byte>>)
      ensures r.Some? <==> k in Contents()
      ensures r.Some? ==> r.value == Contents()[k]
    {
      r := Lookup(entries, k);
    }

    /** None for a missing key and for a value that is not UTF-8. */
    method GetStr(k: seq<byte>) returns (r: Option<seq<byte>>)
      ensures r.Some? <==> k in Contents() && Utf8.Valid(Contents()[k])
      ensures r.Some? ==> r.value == Contents()[k]
    {
      r := Lookup(entries, k);
      if r.Some? && !Utf8.Valid(r.value) {
        r := None;
      }
    }

    /** Reads back every non-zero number that SetU64 stored, and nothing for zero. */
    method GetU64(k: seq<byte>) returns (r: Option<u64>)
      ensures r == (if k in Contents() && Utf8.Valid(Contents()[k]) then Hex.FromStrRadix16(Contents()[k]) else None)
      ensures forall v: u64 :: k in Contents() && Hex.IsHexOf(Contents()[k], v, true) ==>
                                 r == if v == 0 then None else Some(v)
    {
      var s := GetStr(k);
      r := if s.Some? then Hex.FromStrRadix16(s.value) else None;
      forall v: u64 | k in Contents() && Hex.IsHexOf(Contents()[k], v, true)
        ensures r == if v == 0 then None else Some(v)
      {
        Hex.StrippedParsesBack(Contents()[k], v);
      }
    }

    method GetBool(k: seq<byte>) returns (r: Option<bool>)
      ensures r.None? <==> k !in Contents()
      ensures r == Some(true) <==>
                && k in Contents() && Contents()[k] != []
                && var c := Contents()[k][0]; c == 49 || c == 116 || c == 84 || c == 121 || c == 89
    {
      var v := Lookup(entries, k);
      r := match v case None => None case Some(b) => Some(b != [] && b[0] in BOOL_TRUTH);
    }

    /** Appends the serialized form to `w`, entry by entry in key order. */
    method WriteTo(w: seq<byte>) returns (w': seq<byte>)
      ensures w' == w + Serialize(entries)
      ensures Valid() ==> InOrder(entries)
    {
      if Valid() {
        SortedInOrder(entries);
      }
      w' := w;
      var i := 0;
      while i < |entries|
        invariant 0 <= i <= |entries|
        invariant w' + Serialize(entries[i..]) == w + Serialize(entries)
      {
        var kv := entries[i];
        ghost var start, rest := w', Serialize(entries[i + 1..]);
        w' := WriteEscaped(kv.key, w');
        w' := w' + [EQ];
        w' := WriteEscaped(kv.value, w');
        w' := w' + [LF];
        assert entries[i..][1..] == entries[i + 1..];
        LineWritten(start, Escape(kv.key), Escape(kv.value), rest);
        i := i + 1;
      }
    }

    method ToBytes() returns (b: seq<byte>)
      ensures b == Serialize(entries)
      ensures Valid() ==> InOrder(entries)
    {
      b := WriteTo([]);
    }

    /**
     The one-pass parser. It accepts exactly the input that is not malformed, and what it
     returns is the two-stage specification's dictionary.
     */
    static method FromBytes(b: seq<byte>) returns (r: Option<Dictionary>)
      ensures r.None? <==> Malformed(b)
      ensures Parse(b) == if r.Some? then Some(r.value.entries) else None
      ensures r.Some? ==>
                && fresh(r.value) && r.value.Valid()
                && Some(r.value.entries) == Specified([], Tokens(b))
                && r.value.Contents() == ToMap(LineEntries(CompleteLines(Tokens(b))))
    {
      RejectsExactlyMalformed(b);
      OnePassIsTwoStage(b);
      var d := new Dictionary();
      var key: seq<byte>, value: seq<byte> := [], [];
      var state := 0;
      var escape := false;
      assert b[..0] == [];
      for i := 0 to |b|
        invariant d.Valid()
        invariant state == 0 || state == 1
        invariant Run(Start([]), b[..i]) == Some(State(d.entries, key, value, state == 1, escape))
      {
        var c := b[i];
        ghost var before := State(d.entries, key, value, state == 1, escape);
        assert b == b[..i] + ([c] + b[i + 1..]);
        RunAppend(Start([]), b[..i], [c] + b[i + 1..]);
        RunAppend(before, [c], b[i + 1..]);
        RunByte(before, c);
        assert b[..i + 1] == b[..i] + [c];
        RunAppend(Start([]), b[..i], [c]);
        if escape {
          escape := false;
          var u := if c == ZERO then NUL else if c == LOWER_N then LF
                   else if c == LOWER_R then CR else if c == LOWER_E then EQ else c;
          if state == 0 { key := key + [u]; } else { value := value + [u]; }
        } else if c == BACKSLASH {
          escape := true;
        } else if c == EQ {
          if state != 0 {
            return None;
          }
          state := 1;
        } else if c == LF {
          if state != 1 {
            return None;
          }
          state := 0;
          if key != [] {
            if !Utf8.Valid(key) {
              return None;
            }
            d.SetBytes(key, value);
          }
          key := [];
          value := [];
        } else if c != CR {
          if state == 0 { key := key + [c]; } else { value := value + [c]; }
        }
      }
      assert b[..|b|] == b;
      AcceptedMapping(b);
      return Some(d);
    }
  }
}
