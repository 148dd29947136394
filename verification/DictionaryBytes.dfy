/**
 The key=value format byte by byte, in the numbers that stand in a file: what is written for
 every byte, what every byte means when it is read, and the order of the lines.
 */
module DictionaryBytes {
  import opened Bits
  import opened Wrappers
  import opened Lex
  import opened DictionaryFormat
  import opened DictionaryTheorems
  import Seqs
  import Utf8

  // ---------------------------------------------------------------------------------
  // Writing
  // ---------------------------------------------------------------------------------

  /** NUL, LF, CR, the equals sign and the backslash are written as two bytes, all others as they are. */
  lemma WrittenByte(c: byte)
    ensures Escape([c]) == if c == 0 then [92, 48] else if c == 10 then [92, 110] else if c == 13 then [92, 114]
                           else if c == 61 then [92, 101] else if c == 92 then [92, 92] else [c]
  {
    Seqs.Singleton(c);
    Seqs.Empty(EscapeByte(c));
  }

  /** A byte string is written byte by byte, and an entry as key, 61, value and 10. */
  lemma WrittenEntry(x: seq<byte>, y: seq<byte>, k: seq<byte>, v: seq<byte>)
    ensures Escape(x + y) == Escape(x) + Escape(y)
    ensures Serialize([Entry(k, v)]) == Escape(k) + [61] + Escape(v) + [10]
  {
    EscapeAppend(x, y);
    assert [Entry(k, v)][1..] == [];
  }

  /** A key that another begins with is written first, whichever was set first. */
  lemma ShorterKeyFirst(k: seq<byte>, x: seq<byte>, v: seq<byte>, w: seq<byte>)
    requires x != []
    ensures var lines := Serialize([Entry(k, v)]) + Serialize([Entry(k + x, w)]);
            && Serialize(Insert(Insert([], k, v), k + x, w)) == lines
            && Serialize(Insert(Insert([], k + x, w), k, v)) == lines
  {
    var a, b := Entry(k, v), Entry(k + x, w);
    assert Precedes(k, k + x) by {
      Seqs.Parts(k, x);
    }
    LtIsPrecedes(k, k + x);
    CompareFlip(k, k + x);
    assert Insert(Insert([], k, v), k + x, w) == [a] + [b];
    assert Insert(Insert([], k + x, w), k, v) == [a] + [b];
    SerializeTwo(a, b);
  }

  lemma SerializeTwo(a: Entry, b: Entry)
    ensures Serialize([a] + [b]) == Serialize([a]) + Serialize([b])
  {
    assert ([a] + [b])[1..] == [b] && [a][1..] == [];
    Seqs.Empty(Line(a));
  }

  // ---------------------------------------------------------------------------------
  // Reading
  // ---------------------------------------------------------------------------------

  lemma RunTwo(s: State, x: byte, y: byte)
    requires Step(s, x).Some?
    ensures Run(s, [x, y]) == Step(Step(s, x).value, y)
  {
    assert [x, y][1..] == [y];
    RunByte(Step(s, x).value, y);
  }

  /**
   Behind a backslash 48, 110, 114 and 101 stand for 0, 10, 13 and 61, and every other byte
   stands for itself, in a key and in a value.
   */
  lemma EscapedByteRead(s: State, c: byte)
    requires !s.escape
    ensures var v: byte := if c == 48 then 0 else if c == 110 then 10 else if c == 114 then 13
                           else if c == 101 then 61 else c;
            Run(s, [92, c])
            == Some(if s.inValue then State(s.dict, s.key, s.value + [v], true, false)
                    else State(s.dict, s.key + [v], s.value, false, false))
  {
    RunTwo(s, 92, c);
  }

  /** Any byte but 10, 13, 61 and 92 stands for itself, and 13 for nothing. */
  lemma PlainByteRead(s: State, c: byte)
    requires !s.escape && c != 10 && c != 61 && c != 92
    ensures Run(s, [c])
         == Some(if c == 13 then s
                 else if s.inValue then State(s.dict, s.key, s.value + [c], true, false)
                 else State(s.dict, s.key + [c], s.value, false, false))
  {
    RunByte(s, c);
  }

  /** The first 61 of a line ends its key, a second one is refused, and 10 ends a line that had one. */
  lemma SeparatorRead(s: State)
    requires !s.escape
    ensures Run(s, [61]) == if s.inValue then None else Some(State(s.dict, s.key, s.value, true, false))
    ensures !s.inValue ==> Run(s, [10]) == None
    ensures s.inValue ==>
              Run(s, [10]) == if s.key == [] then Some(State(s.dict, [], [], false, false))
                              else if Utf8.Valid(s.key)
                                then Some(State(Insert(s.dict, s.key, s.value), [], [], false, false))
                              else None
  {
    RunByte(s, 61);
    RunByte(s, 10);
  }

  /** The text of one line whose value is one escaped byte. */
  lemma EscapedValueRead(c: byte)
    ensures var v: byte := if c == 48 then 0 else if c == 110 then 10 else if c == 114 then 13
                           else if c == 101 then 61 else c;
            Parse([107, 61, 92, c, 10]) == Some([Entry([107], [v])])
  {
    var v: byte := if c == 48 then 0 else if c == 110 then 10 else if c == 114 then 13
                   else if c == 101 then 61 else c;
    var s0, s1, s2 := Start([]), State([], [107], [], false, false), State([], [107], [], true, false);
    Seqs.Empty<byte>([107]);
    Seqs.Empty<byte>([v]);
    PlainByteRead(s0, 107);
    SeparatorRead(s1);
    EscapedByteRead(s2, c);
    var s3 := State([], [107], [v], true, false);
    SeparatorRead(s3);
    Utf8.AsciiIsValid([107]);
    assert Run(s0, [107]) == Some(s1) && Run(s1, [61]) == Some(s2) && Run(s2, [92, c]) == Some(s3);
    RunAppend(s0, [107], [61] + ([92, c] + [10]));
    RunAppend(s1, [61], [92, c] + [10]);
    RunAppend(s2, [92, c], [10]);
    assert [107, 61, 92, c, 10] == [107] + ([61] + ([92, c] + [10]));
  }
}
