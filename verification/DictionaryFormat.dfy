/**
 The key=value format of src/dictionary.rs as functions on byte strings: the serializer,
 the one-pass parser as a state machine, and a two-stage specification of what is parsed.
 */
module DictionaryFormat {
  import opened Bits
  import opened Wrappers
  import opened Lex
  import Maps
  import Seqs
  import Utf8

  const NUL: byte := 0
  const LF: byte := 10
  const CR: byte := 13
  const EQ: byte := 61
  const BACKSLASH: byte := 92
  const LOWER_E: byte := 101
  const LOWER_N: byte := 110
  const LOWER_R: byte := 114
  const ZERO: byte := 48

  // ---------------------------------------------------------------------------------
  // Dictionaries: the key order of a BTreeMap, and the mapping it stands for
  // ---------------------------------------------------------------------------------

  datatype Entry = Entry(key: seq<byte>, value: seq<byte>)

  ghost predicate Sorted(e: seq<Entry>) {
    forall i, j :: 0 <= i < j < |e| ==> Lt(e[i].key, e[j].key)
  }

  /** The states a `BTreeMap<String, Vec<u8>>` can be in. */
  ghost predicate IsDict(e: seq<Entry>) {
    && Sorted(e)
    && forall i :: 0 <= i < |e| ==> Utf8.Valid(e[i].key)
  }

  /** The mapping of a list of entries; a later entry overrides an earlier one. */
  function ToMap(e: seq<Entry>): map<seq<byte>, seq<byte>> {
    if e == [] then map[] else map[e[0].key := e[0].value] + ToMap(e[1..])
  }

  /** `BTreeMap::insert`. */
  function Insert(e: seq<Entry>, k: seq<byte>, v: seq<byte>): seq<Entry> {
    if e == [] then [Entry(k, v)]
    else match Compare(k, e[0].key)
         case Less => [Entry(k, v)] + e
         case Equal => [Entry(k, v)] + e[1..]
         case Greater => [e[0]] + Insert(e[1..], k, v)
  }

  lemma {:induction false} InsertBounds(e: seq<Entry>, k: seq<byte>, v: seq<byte>, i: nat)
    requires i < |Insert(e, k, v)|
    ensures Insert(e, k, v)[i] == Entry(k, v) || Insert(e, k, v)[i] in e
  {
    if e != [] && Compare(k, e[0].key) == Greater && i > 0 {
      InsertBounds(e[1..], k, v, i - 1);
      assert Insert(e, k, v)[i] == Insert(e[1..], k, v)[i - 1];
    } else if e != [] && Compare(k, e[0].key) == Less && i > 0 {
      assert Insert(e, k, v)[i] == e[i - 1];
    } else if e != [] && Compare(k, e[0].key) == Equal && i > 0 {
      assert Insert(e, k, v)[i] == e[i];
    }
  }

  lemma {:induction false} InsertSorted(e: seq<Entry>, k: seq<byte>, v: seq<byte>)
    requires Sorted(e)
    ensures Sorted(Insert(e, k, v))
  {
    var r := Insert(e, k, v);
    if e == [] {
    } else {
      CompareEqual(k, e[0].key);
      CompareFlip(k, e[0].key);
      match Compare(k, e[0].key)
      case Less =>
        forall i, j | 0 <= i < j < |r| ensures Lt(r[i].key, r[j].key) {
          assert r[j] == e[j - 1];
          if i == 0 {
            if j > 1 { LtTransitive(k, e[0].key, r[j].key); }
          } else {
            assert r[i] == e[i - 1];
          }
        }
      case Equal =>
        forall i, j | 0 <= i < j < |r| ensures Lt(r[i].key, r[j].key) {
          assert r[i].key == e[i].key && r[j] == e[j];
        }
      case Greater =>
        InsertSorted(e[1..], k, v);
        var t := Insert(e[1..], k, v);
        forall i, j | 0 <= i < j < |r| ensures Lt(r[i].key, r[j].key) {
          assert r[j] == t[j - 1];
          if i == 0 {
            InsertBounds(e[1..], k, v, j - 1);
          } else {
            assert r[i] == t[i - 1];
          }
        }
    }
  }

  lemma {:induction false} InsertIsDict(e: seq<Entry>, k: seq<byte>, v: seq<byte>)
    requires IsDict(e) && Utf8.Valid(k)
    ensures IsDict(Insert(e, k, v))
  {
    InsertSorted(e, k, v);
    forall i | 0 <= i < |Insert(e, k, v)| ensures Utf8.Valid(Insert(e, k, v)[i].key) {
      InsertBounds(e, k, v, i);
    }
  }

  lemma {:induction false} KeyInMap(e: seq<Entry>, k: seq<byte>)
    ensures k in ToMap(e) <==> exists i :: 0 <= i < |e| && e[i].key == k
  {
    if e == [] {
    } else {
      KeyInMap(e[1..], k);
      assert forall i :: 0 < i < |e| ==> e[i] == e[1..][i - 1];
    }
  }

  /** The head of a sorted list is its least key, so the tail does not have it. */
  lemma HeadNotInTail(e: seq<Entry>)
    requires Sorted(e) && e != []
    ensures Sorted(e[1..])
    ensures e[0].key !in ToMap(e[1..])
    ensures ToMap(e[1..]) == ToMap(e) - {e[0].key}
  {
    KeyInMap(e[1..], e[0].key);
    if e[0].key in ToMap(e[1..]) {
      var i :| 0 <= i < |e[1..]| && e[1..][i].key == e[0].key;
      assert Lt(e[0].key, e[i + 1].key);
      CompareEqual(e[0].key, e[0].key);
    }
  }

  /** Insertion is map update. */
  lemma {:induction false} InsertMap(e: seq<Entry>, k: seq<byte>, v: seq<byte>)
    requires Sorted(e)
    ensures ToMap(Insert(e, k, v)) == ToMap(e)[k := v]
  {
    if e == [] {
    } else {
      CompareEqual(k, e[0].key);
      HeadNotInTail(e);
      match Compare(k, e[0].key)
      case Less =>
        InsertBefore(e, k, v);
      case Equal =>
        Seqs.Parts([Entry(k, v)], e[1..]);
      case Greater =>
        InsertMap(e[1..], k, v);
        Seqs.Parts([e[0]], Insert(e[1..], k, v));
        Maps.UpdateOver(map[e[0].key := e[0].value], ToMap(e[1..]), k, v);
    }
  }

  lemma InsertBefore(e: seq<Entry>, k: seq<byte>, v: seq<byte>)
    requires Sorted(e) && e != [] && Compare(k, e[0].key) == Less
    ensures ToMap(Insert(e, k, v)) == ToMap(e)[k := v]
  {
    InsertSorted(e, k, v);
    Seqs.Parts([Entry(k, v)], e);
    HeadNotInTail(Insert(e, k, v));
  }

  lemma MapEmpty(e: seq<Entry>)
    ensures ToMap(e) == map[] <==> e == []
  {
    if e != [] {
      KeyInMap(e, e[0].key);
    }
  }

  /** A mapping has one sorted listing: how it was built leaves no trace. */
  lemma {:induction false} SortedListingUnique(e: seq<Entry>, f: seq<Entry>)
    requires Sorted(e) && Sorted(f)
    requires ToMap(e) == ToMap(f)
    ensures e == f
  {
    if e == [] || f == [] {
      MapEmpty(e);
      MapEmpty(f);
    } else {
      KeyInMap(e, f[0].key);
      KeyInMap(f, e[0].key);
      var i :| 0 <= i < |e| && e[i].key == f[0].key;
      var j :| 0 <= j < |f| && f[j].key == e[0].key;
      CompareFlip(e[0].key, f[0].key);
      assert e[0].key == f[0].key;
      HeadNotInTail(e);
      HeadNotInTail(f);
      assert ToMap(e)[e[0].key] == e[0].value && ToMap(f)[f[0].key] == f[0].value;
      SortedListingUnique(e[1..], f[1..]);
      assert e == [e[0]] + e[1..] && f == [f[0]] + f[1..];
    }
  }

  // ---------------------------------------------------------------------------------
  // The serializer
  // ---------------------------------------------------------------------------------

  function EscapeByte(c: byte): seq<byte> {
    if c == NUL then [BACKSLASH, ZERO]
    else if c == LF then [BACKSLASH, LOWER_N]
    else if c == CR then [BACKSLASH, LOWER_R]
    else if c == EQ then [BACKSLASH, LOWER_E]
    else if c == BACKSLASH then [BACKSLASH, BACKSLASH]
    else [c]
  }

  function Escape(b: seq<byte>): seq<byte> {
    if b == [] then [] else EscapeByte(b[0]) + Escape(b[1..])
  }

  function Line(kv: Entry): seq<byte> {
    Escape(kv.key) + [EQ] + Escape(kv.value) + [LF]
  }

  function Serialize(e: seq<Entry>): seq<byte> {
    if e == [] then [] else Line(e[0]) + Serialize(e[1..])
  }

  lemma {:induction false} EscapeAppend(x: seq<byte>, y: seq<byte>)
    ensures Escape(x + y) == Escape(x) + Escape(y)
  {
    if x == [] {
      Seqs.Empty(y);
      Seqs.Empty(Escape(y));
    } else {
      EscapeAppend(x[1..], y);
      Seqs.Tail(x, y);
      Seqs.Assoc(EscapeByte(x[0]), Escape(x[1..]), Escape(y));
    }
  }

  // ---------------------------------------------------------------------------------
  // The one-pass parser
  // ---------------------------------------------------------------------------------

  /** The local variables of the parsing loop. */
  datatype State = State(dict: seq<Entry>, key: seq<byte>, value: seq<byte>, inValue: bool, escape: bool) {
    function Push(c: byte): State {
      if inValue then this.(value := value + [c]) else this.(key := key + [c])
    }

    function PushAll(x: seq<byte>): State {
      if inValue then this.(value := value + x) else this.(key := key + x)
    }
  }

  function Start(dict: seq<Entry>): State {
    State(dict, [], [], false, false)
  }

  function UnescapeByte(c: byte): byte {
    if c == ZERO then NUL
    else if c == LOWER_N then LF
    else if c == LOWER_R then CR
    else if c == LOWER_E then EQ
    else c
  }

  function EndOfLine(s: State): Option<State> {
    if !s.inValue then None
    else if s.key == [] then Some(Start(s.dict))
    else if Utf8.Valid(s.key) then Some(Start(Insert(s.dict, s.key, s.value)))
    else None
  }

  /** One iteration of the parsing loop; None is the loop returning None. */
  function Step(s: State, c: byte): Option<State> {
    if s.escape then Some(s.Push(UnescapeByte(c)).(escape := false))
    else if c == BACKSLASH then Some(s.(escape := true))
    else if c == EQ then (if s.inValue then None else Some(s.(inValue := true)))
    else if c == LF then EndOfLine(s)
    else if c == CR then Some(s)
    else Some(s.Push(c))
  }

  function Run(s: State, b: seq<byte>): Option<State>
    decreases b
  {
    if b == [] then Some(s)
    else match Step(s, b[0])
         case None => None
         case Some(t) => Run(t, b[1..])
  }

  function Dict(r: Option<State>): Option<seq<Entry>> {
    match r
    case None => None
    case Some(s) => Some(s.dict)
  }

  /** What the parser returns for `b`. */
  function Parse(b: seq<byte>): Option<seq<Entry>> {
    Dict(Run(Start([]), b))
  }

  function Then(r: Option<State>, b: seq<byte>): Option<State> {
    match r
    case None => None
    case Some(t) => Run(t, b)
  }

  lemma {:induction false} RunAppend(s: State, x: seq<byte>, y: seq<byte>)
    ensures Run(s, x + y) == Then(Run(s, x), y)
    decreases x
  {
    if x == [] {
      Seqs.Empty(y);
    } else {
      Seqs.Tail(x, y);
      match Step(s, x[0])
      case None =>
      case Some(t) => RunAppend(t, x[1..], y);
    }
  }

  /** Dictionaries stay sorted, with well-formed and non-empty keys, over every run. */
  lemma {:induction false} RunKeepsDict(s: State, b: seq<byte>)
    requires IsDict(s.dict) && (forall i :: 0 <= i < |s.dict| ==> s.dict[i].key != [])
    requires Run(s, b).Some?
    ensures IsDict(Run(s, b).value.dict)
    ensures forall i :: 0 <= i < |Run(s, b).value.dict| ==> Run(s, b).value.dict[i].key != []
    decreases b
  {
    if b == [] {
    } else {
      var t := Step(s, b[0]).value;
      if t.dict != s.dict {
        InsertIsDict(s.dict, s.key, s.value);
        forall i | 0 <= i < |t.dict| ensures t.dict[i].key != [] {
          InsertBounds(s.dict, s.key, s.value, i);
        }
      }
      RunKeepsDict(t, b[1..]);
    }
  }

  // ---------------------------------------------------------------------------------
  // The two-stage specification: pair escapes, split lines, split fields, unescape
  // ---------------------------------------------------------------------------------

  /** A byte together with the escape in front of it, if there is one. */
  datatype Token = Plain(c: byte) | Escaped(c: byte)

  /** Pair up escapes; a backslash at the very end escapes nothing and is dropped. */
  function Tokens(b: seq<byte>): seq<Token> {
    if b == [] then []
    else if b[0] != BACKSLASH then [Plain(b[0])] + Tokens(b[1..])
    else if |b| == 1 then []
    else [Escaped(b[1])] + Tokens(b[2..])
  }

  /** The position of the first `x`, or the length. */
  function IndexOf(t: seq<Token>, x: Token): (i: nat)
    ensures i <= |t|
    ensures i < |t| ==> t[i] == x
    ensures x !in t[..i]
  {
    if t == [] || t[0] == x then 0
    else
      var i := 1 + IndexOf(t[1..], x);
      assert t[..i] == [t[0]] + t[1..][..i - 1];
      i
  }

  function Count(t: seq<Token>, x: Token): nat {
    multiset(t)[x]
  }

  /** The complete lines, each without its newline. */
  function CompleteLines(t: seq<Token>): seq<seq<Token>> {
    var n := IndexOf(t, Plain(LF));
    if n == |t| then [] else [t[..n]] + CompleteLines(t[n + 1..])
  }

  /** What follows the last newline. */
  function Unfinished(t: seq<Token>): seq<Token> {
    var n := IndexOf(t, Plain(LF));
    if n == |t| then t else Unfinished(t[n + 1..])
  }

  /** The bytes a token stands for; an unescaped CR stands for nothing. */
  function TokenBytes(t: Token): seq<byte> {
    match t
    case Plain(c) => if c == CR then [] else [c]
    case Escaped(c) => [UnescapeByte(c)]
  }

  function Unescape(t: seq<Token>): seq<byte> {
    if t == [] then [] else TokenBytes(t[0]) + Unescape(t[1..])
  }

  function KeyOf(line: seq<Token>): seq<byte> {
    Unescape(line[..IndexOf(line, Plain(EQ))])
  }

  function ValueOf(line: seq<Token>): seq<byte> {
    var i := IndexOf(line, Plain(EQ));
    if i == |line| then [] else Unescape(line[i + 1..])
  }

  predicate LineOk(line: seq<Token>) {
    Count(line, Plain(EQ)) == 1 && (KeyOf(line) == [] || Utf8.Valid(KeyOf(line)))
  }

  function AddLine(dict: seq<Entry>, line: seq<Token>): seq<Entry> {
    if KeyOf(line) == [] then dict else Insert(dict, KeyOf(line), ValueOf(line))
  }

  function AddLines(dict: seq<Entry>, lines: seq<seq<Token>>): seq<Entry>
    decreases lines
  {
    if lines == [] then dict else AddLines(AddLine(dict, lines[0]), lines[1..])
  }

  predicate LinesOk(lines: seq<seq<Token>>) {
    lines == [] || (LineOk(lines[0]) && LinesOk(lines[1..]))
  }

  /** The two-stage specification, started with some entries already present. */
  function Specified(dict: seq<Entry>, t: seq<Token>): Option<seq<Entry>> {
    if LinesOk(CompleteLines(t)) && Count(Unfinished(t), Plain(EQ)) <= 1
    then Some(AddLines(dict, CompleteLines(t)))
    else None
  }
}
