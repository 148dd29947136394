/** What the dictionary format promises: proofs about the functions of DictionaryFormat. */
module DictionaryTheorems {
  import opened Bits
  import opened Wrappers
  import opened Lex
  import opened DictionaryFormat
  import Maps
  import Seqs
  import Utf8

  // ---------------------------------------------------------------------------------
  // The one-pass parser is the two-stage specification
  // ---------------------------------------------------------------------------------

  function TokenStep(s: State, t: Token): Option<State> {
    match t
    case Escaped(c) => Some(s.Push(UnescapeByte(c)))
    case Plain(c) =>
      if c == EQ then (if s.inValue then None else Some(s.(inValue := true)))
      else if c == LF then EndOfLine(s)
      else if c == CR then Some(s)
      else Some(s.Push(c))
  }

  function TokenRun(s: State, t: seq<Token>): Option<State>
    decreases t
  {
    if t == [] then Some(s)
    else match TokenStep(s, t[0])
         case None => None
         case Some(u) => TokenRun(u, t[1..])
  }

  lemma {:induction false} TokenRunAppend(s: State, x: seq<Token>, y: seq<Token>)
    ensures TokenRun(s, x + y) == (match TokenRun(s, x) case None => None case Some(u) => TokenRun(u, y))
    decreases x
  {
    if x == [] {
      Seqs.Empty(y);
    } else {
      Seqs.Tail(x, y);
      match TokenStep(s, x[0])
      case None =>
      case Some(u) => TokenRunAppend(u, x[1..], y);
    }
  }

  /** The escape flag does the pairing of escapes. */
  lemma {:induction false} RunIsTokenRun(s: State, b: seq<byte>)
    requires !s.escape
    ensures Dict(Run(s, b)) == Dict(TokenRun(s, Tokens(b)))
    decreases b
  {
    if b == [] {
    } else if b[0] != BACKSLASH {
      match Step(s, b[0])
      case None =>
      case Some(t) => RunIsTokenRun(t, b[1..]);
    } else if |b| == 1 {
      assert Run(s.(escape := true), b[1..]) == Some(s.(escape := true));
    } else {
      var t := s.(escape := true);
      var u := s.Push(UnescapeByte(b[1]));
      assert Step(t, b[1]) == Some(u);
      assert b[1..][1..] == b[2..];
      assert Run(s, b) == Run(u, b[2..]);
      RunIsTokenRun(u, b[2..]);
      assert Tokens(b)[1..] == Tokens(b[2..]);
    }
  }

  lemma {:induction false} TokenRunField(s: State, t: seq<Token>)
    requires !s.escape && Plain(EQ) !in t && Plain(LF) !in t
    ensures TokenRun(s, t) == Some(s.PushAll(Unescape(t)))
    decreases t
  {
    if t == [] {
      Seqs.Empty(s.key);
      Seqs.Empty(s.value);
    } else {
      Seqs.HeadTail(t);
      TokenRunField(TokenStep(s, t[0]).value, t[1..]);
      PushTwice(s, TokenBytes(t[0]), Unescape(t[1..]));
    }
  }

  lemma PushTwice(s: State, x: seq<byte>, y: seq<byte>)
    ensures s.PushAll(x).PushAll(y) == s.PushAll(x + y)
    ensures forall c: byte :: s.PushAll([c]) == s.Push(c)
    ensures s.PushAll([]) == s
  {
    Seqs.Assoc(s.key, x, y);
    Seqs.Assoc(s.value, x, y);
    Seqs.Empty(s.key);
    Seqs.Empty(s.value);
  }

  lemma CountSplit(t: seq<Token>, x: Token)
    ensures var i := IndexOf(t, x);
            && (i == |t| <==> Count(t, x) == 0)
            && (i < |t| ==> Count(t, x) == 1 + Count(t[i + 1..], x))
  {
    var i := IndexOf(t, x);
    if i < |t| {
      assert t == t[..i] + [x] + t[i + 1..];
    } else {
      assert t[..i] == t;
    }
  }

  lemma TokenRunValue(dict: seq<Entry>, key: seq<byte>, rest: seq<Token>)
    requires Plain(LF) !in rest
    ensures TokenRun(State(dict, key, [], true, false), rest)
         == if Plain(EQ) in rest then None else Some(State(dict, key, Unescape(rest), true, false))
  {
    var mid := State(dict, key, [], true, false);
    var j := IndexOf(rest, Plain(EQ));
    TokenRunField(mid, rest[..j]);
    if j == |rest| {
      assert rest[..j] == rest;
      assert [] + Unescape(rest) == Unescape(rest);
    } else {
      assert rest == rest[..j] + rest[j..];
      TokenRunAppend(mid, rest[..j], rest[j..]);
    }
  }

  lemma TokenRunKey(dict: seq<Entry>, line: seq<Token>)
    requires Plain(LF) !in line && Plain(EQ) in line
    ensures TokenRun(Start(dict), line)
         == TokenRun(State(dict, KeyOf(line), [], true, false), line[IndexOf(line, Plain(EQ)) + 1..])
  {
    var i := IndexOf(line, Plain(EQ));
    assert line[..|line|] == line;
    TokenRunField(Start(dict), line[..i]);
    assert line == line[..i] + line[i..];
    TokenRunAppend(Start(dict), line[..i], line[i..]);
    assert line[i..][1..] == line[i + 1..];
    assert Start(dict).PushAll(KeyOf(line)) == State(dict, KeyOf(line), [], false, false);
  }

  /** A line without its newline: zero, one, or more unescaped equals signs. */
  lemma TokenRunFields(dict: seq<Entry>, line: seq<Token>)
    requires Plain(LF) !in line
    ensures TokenRun(Start(dict), line)
         == if Count(line, Plain(EQ)) == 0 then Some(Start(dict).PushAll(Unescape(line)))
            else if Count(line, Plain(EQ)) == 1 then Some(State(dict, KeyOf(line), ValueOf(line), true, false))
            else None
  {
    CountSplit(line, Plain(EQ));
    if Plain(EQ) !in line {
      TokenRunField(Start(dict), line);
    } else {
      var rest := line[IndexOf(line, Plain(EQ)) + 1..];
      TokenRunKey(dict, line);
      TokenRunValue(dict, KeyOf(line), rest);
    }
  }

  lemma TokenRunLine(dict: seq<Entry>, line: seq<Token>)
    requires Plain(LF) !in line
    ensures TokenRun(Start(dict), line + [Plain(LF)])
         == if LineOk(line) then Some(Start(AddLine(dict, line))) else None
  {
    TokenRunFields(dict, line);
    TokenRunAppend(Start(dict), line, [Plain(LF)]);
    if TokenRun(Start(dict), line).Some? {
      var u := TokenRun(Start(dict), line).value;
      assert TokenRun(u, [Plain(LF)]) == EndOfLine(u) by {
        if EndOfLine(u).Some? { assert [Plain(LF)][1..] == []; }
      }
    }
  }

  lemma FirstLine(t: seq<Token>)
    requires IndexOf(t, Plain(LF)) < |t|
    ensures CompleteLines(t) == [t[..IndexOf(t, Plain(LF))]] + CompleteLines(t[IndexOf(t, Plain(LF)) + 1..])
    ensures Unfinished(t) == Unfinished(t[IndexOf(t, Plain(LF)) + 1..])
  {
  }

  lemma SpecifiedCons(dict: seq<Entry>, t: seq<Token>, line: seq<Token>, rest: seq<Token>)
    requires CompleteLines(t) == [line] + CompleteLines(rest) && Unfinished(t) == Unfinished(rest)
    ensures Specified(dict, t) == if LineOk(line) then Specified(AddLine(dict, line), rest) else None
  {
    LinesCons(dict, line, CompleteLines(rest));
  }

  lemma LinesCons(dict: seq<Entry>, line: seq<Token>, rest: seq<seq<Token>>)
    ensures LinesOk([line] + rest) <==> LineOk(line) && LinesOk(rest)
    ensures AddLines(dict, [line] + rest) == AddLines(AddLine(dict, line), rest)
  {
    Seqs.Parts([line], rest);
  }

  lemma {:induction false} TokenRunIsSpecified(dict: seq<Entry>, t: seq<Token>)
    ensures Dict(TokenRun(Start(dict), t)) == Specified(dict, t)
    decreases |t|
  {
    var n := IndexOf(t, Plain(LF));
    if n == |t| {
      assert t[..n] == t;
      TokenRunFields(dict, t);
    } else {
      var line, rest := t[..n], t[n + 1..];
      assert t == (line + [Plain(LF)]) + rest;
      TokenRunLine(dict, line);
      TokenRunAppend(Start(dict), line + [Plain(LF)], rest);
      FirstLine(t);
      SpecifiedCons(dict, t, line, rest);
      if LineOk(line) {
        TokenRunIsSpecified(AddLine(dict, line), rest);
      }
    }
  }

  /** The parser's single pass computes what the two-stage specification says. */
  lemma OnePassIsTwoStage(b: seq<byte>)
    ensures Parse(b) == Specified([], Tokens(b))
  {
    RunIsTokenRun(Start([]), b);
    TokenRunIsSpecified([], Tokens(b));
  }

  lemma {:induction false} LinesOkMeans(lines: seq<seq<Token>>)
    ensures LinesOk(lines) <==> forall l :: l in lines ==> LineOk(l)
  {
    if lines == [] {
    } else {
      LinesOkMeans(lines[1..]);
      Seqs.HeadTail(lines);
    }
  }

  /** The three ways in which input can be wrong. */
  ghost predicate Malformed(b: seq<byte>) {
    var lines, last := CompleteLines(Tokens(b)), Unfinished(Tokens(b));
    || (exists l :: l in lines && Count(l, Plain(EQ)) == 0)
    || (exists l :: l in lines + [last] && Count(l, Plain(EQ)) >= 2)
    || (exists l :: l in lines && KeyOf(l) != [] && !Utf8.Valid(KeyOf(l)))
  }

  lemma RejectsExactlyMalformed(b: seq<byte>)
    ensures Parse(b).None? <==> Malformed(b)
  {
    OnePassIsTwoStage(b);
    var lines, last := CompleteLines(Tokens(b)), Unfinished(Tokens(b));
    LinesOkMeans(lines);
    if Count(last, Plain(EQ)) >= 2 {
      assert last in lines + [last];
    }
    assert forall l :: l in lines ==> l in lines + [last];
    assert forall l :: l in lines + [last] ==> l in lines || l == last;
  }

  /** The entries of the lines that have a key, in the order of the lines. */
  function LineEntries(lines: seq<seq<Token>>): seq<Entry> {
    if lines == [] then []
    else (if KeyOf(lines[0]) == [] then [] else [Entry(KeyOf(lines[0]), ValueOf(lines[0]))])
         + LineEntries(lines[1..])
  }

  lemma {:induction false} AddLinesMap(dict: seq<Entry>, lines: seq<seq<Token>>)
    requires Sorted(dict)
    ensures Sorted(AddLines(dict, lines))
    ensures ToMap(AddLines(dict, lines)) == ToMap(dict) + ToMap(LineEntries(lines))
    decreases lines
  {
    if lines == [] {
    } else {
      var k, v := KeyOf(lines[0]), ValueOf(lines[0]);
      if k == [] {
        Seqs.Empty(LineEntries(lines[1..]));
      } else {
        InsertSorted(dict, k, v);
        InsertMap(dict, k, v);
        Seqs.Parts([Entry(k, v)], LineEntries(lines[1..]));
        Maps.OverrideTwice(ToMap(dict), ToMap(LineEntries(lines[1..])), k, v);
      }
      AddLinesMap(AddLine(dict, lines[0]), lines[1..]);
    }
  }

  /** An accepted input means: the last value given for each non-empty key. */
  lemma AcceptedMapping(b: seq<byte>)
    requires Parse(b).Some?
    ensures IsDict(Parse(b).value)
    ensures ToMap(Parse(b).value) == ToMap(LineEntries(CompleteLines(Tokens(b))))
    ensures [] !in ToMap(Parse(b).value)
  {
    OnePassIsTwoStage(b);
    var none: seq<Entry>, lines := [], CompleteLines(Tokens(b));
    AddLinesMap(none, lines);
    Maps.Empty(ToMap(LineEntries(lines)));
    ParsedKeys(b);
  }

  lemma ParsedKeys(b: seq<byte>)
    requires Parse(b).Some?
    ensures IsDict(Parse(b).value)
    ensures [] !in ToMap(Parse(b).value)
  {
    RunKeepsDict(Start([]), b);
    KeyInMap(Parse(b).value, []);
  }

  /** `b` without its carriage returns, except those behind a backslash. */
  function StripCR(b: seq<byte>): seq<byte> {
    if b == [] then []
    else if b[0] == BACKSLASH then (if |b| == 1 then b else b[..2] + StripCR(b[2..]))
    else (if b[0] == CR then [] else [b[0]]) + StripCR(b[1..])
  }

  lemma {:induction false} StripCRTokens(b: seq<byte>)
    ensures forall s: State :: !s.escape ==> TokenRun(s, Tokens(StripCR(b))) == TokenRun(s, Tokens(b))
    decreases |b|
  {
    if b == [] {
    } else if b[0] == BACKSLASH {
      if |b| > 1 {
        StripCRTokens(b[2..]);
        assert StripCR(b)[2..] == StripCR(b[2..]);
        assert Tokens(b)[1..] == Tokens(b[2..]);
        assert Tokens(StripCR(b))[1..] == Tokens(StripCR(b[2..]));
      }
    } else {
      StripCRTokens(b[1..]);
      assert Tokens(b)[1..] == Tokens(b[1..]);
      if b[0] == CR {
        assert StripCR(b) == StripCR(b[1..]);
      } else {
        assert StripCR(b)[1..] == StripCR(b[1..]);
        assert Tokens(StripCR(b))[1..] == Tokens(StripCR(b[1..]));
      }
    }
  }

  /** Unescaped carriage returns never matter, wherever they stand. */
  lemma CarriageReturnsIgnored(b: seq<byte>)
    ensures Parse(StripCR(b)) == Parse(b)
  {
    RunIsTokenRun(Start([]), b);
    RunIsTokenRun(Start([]), StripCR(b));
    StripCRTokens(b);
  }

  // ---------------------------------------------------------------------------------
  // Round trips
  // ---------------------------------------------------------------------------------

  lemma RunByte(s: State, c: byte)
    ensures Run(s, [c]) == Step(s, c)
  {
    assert [c][1..] == [];
  }

  lemma RunEscapedByte(s: State, c: byte)
    requires !s.escape
    ensures Run(s, EscapeByte(c)) == Some(s.Push(c))
  {
    var p := EscapeByte(c);
    RunByte(s, p[0]);
    if |p| == 2 {
      assert p == [p[0]] + [p[1]];
      RunAppend(s, [p[0]], [p[1]]);
      RunByte(s.(escape := true), p[1]);
    }
  }

  lemma {:induction false} RunEscape(s: State, x: seq<byte>)
    requires !s.escape
    ensures Run(s, Escape(x)) == Some(s.PushAll(x))
    decreases x
  {
    if x == [] {
      PushTwice(s, [], []);
    } else {
      RunAppend(s, EscapeByte(x[0]), Escape(x[1..]));
      RunEscapedByte(s, x[0]);
      RunEscape(s.Push(x[0]), x[1..]);
      PushTwice(s, [x[0]], x[1..]);
      Seqs.HeadTail(x);
    }
  }

  function LineBody(kv: Entry): seq<byte> {
    Escape(kv.key) + [EQ] + Escape(kv.value)
  }

  lemma RunLineBody(dict: seq<Entry>, kv: Entry)
    ensures Run(Start(dict), LineBody(kv)) == Some(State(dict, kv.key, kv.value, true, false))
  {
    var s, k, v := Start(dict), Escape(kv.key), Escape(kv.value);
    Seqs.Assoc(k, [EQ], v);
    RunAppend(s, k, [EQ] + v);
    RunEscape(s, kv.key);
    Seqs.Empty(kv.key);
    Seqs.Empty(kv.value);
    var t := State(dict, kv.key, [], false, false);
    RunAppend(t, [EQ], v);
    RunByte(t, EQ);
    RunEscape(t.(inValue := true), kv.value);
  }

  function AddEntry(dict: seq<Entry>, kv: Entry): seq<Entry> {
    if kv.key == [] then dict else Insert(dict, kv.key, kv.value)
  }

  function AddEntries(dict: seq<Entry>, e: seq<Entry>): seq<Entry>
    decreases e
  {
    if e == [] then dict else AddEntries(AddEntry(dict, e[0]), e[1..])
  }

  lemma RunLine(dict: seq<Entry>, kv: Entry)
    requires Utf8.Valid(kv.key)
    ensures Run(Start(dict), Line(kv)) == Some(Start(AddEntry(dict, kv)))
  {
    RunLineBody(dict, kv);
    assert Line(kv) == LineBody(kv) + [LF];
    RunAppend(Start(dict), LineBody(kv), [LF]);
    RunByte(State(dict, kv.key, kv.value, true, false), LF);
  }

  lemma {:induction false} RunSerialized(dict: seq<Entry>, e: seq<Entry>)
    requires forall i :: 0 <= i < |e| ==> Utf8.Valid(e[i].key)
    ensures Run(Start(dict), Serialize(e)) == Some(Start(AddEntries(dict, e)))
    decreases e
  {
    if e == [] {
    } else {
      RunLine(dict, e[0]);
      RunAppend(Start(dict), Line(e[0]), Serialize(e[1..]));
      RunSerialized(AddEntry(dict, e[0]), e[1..]);
    }
  }

  /** The entries whose key is not empty. */
  function Keyed(e: seq<Entry>): seq<Entry> {
    if e == [] then [] else (if e[0].key == [] then [] else [e[0]]) + Keyed(e[1..])
  }

  lemma {:induction false} InsertLast(e: seq<Entry>, k: seq<byte>, v: seq<byte>)
    requires forall i :: 0 <= i < |e| ==> Lt(e[i].key, k)
    ensures Insert(e, k, v) == e + [Entry(k, v)]
  {
    if e == [] {
    } else {
      CompareFlip(e[0].key, k);
      InsertLast(e[1..], k, v);
    }
  }

  lemma {:induction false} AddSortedEntries(dict: seq<Entry>, e: seq<Entry>)
    requires Sorted(dict + e)
    ensures AddEntries(dict, e) == dict + Keyed(e)
    decreases e
  {
    if e == [] {
    } else {
      var kv, rest := e[0], e[1..];
      Seqs.HeadTail(e);
      Seqs.Assoc(dict, [kv], rest);
      Seqs.Assoc(dict, [kv], Keyed(rest));
      Seqs.Empty(Keyed(rest));
      if kv.key == [] {
        SortedWithout(dict, kv, rest);
        AddSortedEntries(dict, rest);
      } else {
        SortedPrefix(dict, kv, rest);
        InsertLast(dict, kv.key, kv.value);
        AddSortedEntries(dict + [kv], rest);
      }
    }
  }

  lemma SortedPrefix(dict: seq<Entry>, kv: Entry, rest: seq<Entry>)
    requires Sorted(dict + [kv] + rest)
    ensures forall i :: 0 <= i < |dict| ==> Lt(dict[i].key, kv.key)
  {
    var f := dict + [kv] + rest;
    assert forall i :: 0 <= i < |dict| ==> f[i] == dict[i];
    assert f[|dict|] == kv;
  }

  lemma SortedWithout(dict: seq<Entry>, kv: Entry, rest: seq<Entry>)
    requires Sorted(dict + [kv] + rest)
    ensures Sorted(dict + rest)
  {
    var f, g := dict + [kv] + rest, dict + rest;
    assert forall i :: 0 <= i < |g| ==> g[i] == f[if i < |dict| then i else i + 1];
  }

  lemma {:induction false} KeyedMap(e: seq<Entry>)
    ensures ToMap(Keyed(e)) == ToMap(e) - {[]}
  {
    if e == [] {
    } else {
      KeyedMap(e[1..]);
      Maps.RemoveKey(ToMap(e[1..]), e[0].key, e[0].value, []);
      Seqs.Empty(Keyed(e[1..]));
      Seqs.Parts([e[0]], Keyed(e[1..]));
    }
  }

  /** Serializing and parsing gives back every entry except that of the empty key. */
  lemma RoundTrip(e: seq<Entry>)
    requires IsDict(e)
    ensures Parse(Serialize(e)) == Some(Keyed(e))
    ensures ToMap(Keyed(e)) == ToMap(e) - {[]}
  {
    RunSerialized([], e);
    Seqs.Empty(e);
    Seqs.Empty(Keyed(e));
    AddSortedEntries([], e);
    KeyedMap(e);
  }

  lemma {:induction false} KeyedIdentity(e: seq<Entry>)
    requires forall i :: 0 <= i < |e| ==> e[i].key != []
    ensures Keyed(e) == e
  {
    if e == [] {
    } else {
      KeyedIdentity(e[1..]);
    }
  }

  /** The round trip is the identity on exactly the dictionaries without an empty key. */
  lemma RoundTripIdentity(e: seq<Entry>)
    requires IsDict(e)
    ensures Parse(Serialize(e)) == Some(e) <==> [] !in ToMap(e)
  {
    RoundTrip(e);
    KeyInMap(e, []);
    if [] !in ToMap(e) {
      KeyedIdentity(e);
    }
  }

  /** Whatever parsing accepts, serializing its result and parsing again changes nothing. */
  lemma ParsedIsFixedPoint(b: seq<byte>)
    requires Parse(b).Some?
    ensures Parse(Serialize(Parse(b).value)) == Parse(b)
  {
    AcceptedMapping(b);
    RoundTripIdentity(Parse(b).value);
  }

  // ---------------------------------------------------------------------------------
  // Truncation and concatenation
  // ---------------------------------------------------------------------------------

  function LineCount(b: seq<byte>): nat {
    multiset(b)[LF]
  }

  lemma {:induction false} EscapeHasNoNewline(x: seq<byte>)
    ensures LF !in Escape(x)
  {
    if x == [] {
    } else {
      EscapeHasNoNewline(x[1..]);
    }
  }

  lemma {:induction false} NoNewlineKeepsDict(s: State, b: seq<byte>)
    requires LF !in b && Run(s, b).Some?
    ensures Run(s, b).value.dict == s.dict
    decreases b
  {
    if b == [] {
    } else {
      Seqs.HeadTail(b);
      NoNewlineKeepsDict(Step(s, b[0]).value, b[1..]);
    }
  }

  lemma PartialLine(dict: seq<Entry>, kv: Entry, n: nat)
    requires n < |Line(kv)|
    ensures LF !in Line(kv)[..n]
    ensures Dict(Run(Start(dict), Line(kv)[..n])) == Some(dict)
  {
    var body := LineBody(kv);
    assert Line(kv)[..n] == body[..n];
    EscapeHasNoNewline(kv.key);
    EscapeHasNoNewline(kv.value);
    assert LF !in body;
    RunLineBody(dict, kv);
    assert body == body[..n] + body[n..];
    RunAppend(Start(dict), body[..n], body[n..]);
    NoNewlineKeepsDict(Start(dict), body[..n]);
  }

  lemma OneNewlinePerLine(kv: Entry)
    ensures LineCount(Line(kv)) == 1
  {
    EscapeHasNoNewline(kv.key);
    EscapeHasNoNewline(kv.value);
  }

  lemma {:induction false} TruncatedFrom(dict: seq<Entry>, e: seq<Entry>, n: nat)
    requires forall i :: 0 <= i < |e| ==> Utf8.Valid(e[i].key)
    requires n <= |Serialize(e)|
    ensures LineCount(Serialize(e)[..n]) <= |e|
    ensures Dict(Run(Start(dict), Serialize(e)[..n]))
         == Some(AddEntries(dict, e[..LineCount(Serialize(e)[..n])]))
    decreases e
  {
    if e == [] {
    } else {
      var line, rest := Line(e[0]), Serialize(e[1..]);
      Seqs.TakeOfSum(line, rest, n);
      if n < |line| {
        PartialLine(dict, e[0], n);
      } else {
        var m := n - |line|;
        OneNewlinePerLine(e[0]);
        LineCountAppend(line, rest[..m]);
        RunLine(dict, e[0]);
        RunAppend(Start(dict), line, rest[..m]);
        TruncatedFrom(AddEntry(dict, e[0]), e[1..], m);
        Seqs.TakeOfSum([e[0]], e[1..], 1 + LineCount(rest[..m]));
        Seqs.HeadTail(e);
        Seqs.Parts([e[0]], e[1..][..LineCount(rest[..m])]);
      }
    }
  }

  lemma LineCountAppend(x: seq<byte>, y: seq<byte>)
    ensures LineCount(x + y) == LineCount(x) + LineCount(y)
  {
  }

  /** A serialized dictionary cut off anywhere parses to its complete lines. */
  lemma Truncation(e: seq<Entry>, n: nat)
    requires IsDict(e) && n <= |Serialize(e)|
    ensures LineCount(Serialize(e)[..n]) <= |e|
    ensures Parse(Serialize(e)[..n]) == Some(Keyed(e[..LineCount(Serialize(e)[..n])]))
  {
    TruncatedFrom([], e, n);
    var f := e[..LineCount(Serialize(e)[..n])];
    Seqs.Empty(f);
    Seqs.Empty(Keyed(f));
    AddSortedEntries([], f);
  }

  lemma InsertOver(d: seq<Entry>, f: seq<Entry>, base: seq<Entry>, k: seq<byte>, v: seq<byte>)
    requires Sorted(d) && Sorted(f)
    requires ToMap(f) == ToMap(base) + ToMap(d)
    ensures Sorted(Insert(d, k, v)) && Sorted(Insert(f, k, v))
    ensures ToMap(Insert(f, k, v)) == ToMap(base) + ToMap(Insert(d, k, v))
  {
    InsertSorted(d, k, v);
    InsertSorted(f, k, v);
    InsertMap(d, k, v);
    InsertMap(f, k, v);
    Maps.UpdateOver(ToMap(base), ToMap(d), k, v);
  }

  lemma StepKeepsDict(s: State, f: seq<Entry>, c: byte)
    requires s.escape || c != LF
    ensures Step(s.(dict := f), c)
         == match Step(s, c) case None => None case Some(u) => Some(u.(dict := f))
    ensures Step(s, c).Some? ==> Step(s, c).value.dict == s.dict
  {
  }

  lemma StepOver(s: State, t: State, base: seq<Entry>, c: byte)
    requires t == s.(dict := t.dict)
    requires Sorted(s.dict) && Sorted(t.dict)
    requires ToMap(t.dict) == ToMap(base) + ToMap(s.dict)
    ensures Step(s, c).Some? <==> Step(t, c).Some?
    ensures Step(s, c).Some? ==>
              var s', t' := Step(s, c).value, Step(t, c).value;
              && t' == s'.(dict := t'.dict)
              && Sorted(s'.dict) && Sorted(t'.dict)
              && ToMap(t'.dict) == ToMap(base) + ToMap(s'.dict)
  {
    if s.escape || c != LF {
      StepKeepsDict(s, t.dict, c);
    } else {
      InsertOver(s.dict, t.dict, base, s.key, s.value);
    }
  }

  /** Two runs that differ in the entries present at the start. */
  lemma {:induction false} RunOver(s: State, t: State, base: seq<Entry>, b: seq<byte>)
    requires t == s.(dict := t.dict)
    requires Sorted(s.dict) && Sorted(t.dict)
    requires ToMap(t.dict) == ToMap(base) + ToMap(s.dict)
    ensures Run(s, b).Some? <==> Run(t, b).Some?
    ensures Run(s, b).Some? ==>
              && Sorted(Run(t, b).value.dict)
              && ToMap(Run(t, b).value.dict) == ToMap(base) + ToMap(Run(s, b).value.dict)
    decreases b
  {
    if b == [] {
    } else if Step(s, b[0]).Some? {
      StepOver(s, t, base, b[0]);
      RunOver(Step(s, b[0]).value, Step(t, b[0]).value, base, b[1..]);
    }
  }

  /** Appending to a serialized dictionary overrides it, and is rejected when the addition is. */
  lemma Concatenation(e: seq<Entry>, y: seq<byte>)
    requires IsDict(e)
    ensures Parse(Serialize(e) + y).Some? <==> Parse(y).Some?
    ensures Parse(y).Some? ==>
              ToMap(Parse(Serialize(e) + y).value) == (ToMap(e) - {[]}) + ToMap(Parse(y).value)
  {
    RoundTrip(e);
    RunSerialized([], e);
    ParsedKeys(Serialize(e));
    RunAppend(Start([]), Serialize(e), y);
    var none: seq<Entry> := [];
    Maps.Empty(ToMap(Keyed(e)));
    RunOver(Start(none), Start(Keyed(e)), Keyed(e), y);
  }

  // ---------------------------------------------------------------------------------
  // Canonical form
  // ---------------------------------------------------------------------------------

  /** An escaped byte can be told from a separator, and from every other escaped byte. */
  lemma EscapedByteHead(c: byte, t: seq<byte>)
    ensures var p, m := EscapeByte(c) + t, |EscapeByte(c)|;
            && |p| >= m && m == (if p[0] == BACKSLASH then 2 else 1)
            && p[0] != EQ && p[0] != LF
            && c == (if p[0] == BACKSLASH then UnescapeByte(p[1]) else p[0])
            && p[m..] == t
  {
    var m := EscapeByte(c);
    Seqs.Parts(m, t);
    Seqs.Front(m, t, 0);
    if |m| == 2 {
      Seqs.Front(m, t, 1);
    }
  }

  lemma EscapeThen(a: seq<byte>, r: seq<byte>)
    requires a != []
    ensures Escape(a) + r == EscapeByte(a[0]) + (Escape(a[1..]) + r)
  {
    Seqs.Assoc(EscapeByte(a[0]), Escape(a[1..]), r);
  }

  /** An escaped field ends at the first separator, so what follows it is determined too. */
  lemma {:induction false} EscapedFieldUnique(a: seq<byte>, b: seq<byte>, c: byte, x: seq<byte>, y: seq<byte>)
    requires c == EQ || c == LF
    requires Escape(a) + ([c] + x) == Escape(b) + ([c] + y)
    ensures a == b && x == y
  {
    var r, u := [c] + x, [c] + y;
    if a == [] {
    } else {
      EscapeThen(a, r);
      EscapedByteHead(a[0], Escape(a[1..]) + r);
    }
    if b != [] {
      EscapeThen(b, u);
      EscapedByteHead(b[0], Escape(b[1..]) + u);
    }
    if a == [] || b == [] {
      Seqs.Empty(r);
      Seqs.Empty(u);
      Seqs.Parts([c], x);
      Seqs.Parts([c], y);
    } else {
      EscapedFieldUnique(a[1..], b[1..], c, x, y);
      Seqs.HeadTail(a);
      Seqs.HeadTail(b);
    }
  }

  lemma LineThen(kv: Entry, x: seq<byte>)
    ensures Line(kv) + x == Escape(kv.key) + ([EQ] + (Escape(kv.value) + ([LF] + x)))
  {
    var k, v := Escape(kv.key), Escape(kv.value);
    Seqs.Assoc(k + [EQ] + v, [LF], x);
    Seqs.Assoc(k + [EQ], v, [LF] + x);
    Seqs.Assoc(k, [EQ], v + ([LF] + x));
  }

  lemma LineUnique(kv: Entry, kw: Entry, x: seq<byte>, y: seq<byte>)
    requires Line(kv) + x == Line(kw) + y
    ensures kv == kw && x == y
  {
    var p, q := Escape(kv.value) + ([LF] + x), Escape(kw.value) + ([LF] + y);
    LineThen(kv, x);
    LineThen(kw, y);
    EscapedFieldUnique(kv.key, kw.key, EQ, p, q);
    EscapedFieldUnique(kv.value, kw.value, LF, x, y);
  }

  /** Serialization loses nothing, not even an empty key that parsing would skip. */
  lemma {:induction false} SerializeInjective(e: seq<Entry>, f: seq<Entry>)
    requires Serialize(e) == Serialize(f)
    ensures e == f
  {
    if e == [] || f == [] {
      assert |Serialize(e)| == |Serialize(f)|;
    } else {
      LineUnique(e[0], f[0], Serialize(e[1..]), Serialize(f[1..]));
      SerializeInjective(e[1..], f[1..]);
      Seqs.HeadTail(e);
      Seqs.HeadTail(f);
    }
  }

  /** The outcome of a series of set calls. */
  function SetAll(e: seq<Entry>, calls: seq<Entry>): seq<Entry>
    decreases calls
  {
    if calls == [] then e else SetAll(Insert(e, calls[0].key, calls[0].value), calls[1..])
  }

  lemma {:induction false} SetAllMap(e: seq<Entry>, calls: seq<Entry>)
    requires Sorted(e)
    ensures Sorted(SetAll(e, calls))
    ensures ToMap(SetAll(e, calls)) == ToMap(e) + ToMap(calls)
    decreases calls
  {
    if calls == [] {
    } else {
      InsertSorted(e, calls[0].key, calls[0].value);
      InsertMap(e, calls[0].key, calls[0].value);
      SetAllMap(Insert(e, calls[0].key, calls[0].value), calls[1..]);
      Maps.OverrideTwice(ToMap(e), ToMap(calls[1..]), calls[0].key, calls[0].value);
    }
  }

  /** Two series of set calls serialize alike exactly when they leave the same mapping. */
  lemma CanonicalForm(calls: seq<Entry>, others: seq<Entry>)
    ensures Serialize(SetAll([], calls)) == Serialize(SetAll([], others)) <==> ToMap(calls) == ToMap(others)
  {
    SetAllMap([], calls);
    SetAllMap([], others);
    if ToMap(calls) == ToMap(others) {
      SortedListingUnique(SetAll([], calls), SetAll([], others));
    } else if Serialize(SetAll([], calls)) == Serialize(SetAll([], others)) {
      SerializeInjective(SetAll([], calls), SetAll([], others));
    }
  }
}
