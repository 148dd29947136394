/** Lexicographic order on byte strings: the order of `[u8]`, `String` and `BTreeMap` keys. */
module Lex {
  import opened Bits
  import Seqs

  datatype Ordering = Less | Equal | Greater

  function Flip(o: Ordering): Ordering {
    match o
    case Less => Greater
    case Equal => Equal
    case Greater => Less
  }

  /** The comparison of two numbers. */
  function CompareInt(a: int, b: int): Ordering {
    if a < b then Less else if a == b then Equal else Greater
  }

  function Compare(a: seq<byte>, b: seq<byte>): Ordering {
    if a == [] && b == [] then Equal
    else if a == [] then Less
    else if b == [] then Greater
    else if a[0] == b[0] then Compare(a[1..], b[1..])
    else CompareInt(a[0], b[0])
  }

  predicate Lt(a: seq<byte>, b: seq<byte>) {
    Compare(a, b) == Less
  }

  /** `a` is a proper prefix of `b`, or smaller at the first place where they differ. */
  ghost predicate Precedes(a: seq<byte>, b: seq<byte>) {
    || (|a| < |b| && b[..|a|] == a)
    || exists i :: 0 <= i < |a| && i < |b| && a[..i] == b[..i] && a[i] < b[i]
  }

  lemma {:induction false} LtIsPrecedes(a: seq<byte>, b: seq<byte>)
    ensures Lt(a, b) <==> Precedes(a, b)
  {
    if a == [] || b == [] {
      assert a == [] && b != [] ==> b[..0] == [];
    } else if a[0] != b[0] {
      assert a[..0] == b[..0];
      assert forall i :: 0 < i < |a| && i < |b| ==> a[..i][0] != b[..i][0];
      assert |a| < |b| ==> b[..|a|][0] != a[0];
    } else {
      LtIsPrecedes(a[1..], b[1..]);
      PrecedesCons(a, b);
    }
  }

  lemma PrecedesCons(a: seq<byte>, b: seq<byte>)
    requires a != [] && b != [] && a[0] == b[0]
    ensures Precedes(a[1..], b[1..]) <==> Precedes(a, b)
  {
    var x, y := a[1..], b[1..];
    forall i | 0 <= i < |a| && i < |b| && a[..i] == b[..i] && a[i] < b[i] ensures Precedes(x, y) {
      assert x[..i - 1] == a[..i][1..] && y[..i - 1] == b[..i][1..];
      assert x[i - 1] < y[i - 1];
    }
    forall i | 0 <= i < |x| && i < |y| && x[..i] == y[..i] && x[i] < y[i] ensures Precedes(a, b) {
      assert a[..i + 1] == [a[0]] + x[..i] && b[..i + 1] == [b[0]] + y[..i];
      assert a[i + 1] < b[i + 1];
    }
    if |a| < |b| {
      assert b[..|a|] == [b[0]] + y[..|x|];
      Seqs.HeadTail(a);
      assert b[..|a|] == a ==> y[..|x|] == b[..|a|][1..];
    }
  }

  lemma {:induction false} CompareEqual(a: seq<byte>, b: seq<byte>)
    ensures Compare(a, b) == Equal <==> a == b
  {
    if a == [] || b == [] {
    } else {
      CompareEqual(a[1..], b[1..]);
      assert a == [a[0]] + a[1..] && b == [b[0]] + b[1..];
    }
  }

  lemma {:induction false} CompareFlip(a: seq<byte>, b: seq<byte>)
    ensures Compare(b, a) == Flip(Compare(a, b))
  {
    if a == [] || b == [] {
    } else {
      CompareFlip(a[1..], b[1..]);
    }
  }

  lemma {:induction false} LtTransitive(a: seq<byte>, b: seq<byte>, c: seq<byte>)
    requires Lt(a, b) && Lt(b, c)
    ensures Lt(a, c)
  {
    if a == [] || b == [] || c == [] {
    } else if a[0] == b[0] == c[0] {
      LtTransitive(a[1..], b[1..], c[1..]);
    } else {
    }
  }

  /** With first parts of equal length, the second parts matter only when those are equal. */
  lemma {:induction false} CompareConcat(x: seq<byte>, y: seq<byte>, p: seq<byte>, q: seq<byte>)
    requires |x| == |y|
    ensures Compare(x + p, y + q) == if x == y then Compare(p, q) else Compare(x, y)
  {
    if x == [] {
      Seqs.Empty(p);
      Seqs.Empty(q);
    } else {
      Seqs.Tail(x, p);
      Seqs.Tail(y, q);
      CompareConcat(x[1..], y[1..], p, q);
      Seqs.HeadTail(x);
      Seqs.HeadTail(y);
    }
  }
}
