/** Facts about sequences, stated once so that the proofs can name them. */
module Seqs {

  /** `s` with `x` written over it from position `at`. */
  function Splice<T>(s: seq<T>, at: nat, x: seq<T>): (r: seq<T>)
    requires at + |x| <= |s|
    ensures |r| == |s|
    ensures forall i :: 0 <= i < |s| ==> r[i] == if at <= i < at + |x| then x[i - at] else s[i]
  {
    s[..at] + x + s[at + |x|..]
  }

  /** A part that a splice covers exactly, or does not touch. */
  lemma SplicePart<T>(s: seq<T>, at: nat, x: seq<T>, from: nat, n: nat)
    requires at + |x| <= |s| && from + n <= |s|
    ensures from == at && n == |x| ==> Splice(s, at, x)[from..from + n] == x
    ensures from + n <= at || at + |x| <= from ==> Splice(s, at, x)[from..from + n] == s[from..from + n]
  {
  }

  lemma Assoc<T>(a: seq<T>, b: seq<T>, c: seq<T>)
    ensures (a + b) + c == a + (b + c)
  {
  }

  lemma Empty<T>(a: seq<T>)
    ensures a + [] == a && [] + a == a
  {
  }

  lemma HeadTail<T>(a: seq<T>)
    requires a != []
    ensures [a[0]] + a[1..] == a
  {
  }

  /** The tail of a concatenation. */
  lemma Tail<T>(a: seq<T>, b: seq<T>)
    requires a != []
    ensures (a + b)[0] == a[0] && (a + b)[1..] == a[1..] + b
  {
  }

  /** Dropping the first part of a concatenation, or taking it. */
  lemma Parts<T>(a: seq<T>, b: seq<T>)
    ensures (a + b)[|a|..] == b && (a + b)[..|a|] == a
  {
  }

  lemma TakeOfSum<T>(a: seq<T>, b: seq<T>, n: nat)
    requires n <= |a| + |b|
    ensures (a + b)[..n] == if n < |a| then a[..n] else a + b[..n - |a|]
  {
  }

  /** All of the first part and some of the second. */
  lemma TakeInto<T>(a: seq<T>, b: seq<T>, c: seq<T>, k: nat)
    requires k <= |b|
    ensures ((a + b) + c)[..|a| + k] == a + b[..k]
  {
  }

  lemma Front<T>(a: seq<T>, b: seq<T>, i: nat)
    requires i < |a|
    ensures (a + b)[i] == a[i]
  {
  }

  lemma Snoc<T>(a: seq<T>, x: T)
    ensures |a + [x]| == |a| + 1 && (a + [x])[|a|] == x && (a + [x])[..|a|] == a
  {
  }

  lemma InitLast<T>(a: seq<T>)
    requires a != []
    ensures a[..|a| - 1] + [a[|a| - 1]] == a
  {
  }

  lemma InitLastTwo<T>(a: seq<T>)
    requires |a| >= 2
    ensures a[..|a| - 2] + [a[|a| - 2]] + [a[|a| - 1]] == a
  {
  }

  lemma Singleton<T>(x: T)
    ensures [x][1..] == [] && [x][..0] == []
  {
  }

  /** One more element taken. */
  lemma TakeMore<T>(a: seq<T>, i: nat)
    requires i < |a|
    ensures a[..i + 1] == a[..i] + [a[i]]
  {
  }

  lemma TakeAll<T>(a: seq<T>)
    ensures a[..|a|] == a && a[..0] == [] && a[0..] == a
  {
  }

  lemma TakeSlice<T>(a: seq<T>, i: nat, j: nat, n: nat)
    requires i <= j <= |a| && n <= j - i
    ensures a[i..j][..n] == a[i..i + n]
  {
  }

  lemma TwoFields<T>(a: seq<T>, n: nat, k: nat)
    requires |a| >= 1 + n + k
    ensures a[1..][..n + k][..n] == a[1..1 + n] && a[1..][..n + k][n..] == a[1 + n..1 + n + k]
  {
  }

  lemma SplitSlice<T>(a: seq<T>, i: nat, j: nat, k: nat)
    requires i <= j <= k <= |a|
    ensures a[i..k] == a[i..j] + a[j..k]
  {
  }

  lemma TakeDrop<T>(a: seq<T>, i: nat)
    requires i <= |a|
    ensures a[..i] + a[i..] == a
  {
  }

  /** One element dropped after `i` of them. */
  lemma DropMore<T>(a: seq<T>, i: nat)
    requires i < |a|
    ensures a[i..][0] == a[i] && a[i..][1..] == a[i + 1..]
  {
  }
}

/** Facts about map override. */
module Maps {

  lemma OverrideTwice<K, V>(a: map<K, V>, b: map<K, V>, k: K, v: V)
    ensures a[k := v] + b == a + (map[k := v] + b)
  {
  }

  lemma UpdateOver<K, V>(a: map<K, V>, b: map<K, V>, k: K, v: V)
    ensures (a + b)[k := v] == a + b[k := v]
  {
  }

  lemma Empty<K, V>(a: map<K, V>)
    ensures a + map[] == a && map[] + a == a
  {
  }

  /** Removing a key, seen from the other end of an override. */
  lemma RemoveKey<K, V>(b: map<K, V>, k: K, v: V, x: K)
    ensures (map[k := v] + b) - {x} == if k == x then b - {x} else map[k := v] + (b - {x})
  {
  }
}
