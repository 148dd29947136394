/** Bytes of memory, and native little-endian words stored in them. */
module Memory {
  import opened Arithmetic
  import opened Bits
  import Seqs

  type Mem = seq<byte>

  /** `v` in `n` bytes, least significant first. */
  function Le(v: nat, n: nat): (b: seq<byte>)
    ensures |b| == n
  {
    if n == 0 then [] else [v % 256] + Le(v / 256, n - 1)
  }

  function LeValue(b: seq<byte>): nat {
    if b == [] then 0 else b[0] as int + 256 * LeValue(b[1..])
  }

  lemma {:induction false} LeRoundTrip(v: nat, n: nat)
    requires v < Pow2(8 * n)
    ensures LeValue(Le(v, n)) == v
  {
    if n == 0 {
    } else {
      Pow2Add(8, 8 * (n - 1));
      Pow2Small();
      LeRoundTrip(v / 256, n - 1);
      Seqs.Parts([v % 256], Le(v / 256, n - 1));
    }
  }

  /** The bytes of a word, the least significant first. */
  lemma {:induction false} LeByte(v: nat, n: nat, i: nat)
    requires i < n
    ensures Le(v, n)[i] == Quotient(v, Pow2(8 * i)) % 256
  {
    if i == 0 {
    } else {
      LeByte(v / 256, n - 1, i - 1);
      Pow2Small();
      Pow2Add(8, 8 * (i - 1));
      DivideTwice(v, 256, Pow2(8 * (i - 1)));
    }
  }

  /** The word of `n` bytes at `at`. */
  function Load(m: Mem, at: nat, n: nat): nat
    requires at + n <= |m|
  {
    LeValue(m[at..at + n])
  }

  function Store(m: Mem, at: nat, n: nat, v: nat): (r: Mem)
    requires at + n <= |m|
    ensures |r| == |m|
  {
    Seqs.Splice(m, at, Le(v, n))
  }

  /** A store is read back from its place and leaves the words beside it alone. */
  lemma LoadStore(m: Mem, at: nat, n: nat, v: nat, from: nat, k: nat)
    requires at + n <= |m| && from + k <= |m|
    ensures from == at && k == n && v < Pow2(8 * n) ==> Load(Store(m, at, n, v), from, k) == v
    ensures from + k <= at || at + n <= from ==> Load(Store(m, at, n, v), from, k) == Load(m, from, k)
  {
    Seqs.SplicePart(m, at, Le(v, n), from, k);
    if v < Pow2(8 * n) {
      LeRoundTrip(v, n);
    }
  }

  /** `m'` is `m` with one word set: it reads back, and every word beside it is as before. */
  ghost predicate WordSet(m: Mem, m': Mem, at: nat, n: nat, v: nat) {
    && |m'| == |m| && at + n <= |m|
    && Load(m', at, n) == v
    && forall from: nat, k: nat {:trigger Load(m', from, k)} ::
         from + k <= |m| && (from + k <= at || at + n <= from) ==> Load(m', from, k) == Load(m, from, k)
  }

  lemma StoreSetsWord(m: Mem, at: nat, n: nat, v: nat)
    requires at + n <= |m| && v < Pow2(8 * n)
    ensures WordSet(m, Store(m, at, n, v), at, n, v)
  {
    var m' := Store(m, at, n, v);
    LoadStore(m, at, n, v, at, n);
    forall from: nat, k: nat | from + k <= |m| && (from + k <= at || at + n <= from)
      ensures Load(m', from, k) == Load(m, from, k)
    {
      LoadStore(m, at, n, v, from, k);
    }
  }

  /** So does writing bytes. */
  lemma LoadSplice(m: Mem, at: nat, x: seq<byte>, from: nat, k: nat)
    requires at + |x| <= |m| && from + k <= |m|
    requires from + k <= at || at + |x| <= from
    ensures Load(Seqs.Splice(m, at, x), from, k) == Load(m, from, k)
  {
    Seqs.SplicePart(m, at, x, from, k);
  }

  lemma Widths()
    ensures Pow2(8 * 4) == TWO_32 && Pow2(8 * 8) == TWO_64
  {
    Pow2Of32();
    Pow2Of64();
  }

  /** `copy_nonoverlapping` from a slice into a block. */
  method CopyIn(block: array<byte>, at: nat, x: seq<byte>)
    requires at + |x| <= block.Length
    modifies block
    ensures block[..] == Seqs.Splice(old(block[..]), at, x)
  {
    forall i | 0 <= i < |x| {
      block[at + i] := x[i];
    }
  }

  /** `*p = v` for a word of `n` bytes. */
  method StoreWord(block: array<byte>, at: nat, n: nat, v: nat)
    requires at + n <= block.Length
    modifies block
    ensures block[..] == Store(old(block[..]), at, n, v)
  {
    CopyIn(block, at, Le(v, n));
  }

  /** The same store, described by what is read back. */
  method SetWord(block: array<byte>, at: nat, n: nat, v: nat)
    requires at + n <= block.Length && v < Pow2(8 * n)
    modifies block
    ensures WordSet(old(block[..]), block[..], at, n, v)
  {
    StoreSetsWord(block[..], at, n, v);
    StoreWord(block, at, n, v);
  }

  /** `*p` for a word of `n` bytes. */
  method LoadWord(block: array<byte>, at: nat, n: nat) returns (v: nat)
    requires at + n <= block.Length
    ensures v == Load(block[..], at, n)
  {
    v := Load(block[..], at, n);
  }
}
