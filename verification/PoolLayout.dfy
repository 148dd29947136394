/**
 The block of a buffer pool in flat memory (src/buf.rs): a bookkeeping struct, an array of
 free-buffer pointers, and records of back-pointer, header and data. The block behaves as
 a stack of record numbers and a family of independent bounded byte sequences.
 */
module PoolLayout {
  import opened Bits
  import opened Buffers
  import opened FreeList
  import opened Memory
  import Seqs

  /** The way past `r` things of `size` bytes, one at a time as the filling loop goes. */
  function Skip(r: nat, size: nat): nat {
    if r == 0 then 0 else Skip(r - 1, size) + size
  }

  lemma {:induction false} SkipIsProduct(r: nat, size: nat)
    ensures Skip(r, size) == r * size
  {
    if r == 0 {
    } else {
      SkipIsProduct(r - 1, size);
      assert r * size == (r - 1) * size + size;
    }
  }

  /** Address of the block, size of `PoolInner`, capacity of each buffer, number of buffers. */
  datatype Layout = Layout(base: nat, inner: nat, cap: nat, n: nat) {

    function Slot(k: nat): nat {
      inner + 8 * k
    }

    function PoolEnd(): nat {
      Slot(n)
    }

    function RecordSize(): nat {
      cap + 16
    }

    /** The back-pointer of a record. */
    function Record(r: nat): nat {
      PoolEnd() + Skip(r, RecordSize())
    }

    /** The header of a record, which is what a `Buf` points to. */
    function Header(r: nat): nat {
      Record(r) + 8
    }

    function Total(): nat {
      PoolEnd() + Skip(n, RecordSize())
    }

    /** What `Pool::new` asserts and what the allocator promises about the address. */
    predicate Ok() {
      && MayAllocate(cap) && n > 0
      && inner % 8 == 0 && base > 0 && base % 8 == 0
      && base + Total() < TWO_64
    }
  }

  lemma {:induction false} SkipMonotone(r: nat, s: nat, size: nat)
    requires r <= s
    ensures Skip(r, size) <= Skip(s, size)
  {
    if r == s {
    } else {
      SkipMonotone(r, s - 1, size);
    }
  }

  /** Records lie inside the block, one behind the other. */
  lemma RecordsInOrder(l: Layout, r: nat, s: nat)
    requires r < l.n
    ensures l.PoolEnd() <= l.Record(r) && l.Record(r) + l.RecordSize() <= l.Total()
    ensures r < s ==> l.Record(r) + l.RecordSize() <= l.Record(s)
  {
    SkipMonotone(r + 1, l.n, l.RecordSize());
    if r < s {
      SkipMonotone(r + 1, s, l.RecordSize());
    }
  }

  /** The block is exactly as big as the size computed for it. */
  lemma BlockSize(l: Layout)
    ensures l.Total() == l.inner + 8 * l.n + (l.cap + 8 + 8) * l.n
  {
    SkipIsProduct(l.n, l.RecordSize());
  }

  lemma Sum8(x: nat, y: nat)
    requires x % 8 == 0 && y % 8 == 0
    ensures (x + y) % 8 == 0
  {
  }

  lemma {:induction false} SkipAligned(r: nat, size: nat)
    requires size % 8 == 0
    ensures Skip(r, size) % 8 == 0
  {
    if r == 0 {
    } else {
      SkipAligned(r - 1, size);
      Sum8(Skip(r - 1, size), size);
    }
  }

  /** Every slot, back-pointer and header is at an address divisible by eight. */
  lemma Aligned(l: Layout, r: nat, k: nat)
    requires l.Ok()
    ensures (l.base + l.Slot(k)) % 8 == 0
    ensures (l.base + l.Record(r)) % 8 == 0 && (l.base + l.Header(r)) % 8 == 0
  {
    var x := Skip(r, l.RecordSize());
    SkipAligned(r, l.RecordSize());
    Sum8(l.base, l.inner);
    Sum8(l.base + l.inner, 8 * k);
    Sum8(l.base + l.inner, 8 * l.n);
    Sum8(l.base + l.inner + 8 * l.n, x);
    Sum8(l.base + l.inner + 8 * l.n + x, 8);
  }

  // ---------------------------------------------------------------------------------
  // What the block holds
  // ---------------------------------------------------------------------------------

  ghost predicate RecordOk(m: Mem, l: Layout, r: nat)
    requires l.Record(r) + l.RecordSize() <= |m|
  {
    && Load(m, l.Record(r), 8) == l.base
    && Load(m, l.Header(r) + 4, 4) == POOLED_FLAG + l.cap
    && Load(m, l.Header(r), 4) <= l.cap
  }

  ghost predicate Shaped(m: Mem, l: Layout) {
    && l.Ok() && |m| == l.Total()
    && forall r: nat :: r < l.n ==> l.Record(r) + l.RecordSize() <= |m| && RecordOk(m, l, r)
  }

  lemma RecordIsBuf(m: Mem, l: Layout, r: nat)
    requires Shaped(m, l) && r < l.n
    ensures IsBuf(m, l.Header(r)) && Capacity(m, l.Header(r)) == l.cap && Pooled(m, l.Header(r))
    ensures l.Header(r) + HEADER_SIZE + l.cap == l.Record(r) + l.RecordSize()
  {
    assert RecordOk(m, l, r);
  }

  ghost function RecordData(m: Mem, l: Layout, r: nat): seq<byte>
    requires Shaped(m, l) && r < l.n
  {
    RecordIsBuf(m, l, r);
    Data(m, l.Header(r))
  }

  /** The first slots hold the addresses of the free records, in order. */
  ghost predicate Stack(m: Mem, l: Layout, free: seq<nat>)
    requires l.Slot(l.n) <= |m|
  {
    && |free| <= l.n
    && forall k :: 0 <= k < |free| ==> Load(m, l.Slot(k), 8) == l.base + l.Header(free[k])
  }

  /**
   The invariant of the block while `free` is the free stack and `out` the records handed
   out: each record is one or the other, and the free ones are empty.
   */
  ghost predicate PoolInv(m: Mem, l: Layout, free: seq<nat>, out: multiset<nat>) {
    && Shaped(m, l)
    && SharedOut(l.n, free, out)
    && Stack(m, l, free)
    && forall k :: 0 <= k < |free| ==> free[k] < l.n && RecordData(m, l, free[k]) == []
  }

  // ---------------------------------------------------------------------------------
  // Frames
  // ---------------------------------------------------------------------------------

  /** A record whose bytes did not change is as before. */
  lemma RecordUntouched(m: Mem, m': Mem, l: Layout, r: nat)
    requires Shaped(m, l) && r < l.n && |m'| == |m|
    requires forall i :: l.Record(r) <= i < l.Record(r) + l.RecordSize() ==> m'[i] == m[i]
    ensures l.Record(r) + l.RecordSize() <= |m'| && RecordOk(m', l, r)
    ensures IsBuf(m', l.Header(r)) && Data(m', l.Header(r)) == RecordData(m, l, r)
  {
    var a, h := l.Record(r), l.Header(r);
    RecordIsBuf(m, l, r);
    assert m'[a..a + 8] == m[a..a + 8];
    assert m'[h..h + 4] == m[h..h + 4];
    assert m'[h + 4..h + 4 + 4] == m[h + 4..h + 4 + 4];
    assert RecordOk(m, l, r);
    var n := Len(m, h);
    assert m'[h + 8..h + 8 + n] == m[h + 8..h + 8 + n];
  }

  ghost predicate OthersSame(m: Mem, m': Mem, l: Layout, r: nat)
    requires Shaped(m, l) && Shaped(m', l)
  {
    forall s: nat :: s < l.n && s != r ==> RecordData(m', l, s) == RecordData(m, l, s)
  }

  /** A buffer changed inside its record leaves the shape and the other records alone. */
  lemma OnlyOneRecord(m: Mem, m': Mem, l: Layout, r: nat, d: seq<byte>)
    requires Shaped(m, l) && r < l.n
    requires IsBuf(m, l.Header(r)) && Became(m, m', l.Header(r), d)
    ensures Shaped(m', l)
    ensures RecordData(m', l, r) == d
    ensures OthersSame(m, m', l, r)
    ensures m'[..l.PoolEnd()] == m[..l.PoolEnd()]
  {
    RecordsInOrder(l, r, r);
    RecordIsBuf(m, l, r);
    assert m'[l.Record(r)..l.Record(r) + 8] == m[l.Record(r)..l.Record(r) + 8];
    assert RecordOk(m, l, r) && RecordOk(m', l, r);
    forall s: nat | s < l.n && s != r
      ensures l.Record(s) + l.RecordSize() <= |m'| && RecordOk(m', l, s)
      ensures IsBuf(m', l.Header(s)) && Data(m', l.Header(s)) == RecordData(m, l, s)
    {
      RecordsInOrder(l, s, r);
      RecordsInOrder(l, r, s);
      RecordUntouched(m, m', l, s);
    }
  }

  lemma StackUntouched(m: Mem, m': Mem, l: Layout, free: seq<nat>)
    requires l.Slot(l.n) <= |m| && |m'| == |m| && Stack(m, l, free)
    requires m'[..l.PoolEnd()] == m[..l.PoolEnd()]
    ensures Stack(m', l, free)
  {
    forall k | 0 <= k < |free| ensures Load(m', l.Slot(k), 8) == Load(m, l.Slot(k), 8) {
      var p := l.Slot(k);
      Seqs.TakeSlice(m, 0, |m|, l.PoolEnd());
      assert m'[p..p + 8] == m'[..l.PoolEnd()][p..p + 8];
      assert m[p..p + 8] == m[..l.PoolEnd()][p..p + 8];
    }
  }
}
