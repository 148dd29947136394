/**
 One buffer of src/buf.rs in flat memory: a 32-bit length, a 32-bit capacity whose top bit
 marks pooled buffers, and the data. Every operation acts as an operation on a bounded
 byte sequence and writes nothing outside the length field and the data area.
 */
module Buffers {
  import opened Bits
  import opened Memory
  import opened Wrappers
  import Seqs

  const MAX_CAPACITY: nat := 0x7fff_ffff
  const POOLED_FLAG: nat := 0x8000_0000
  const HEADER_SIZE: nat := 8

  // ---------------------------------------------------------------------------------
  // A buffer in memory
  // ---------------------------------------------------------------------------------

  function Len(m: Mem, off: nat): nat
    requires off + HEADER_SIZE <= |m|
  {
    Load(m, off, 4)
  }

  function Capacity(m: Mem, off: nat): nat
    requires off + HEADER_SIZE <= |m|
  {
    Load(m, off + 4, 4) % POOLED_FLAG
  }

  predicate Pooled(m: Mem, off: nat)
    requires off + HEADER_SIZE <= |m|
  {
    Load(m, off + 4, 4) >= POOLED_FLAG
  }

  predicate IsBuf(m: Mem, off: nat) {
    && off + HEADER_SIZE <= |m|
    && off + HEADER_SIZE + Capacity(m, off) <= |m|
    && Len(m, off) <= Capacity(m, off)
  }

  /** `as_slice`. */
  function Data(m: Mem, off: nat): (d: seq<byte>)
    requires IsBuf(m, off)
    ensures |d| == Len(m, off)
  {
    m[off + HEADER_SIZE..off + HEADER_SIZE + Len(m, off)]
  }

  // ---------------------------------------------------------------------------------
  // Operations: what a bounded sequence does, and what the code does to memory
  // ---------------------------------------------------------------------------------

  datatype Op =
    | Clear
    | Resize(size: nat, val: byte)
    | ClearAndResize(size: nat, val: byte)
    | Append(bytes: seq<byte>)
    | Push(val: byte)
    | Repeat(num: u64, val: byte)

  /** `OutOfBounds`: a write ran off the end of the block. */
  datatype Effect = Done | Refused | Panicked | OutOfBounds

  function Fill(n: nat, val: byte): (s: seq<byte>)
    ensures |s| == n && forall i :: 0 <= i < n ==> s[i] == val
  {
    seq(n, _ => val)
  }

  /** The operation on a byte sequence bounded by `cap`. */
  function Bounded(s: seq<byte>, cap: nat, op: Op): (seq<byte>, Effect) {
    match op
    case Clear => ([], Done)
    case Resize(n, val) =>
      if n > cap then (s, Panicked) else if n >= |s| then (s + Fill(n - |s|, val), Done) else (s[..n], Done)
    case ClearAndResize(n, val) => if n > cap then (s, Panicked) else (Fill(n, val), Done)
    case Append(x) => if |s| + |x| <= cap then (s + x, Done) else (s, Refused)
    case Push(b) => if |s| + 1 <= cap then (s + [b], Done) else (s, Refused)
    case Repeat(n, val) => if |s| + n <= cap then (s + Fill(n, val), Done) else (s, Refused)
  }

  /** A new length, and bytes written into the data area from index `from`. */
  function Write(m: Mem, off: nat, len: nat, from: nat, x: seq<byte>): Mem
    requires off + HEADER_SIZE + from + |x| <= |m|
  {
    Seqs.Splice(Store(m, off, 4, len), off + HEADER_SIZE + from, x)
  }

  /**
   What a caller sees of an operation: the contents byte by byte, and whether it was done,
   refused or ended in a panic. A repeat is one that does not wrap.
   */
  ghost predicate Seen(d: seq<byte>, cap: nat, op: Op, d': seq<byte>, e: Effect) {
    match op
    case Clear => e == Done && d' == []
    case Resize(n, val) =>
      if n > cap then e == Panicked && d' == d
      else e == Done && |d'| == n && forall i :: 0 <= i < n ==> d'[i] == if i < |d| then d[i] else val
    case ClearAndResize(n, val) =>
      if n > cap then e == Panicked && d' == d
      else e == Done && |d'| == n && forall i :: 0 <= i < n ==> d'[i] == val
    case Append(x) => if |d| + |x| <= cap then e == Done && d' == d + x else e == Refused && d' == d
    case Push(b) => if |d| < cap then e == Done && d' == d + [b] else e == Refused && d' == d
    case Repeat(n, val) =>
      if |d| + n > cap then e == Refused && d' == d
      else e == Done && |d'| == |d| + n && forall i :: 0 <= i < |d| + n ==> d'[i] == if i < |d| then d[i] else val
  }

  lemma BoundedSeen(d: seq<byte>, cap: nat, op: Op)
    ensures Seen(d, cap, op, Bounded(d, cap, op).0, Bounded(d, cap, op).1)
  {
  }

  /** What is left of a fill of `n` bytes from `at` on, as far as the block goes. */
  function FillBefore(end: nat, at: nat, n: nat, val: byte): seq<byte> {
    Fill(if at + n <= end then n else if at <= end then end - at else 0, val)
  }

  /**
   The operation as the code does it in memory. The sum of length and count of a repeat is a
   `usize` and wraps; a slice is too short for the other sums to.
   */
  function Flat(m: Mem, off: nat, op: Op): (Mem, Effect)
    requires IsBuf(m, off)
  {
    var len, cap := Len(m, off), Capacity(m, off);
    match op
    case Clear => (Store(m, off, 4, 0), Done)
    case Resize(n, val) =>
      if n > cap then (m, Panicked)
      else if n >= len then (Write(m, off, n, len, Fill(n - len, val)), Done)
      else (Store(m, off, 4, n), Done)
    case ClearAndResize(n, val) =>
      if n > cap then (m, Panicked) else (Write(m, off, n, 0, Fill(n, val)), Done)
    case Append(x) =>
      if len + |x| <= cap then (Write(m, off, len + |x|, len, x), Done) else (m, Refused)
    case Push(b) =>
      if len + 1 <= cap then (Write(m, off, len + 1, len, [b]), Done) else (m, Refused)
    case Repeat(n, val) =>
      var newLen, at := (len + n) % TWO_64, off + HEADER_SIZE + len;
      if newLen <= cap then
        (Write(m, off, newLen, len, FillBefore(|m|, at, n, val)), if at + n <= |m| then Done else OutOfBounds)
      else (m, Refused)
  }

  /** `m` and `r` agree except on the length field and the data area at `off`. */
  ghost predicate SameOutside(m: Mem, r: Mem, off: nat, cap: nat) {
    && |r| == |m|
    && forall i :: 0 <= i < |m| && !(off <= i < off + 4) && !(off + HEADER_SIZE <= i < off + HEADER_SIZE + cap) ==>
                     r[i] == m[i]
  }

  /** `r` is `m` after the buffer at `off` took on the contents `d`, and nothing else happened. */
  ghost predicate Became(m: Mem, r: Mem, off: nat, d: seq<byte>)
    requires IsBuf(m, off)
  {
    && SameOutside(m, r, off, Capacity(m, off))
    && Load(r, off + 4, 4) == Load(m, off + 4, 4)
    && IsBuf(r, off)
    && Data(r, off) == d
  }

  lemma StoreLen(m: Mem, off: nat, len: nat)
    requires IsBuf(m, off) && len <= Capacity(m, off)
    ensures var r := Store(m, off, 4, len);
            && IsBuf(r, off) && Len(r, off) == len && Load(r, off + 4, 4) == Load(m, off + 4, 4)
            && SameOutside(m, r, off, Capacity(m, off))
  {
    assert Capacity(m, off) <= MAX_CAPACITY;
    Widths();
    LoadStore(m, off, 4, len, off, 4);
    LoadStore(m, off, 4, len, off + 4, 4);
  }

  lemma StoreData(m: Mem, off: nat, len: nat)
    requires IsBuf(m, off) && len <= Len(m, off)
    ensures Became(m, Store(m, off, 4, len), off, Data(m, off)[..len])
  {
    var s, d := Store(m, off, 4, len), off + HEADER_SIZE;
    StoreLen(m, off, len);
    Seqs.SplicePart(m, off, Le(len, 4), d, len);
    Seqs.TakeSlice(m, d, d + Len(m, off), len);
  }

  lemma SpliceInside(m: Mem, s: Mem, off: nat, cap: nat, at: nat, x: seq<byte>)
    requires SameOutside(m, s, off, cap)
    requires off + HEADER_SIZE <= at && at + |x| <= off + HEADER_SIZE + cap && at + |x| <= |s|
    ensures SameOutside(m, Seqs.Splice(s, at, x), off, cap)
    ensures Load(Seqs.Splice(s, at, x), off, 4) == Load(s, off, 4)
    ensures Load(Seqs.Splice(s, at, x), off + 4, 4) == Load(s, off + 4, 4)
  {
    LoadSplice(s, at, x, off, 4);
    LoadSplice(s, at, x, off + 4, 4);
  }

  lemma WriteFields(m: Mem, off: nat, from: nat, x: seq<byte>)
    requires IsBuf(m, off) && from + |x| <= Capacity(m, off)
    ensures var r := Write(m, off, from + |x|, from, x);
            && IsBuf(r, off) && Len(r, off) == from + |x| && Load(r, off + 4, 4) == Load(m, off + 4, 4)
            && SameOutside(m, r, off, Capacity(m, off))
  {
    StoreLen(m, off, from + |x|);
    SpliceInside(m, Store(m, off, 4, from + |x|), off, Capacity(m, off), off + HEADER_SIZE + from, x);
  }

  /** The data after a write that reaches exactly to the new length. */
  lemma WriteData(m: Mem, off: nat, from: nat, x: seq<byte>)
    requires IsBuf(m, off) && from + |x| <= Capacity(m, off) && from <= Len(m, off)
    ensures Became(m, Write(m, off, from + |x|, from, x), off, Data(m, off)[..from] + x)
  {
    var s, d := Store(m, off, 4, from + |x|), off + HEADER_SIZE;
    var r := Write(m, off, from + |x|, from, x);
    WriteFields(m, off, from, x);
    Seqs.SplicePart(m, off, Le(from + |x|, 4), d, from);
    Seqs.SplicePart(s, d + from, x, d, from);
    Seqs.SplicePart(s, d + from, x, d + from, |x|);
    Seqs.SplitSlice(r, d, d + from, d + from + |x|);
    Seqs.TakeSlice(m, d, d + Len(m, off), from);
  }

  lemma Unchanged(m: Mem, off: nat)
    requires IsBuf(m, off)
    ensures Became(m, m, off, Data(m, off))
    ensures Data(m, off)[..Len(m, off)] == Data(m, off)
  {
  }

  lemma AppendData(m: Mem, off: nat, x: seq<byte>)
    requires IsBuf(m, off) && Len(m, off) + |x| <= Capacity(m, off)
    ensures Became(m, Write(m, off, Len(m, off) + |x|, Len(m, off), x), off, Data(m, off) + x)
  {
    Unchanged(m, off);
    WriteData(m, off, Len(m, off), x);
  }

  ghost predicate ActsAsBounded(m: Mem, off: nat, op: Op)
    requires IsBuf(m, off)
  {
    var (d, e) := Bounded(Data(m, off), Capacity(m, off), op);
    Flat(m, off, op).1 == e && Became(m, Flat(m, off, op).0, off, d)
  }

  lemma ResizeIsBounded(m: Mem, off: nat, n: nat, val: byte)
    requires IsBuf(m, off)
    ensures ActsAsBounded(m, off, Resize(n, val))
  {
    if n > Capacity(m, off) {
      Unchanged(m, off);
    } else if n >= Len(m, off) {
      AppendData(m, off, Fill(n - Len(m, off), val));
    } else {
      StoreData(m, off, n);
    }
  }

  lemma ClearAndResizeIsBounded(m: Mem, off: nat, n: nat, val: byte)
    requires IsBuf(m, off)
    ensures ActsAsBounded(m, off, ClearAndResize(n, val))
  {
    if n > Capacity(m, off) {
      Unchanged(m, off);
    } else {
      WriteData(m, off, 0, Fill(n, val));
      Seqs.Empty(Fill(n, val));
    }
  }

  lemma AppendIsBounded(m: Mem, off: nat, x: seq<byte>, op: Op)
    requires IsBuf(m, off)
    requires op == Append(x) || (op.Push? && x == [op.val])
    ensures ActsAsBounded(m, off, op)
  {
    if Len(m, off) + |x| <= Capacity(m, off) {
      AppendData(m, off, x);
    } else {
      Unchanged(m, off);
    }
  }

  /** A caller's check before a repeat: that length and count add up within a `usize`. */
  predicate NoWrap(len: nat, op: Op) {
    op.Repeat? ==> len + op.num < TWO_64
  }

  lemma RepeatIsBounded(m: Mem, off: nat, n: u64, val: byte)
    requires IsBuf(m, off) && Len(m, off) + n < TWO_64
    ensures ActsAsBounded(m, off, Repeat(n, val))
  {
    ModTwo64(Len(m, off) + n, 0, Len(m, off) + n);
    if Len(m, off) + n <= Capacity(m, off) {
      AppendData(m, off, Fill(n, val));
    } else {
      Unchanged(m, off);
    }
  }

  lemma RepeatUnfolded(m: Mem, off: nat, n: u64, val: byte, len: nat, cap: nat, newLen: nat)
    requires IsBuf(m, off) && len == Len(m, off) && cap == Capacity(m, off) && newLen == (len + n) % TWO_64
    ensures var at := off + HEADER_SIZE + len;
            Flat(m, off, Repeat(n, val))
            == if newLen <= cap then
                 (Write(m, off, newLen, len, FillBefore(|m|, at, n, val)), if at + n <= |m| then Done else OutOfBounds)
               else (m, Refused)
  {
  }

  /**
   A sum that wraps is small, so the check lets it through: the buffer gets shorter, and the
   fill leaves the block.
   */
  lemma RepeatOverruns(m: Mem, off: nat, n: u64, val: byte)
    requires IsBuf(m, off) && |m| < TWO_64 && Len(m, off) + n >= TWO_64
    ensures var (r, e) := Flat(m, off, Repeat(n, val));
            e == OutOfBounds && |r| == |m| && Len(r, off) == Len(m, off) + n - TWO_64 < Len(m, off)
  {
    var newLen, d := Len(m, off) + n - TWO_64, off + HEADER_SIZE + Len(m, off);
    ModTwo64(Len(m, off) + n, 1, newLen);
    StoreLen(m, off, newLen);
    LoadSplice(Store(m, off, 4, newLen), d, FillBefore(|m|, d, n, val), off, 4);
  }

  /**
   In memory an operation is the operation on the bounded sequence, with the same outcome;
   capacity and flag stay, and nothing else in memory changes. This holds exactly unless the
   sum of length and count of a repeat wraps.
   */
  lemma FlatIsBoundedExactly(m: Mem, off: nat, op: Op)
    requires IsBuf(m, off) && |m| < TWO_64
    ensures ActsAsBounded(m, off, op) <==> NoWrap(Len(m, off), op)
  {
    if NoWrap(Len(m, off), op) {
      FlatIsBounded(m, off, op);
    } else {
      RepeatOverruns(m, off, op.num, op.val);
    }
  }

  /** A buffer of one byte in which a repeat does not act as on a sequence. */
  lemma RepeatCanOverrun()
    ensures exists m: Mem, n: u64 :: IsBuf(m, 0) && !ActsAsBounded(m, 0, Repeat(n, 0))
  {
    var m: Mem := Le(1, 4) + Le(8, 4) + Fill(8, 0);
    var n: u64 := TWO_64 - 1;
    assert m[0..4] == Le(1, 4) && m[4..8] == Le(8, 4);
    assert Pow2(8 * 4) == TWO_32 by {
      Widths();
    }
    LeRoundTrip(1, 4);
    LeRoundTrip(8, 4);
    RepeatOverruns(m, 0, n, 0);
    assert IsBuf(m, 0) && !ActsAsBounded(m, 0, Repeat(n, 0));
  }

  lemma FlatIsBounded(m: Mem, off: nat, op: Op)
    requires IsBuf(m, off) && NoWrap(Len(m, off), op)
    ensures ActsAsBounded(m, off, op)
  {
    match op
    case Clear => StoreData(m, off, 0);
    case Resize(n, val) => ResizeIsBounded(m, off, n, val);
    case ClearAndResize(n, val) => ClearAndResizeIsBounded(m, off, n, val);
    case Append(x) => AppendIsBounded(m, off, x, op);
    case Push(b) => AppendIsBounded(m, off, [b], op);
    case Repeat(n, val) => RepeatIsBounded(m, off, n, val);
  }

  /** An operation in memory, as a caller sees it: only its buffer's length and data change. */
  lemma FlatSeen(m: Mem, off: nat, op: Op)
    requires IsBuf(m, off)
    ensures NoWrap(Len(m, off), op) ==>
              var (r, e) := Flat(m, off, op);
              && IsBuf(r, off) && Seen(Data(m, off), Capacity(m, off), op, Data(r, off), e)
              && SameOutside(m, r, off, Capacity(m, off))
  {
    if NoWrap(Len(m, off), op) {
      FlatIsBounded(m, off, op);
      BoundedSeen(Data(m, off), Capacity(m, off), op);
    }
  }

  // ---------------------------------------------------------------------------------
  // The code
  // ---------------------------------------------------------------------------------

  /** A buffer is one pointer to its header. */
  datatype Buf = Buf(block: array<byte>, off: nat) {

    ghost predicate Valid()
      reads block
    {
      IsBuf(block[..], off)
    }

    method GetLen() returns (n: nat)
      requires Valid()
      ensures n == Len(block[..], off)
    {
      n := LoadWord(block, off, 4);
    }

    method GetCapacity() returns (n: nat)
      requires Valid()
      ensures n == Capacity(block[..], off)
    {
      n := LoadWord(block, off + 4, 4);
      n := n % POOLED_FLAG;
    }

    method Clear()
      requires Valid()
      modifies block
      ensures block[..] == Flat(old(block[..]), off, Op.Clear).0
      ensures Valid() && Seen(old(Data(block[..], off)), old(Capacity(block[..], off)),
                              Op.Clear, Data(block[..], off), Done)
    {
      FlatSeen(block[..], off, Op.Clear);
      StoreWord(block, off, 4, 0);
    }

    /** The two stores that the growing operations share: the length, then bytes behind the header. */
    method WriteBoth(len: nat, from: nat, x: seq<byte>)
      requires off + HEADER_SIZE + from + |x| <= block.Length
      modifies block
      ensures block[..] == Write(old(block[..]), off, len, from, x)
    {
      StoreWord(block, off, 4, len);
      CopyIn(block, off + HEADER_SIZE + from, x);
    }

    /** Panics, with nothing changed, when the new size exceeds the capacity. */
    method Resize(size: nat, val: byte) returns (e: Outcome<()>)
      requires Valid()
      modifies block
      ensures block[..] == Flat(old(block[..]), off, Op.Resize(size, val)).0
      ensures e.Panic? <==> Flat(old(block[..]), off, Op.Resize(size, val)).1 == Panicked
      ensures Valid() && Seen(old(Data(block[..], off)), old(Capacity(block[..], off)),
                              Op.Resize(size, val), Data(block[..], off), if e.Panic? then Panicked else Done)
    {
      FlatSeen(block[..], off, Op.Resize(size, val));
      var capacity := GetCapacity();
      if size > capacity {
        return Panic;
      }
      var oldSize := GetLen();
      if size >= oldSize {
        WriteBoth(size, oldSize, Fill(size - oldSize, val));
      } else {
        StoreWord(block, off, 4, size);
      }
      return Returns(());
    }

    method ClearAndResize(size: nat, val: byte) returns (e: Outcome<()>)
      requires Valid()
      modifies block
      ensures block[..] == Flat(old(block[..]), off, Op.ClearAndResize(size, val)).0
      ensures e.Panic? <==> Flat(old(block[..]), off, Op.ClearAndResize(size, val)).1 == Panicked
      ensures Valid() && Seen(old(Data(block[..], off)), old(Capacity(block[..], off)),
                              Op.ClearAndResize(size, val), Data(block[..], off), if e.Panic? then Panicked else Done)
    {
      FlatSeen(block[..], off, Op.ClearAndResize(size, val));
      var capacity := GetCapacity();
      if size > capacity {
        return Panic;
      }
      WriteBoth(size, 0, Fill(size, val));
      return Returns(());
    }

    method Append(bytes: seq<byte>) returns (ok: bool)
      requires Valid()
      modifies block
      ensures block[..] == Flat(old(block[..]), off, Op.Append(bytes)).0
      ensures ok <==> Flat(old(block[..]), off, Op.Append(bytes)).1 == Done
      ensures Valid() && Seen(old(Data(block[..], off)), old(Capacity(block[..], off)),
                              Op.Append(bytes), Data(block[..], off), if ok then Done else Refused)
    {
      FlatSeen(block[..], off, Op.Append(bytes));
      var oldLen := GetLen();
      var capacity := GetCapacity();
      var newLen := oldLen + |bytes|;
      if newLen <= capacity {
        WriteBoth(newLen, oldLen, bytes);
        ok := true;
      } else {
        ok := false;
      }
    }

    method Push(val: byte) returns (ok: bool)
      requires Valid()
      modifies block
      ensures block[..] == Flat(old(block[..]), off, Op.Push(val)).0
      ensures ok <==> Flat(old(block[..]), off, Op.Push(val)).1 == Done
      ensures Valid() && Seen(old(Data(block[..], off)), old(Capacity(block[..], off)),
                              Op.Push(val), Data(block[..], off), if ok then Done else Refused)
    {
      FlatSeen(block[..], off, Op.Push(val));
      var oldLen := GetLen();
      var capacity := GetCapacity();
      var newLen := oldLen + 1;
      if newLen <= capacity {
        WriteBoth(newLen, oldLen, [val]);
        ok := true;
      } else {
        ok := false;
      }
    }

    /** A fill of so many bytes may leave the block, which ends what can be said about it. */
    method Repeat(num: u64, val: byte) returns (e: Effect)
      requires Valid()
      modifies block
      ensures block[..] == Flat(old(block[..]), off, Op.Repeat(num, val)).0
      ensures e == Flat(old(block[..]), off, Op.Repeat(num, val)).1
      ensures old(Len(block[..], off)) + num < TWO_64 ==>
                Valid() && Seen(old(Data(block[..], off)), old(Capacity(block[..], off)),
                                Op.Repeat(num, val), Data(block[..], off), e)
    {
      FlatSeen(block[..], off, Op.Repeat(num, val));
      var oldLen := GetLen();
      var capacity := GetCapacity();
      var newLen := (oldLen + num) % TWO_64;
      RepeatUnfolded(block[..], off, num, val, oldLen, capacity, newLen);
      if newLen <= capacity {
        var at := off + HEADER_SIZE + oldLen;
        WriteBoth(newLen, oldLen, FillBefore(block.Length, at, num, val));
        e := if at + num <= block.Length then Done else OutOfBounds;
      } else {
        e := Refused;
      }
    }

    /** A clone is a fresh standalone buffer of the same capacity and contents. */
    method Clone() returns (c: Outcome<Buf>)
      requires Valid()
      ensures c.Returns? <==> MayAllocate(Capacity(block[..], off))
      ensures c.Returns? ==> fresh(c.value.block) && CloneOf(c.value, block[..], off)
    {
      var capacity := GetCapacity();
      var len := GetLen();
      c := New(capacity);
      if c.Returns? {
        FlatIsBounded(c.value.block[..], 0, Op.Append(Data(block[..], off)));
        Seqs.Empty(Data(block[..], off));
        var _ := c.value.Append(block[off + 8..off + 8 + len]);
      }
    }
  }

  /** A standalone buffer with the contents and capacity of the one at `off`. */
  ghost predicate CloneOf(c: Buf, m: Mem, off: nat)
    requires IsBuf(m, off)
    reads c.block
  {
    && c.Valid() && !Pooled(c.block[..], c.off)
    && Data(c.block[..], c.off) == Data(m, off)
    && Capacity(c.block[..], c.off) == Capacity(m, off)
  }

  /** What `Buf::new` accepts. */
  predicate MayAllocate(capacity: nat) {
    0 < capacity <= MAX_CAPACITY && capacity % 8 == 0
  }

  /** Allocates a standalone buffer; panics on a capacity that is zero, too big or not a multiple of 8. */
  method New(capacity: nat) returns (r: Outcome<Buf>)
    ensures r.Returns? <==> MayAllocate(capacity)
    ensures r.Returns? <==> 0 < capacity <= 0x7fff_ffff && capacity % 8 == 0
    ensures r.Returns? ==>
              && fresh(r.value.block) && r.value.off == 0 && r.value.Valid()
              && Capacity(r.value.block[..], 0) == capacity && !Pooled(r.value.block[..], 0)
              && Data(r.value.block[..], 0) == []
  {
    if !(capacity <= MAX_CAPACITY && capacity > 0 && capacity % 8 == 0) {
      return Panic;
    }
    var block := new byte[capacity + HEADER_SIZE];
    ghost var m := block[..];
    Widths();
    StoreWord(block, 0, 4, 0);
    StoreWord(block, 4, 4, capacity);
    LoadStore(m, 0, 4, 0, 0, 4);
    LoadStore(Store(m, 0, 4, 0), 4, 4, capacity, 0, 4);
    LoadStore(Store(m, 0, 4, 0), 4, 4, capacity, 4, 4);
    return Returns(Buf(block, 0));
  }

  function RoundUp8(n: nat): (r: nat)
    ensures r % 8 == 0 && n <= r < n + 8
  {
    (n + 7) / 8 * 8
  }

  /** A buffer just big enough for some bytes; there is none for no bytes at all. */
  method CreateFrom(bytes: seq<byte>) returns (r: Outcome<Buf>)
    ensures r.Returns? <==> 0 < |bytes| <= MAX_CAPACITY - 7
    ensures r.Returns? ==>
              && fresh(r.value.block) && r.value.Valid()
              && Data(r.value.block[..], r.value.off) == bytes
              && Capacity(r.value.block[..], r.value.off) == RoundUp8(|bytes|)
  {
    r := New(RoundUp8(|bytes|));
    if r.Returns? {
      FlatIsBounded(r.value.block[..], 0, Append(bytes));
      Seqs.Empty(bytes);
      var _ := r.value.Append(bytes);
    }
  }
}
