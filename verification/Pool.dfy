/** The `Pool` object of src/buf.rs over flat memory, one whole call at a time. */
module Pools {
  import opened Bits
  import opened Buffers
  import opened FreeList
  import opened Memory
  import opened PoolLayout
  import opened PoolRefinement
  import opened Wrappers
  import Seqs

  // ---------------------------------------------------------------------------------
  // Filling a new block
  // ---------------------------------------------------------------------------------

  /** The first `i` records and slots are filled. */
  ghost predicate Filled(m: Mem, l: Layout, i: nat) {
    && l.Ok() && |m| == l.Total() && i <= l.n
    && forall r: nat :: r < i ==>
         && l.Record(r) + l.RecordSize() <= |m|
         && RecordOk(m, l, r) && Load(m, l.Header(r), 4) == 0
         && Load(m, l.Slot(r), 8) == l.base + l.Header(r)
  }

  /** The four stores of one round of the filling loop, with the memory after each of them. */
  ghost predicate FilledOne(m: Mem, m1: Mem, m2: Mem, m3: Mem, m': Mem, l: Layout, i: nat) {
    && WordSet(m, m1, l.Record(i), 8, l.base)
    && WordSet(m1, m2, l.Header(i), 4, 0)
    && WordSet(m2, m3, l.Header(i) + 4, 4, POOLED_FLAG + l.cap)
    && WordSet(m3, m', l.Slot(i), 8, l.base + l.Header(i))
  }

  lemma FilledRecord(m: Mem, m1: Mem, m2: Mem, m3: Mem, m': Mem, l: Layout, i: nat)
    requires |m| == l.Total() && i < l.n && FilledOne(m, m1, m2, m3, m', l, i)
    ensures |m'| == |m| && l.Record(i) + l.RecordSize() <= |m|
    ensures RecordOk(m', l, i) && Load(m', l.Header(i), 4) == 0
    ensures Load(m', l.Slot(i), 8) == l.base + l.Header(i)
  {
    RecordsInOrder(l, i, i);
  }

  lemma OtherRecordKept(m: Mem, m1: Mem, m2: Mem, m3: Mem, m': Mem, l: Layout, i: nat, r: nat)
    requires Filled(m, l, i) && r < i < l.n && FilledOne(m, m1, m2, m3, m', l, i)
    ensures |m'| == |m| && l.Record(r) + l.RecordSize() <= |m|
    ensures RecordOk(m', l, r) && Load(m', l.Header(r), 4) == 0
    ensures Load(m', l.Slot(r), 8) == l.base + l.Header(r)
  {
    RecordsInOrder(l, r, i);
    assert RecordOk(m, l, r);
  }

  lemma FilledMore(m: Mem, m1: Mem, m2: Mem, m3: Mem, m': Mem, l: Layout, i: nat)
    requires Filled(m, l, i) && i < l.n && FilledOne(m, m1, m2, m3, m', l, i)
    ensures Filled(m', l, i + 1)
  {
    FilledRecord(m, m1, m2, m3, m', l, i);
    forall r: nat | r < i
      ensures l.Record(r) + l.RecordSize() <= |m'|
      ensures RecordOk(m', l, r) && Load(m', l.Header(r), 4) == 0
      ensures Load(m', l.Slot(r), 8) == l.base + l.Header(r)
    {
      OtherRecordKept(m, m1, m2, m3, m', l, i, r);
    }
  }

  function UpTo(n: nat): (s: seq<nat>)
    ensures |s| == n && forall i :: 0 <= i < n ==> s[i] == i
  {
    seq(n, i requires 0 <= i < n => i)
  }

  lemma {:induction false} NumbersUpTo(n: nat)
    ensures SharedOut(n, UpTo(n), multiset{})
  {
    if n == 0 {
    } else {
      NumbersUpTo(n - 1);
      assert UpTo(n) == UpTo(n - 1) + [n - 1];
      var last: nat := n - 1;
      assert multiset(UpTo(n)) == multiset(UpTo(n - 1)) + multiset{last};
      assert multiset(Numbers(n)) == multiset(Numbers(n - 1)) + multiset{last};
    }
  }

  lemma FullyFilled(m: Mem, l: Layout)
    requires Filled(m, l, l.n)
    ensures PoolInv(m, l, UpTo(l.n), multiset{})
  {
    NumbersUpTo(l.n);
    forall r: nat | r < l.n ensures RecordData(m, l, r) == [] {
      RecordIsBuf(m, l, r);
    }
  }

  /** The stack after a buffer has been asked for, and the records handed out. */
  function AfterTake(free: seq<nat>): seq<nat> {
    if free == [] then [] else free[..|free| - 1]
  }

  function OutAfterTake(free: seq<nat>, out: multiset<nat>): multiset<nat> {
    if free == [] then out else out + multiset{free[|free| - 1]}
  }

  // ---------------------------------------------------------------------------------
  // The object
  // ---------------------------------------------------------------------------------

  class Pool {
    const block: array<byte>
    const layout: Layout
    /** Guarded by the mutex: offset of the cursor in the block, and the dropped flag. */
    var cursor: nat
    var dropped: bool
    /** The block has been deallocated. */
    var freed: bool
    /** The records below the cursor, and one occurrence for every pooled buffer handed out and not dropped. */
    ghost var free: seq<nat>
    ghost var held: multiset<nat>

    ghost predicate Valid()
      reads this, block
    {
      PoolInv(block[..], layout, free, held) && cursor == layout.Slot(|free|) && !freed
    }

    /** Whether `b` is a buffer of this pool that was handed out. */
    ghost predicate Out(b: Buf, r: nat)
      reads this
    {
      b.block == block && b.off == layout.Header(r) && r in held
    }

    constructor Init(block: array<byte>, layout: Layout)
      requires PoolInv(block[..], layout, UpTo(layout.n), multiset{})
      ensures Valid() && this.block == block && this.layout == layout
      ensures free == UpTo(layout.n) && held == multiset{} && !dropped
    {
      this.block := block;
      this.layout := layout;
      cursor := layout.Slot(layout.n);
      dropped := false;
      freed := false;
      free := UpTo(layout.n);
      held := multiset{};
    }

    method PoolRemaining() returns (k: nat)
      requires Valid()
      ensures k == layout.n - |held|
    {
      SharesCounted(layout.n, free, held);
      k := (cursor - layout.Slot(0)) / 8;
    }

    /** The record on top of the stack leaves it; nobody had it. */
    method Pop() returns (b: Buf)
      requires Valid() && free != []
      modifies this
      ensures Valid() && unchanged(`dropped) && unchanged(`freed) && b.Valid()
      ensures free == AfterTake(old(free)) && held == OutAfterTake(old(free), old(held))
      ensures Out(b, old(free)[|old(free)| - 1]) && old(free)[|old(free)| - 1] !in old(held)
      ensures Data(b.block[..], b.off) == [] && Capacity(b.block[..], b.off) == layout.cap
    {
      var at := cursor - 8;
      ghost var k := |free| - 1;
      Popped(block[..], layout, free, held, k);
      TakeStep(block[..], layout, free, held, k, at);
      var address := LoadWord(block, at, 8);
      cursor := at;
      held := held + multiset{free[k]};
      free := free[..k];
      b := Buf(block, address - layout.base);
    }

    /**
     Hands out the record on top of the stack, which nobody has, or a standalone buffer.
     Either way the buffer is empty and has the pool's buffer capacity.
     */
    method Get() returns (b: Buf)
      requires Valid()
      modifies this
      ensures Valid() && unchanged(`dropped) && unchanged(`freed) && b.Valid()
      ensures Data(b.block[..], b.off) == [] && Capacity(b.block[..], b.off) == layout.cap
      ensures free == AfterTake(old(free)) && held == OutAfterTake(old(free), old(held))
      ensures if old(free) == [] then fresh(b.block)
              else Out(b, old(free)[|old(free)| - 1]) && old(free)[|old(free)| - 1] !in old(held)
    {
      if cursor != layout.Slot(0) {
        b := Pop();
      } else {
        var standalone := New(layout.cap);
        b := standalone.value;
      }
    }

    /** Panics on a capacity above the pool's that a standalone buffer cannot have. */
    method GetWithMinCapacity(minCapacity: nat) returns (b: Outcome<Buf>)
      requires Valid()
      modifies this
      ensures Valid() && unchanged(`dropped)
      ensures b.Returns? <==> minCapacity <= layout.cap || MayAllocate(minCapacity)
      ensures b.Returns? ==>
                && b.value.Valid() && Data(b.value.block[..], b.value.off) == []
                && Capacity(b.value.block[..], b.value.off)
                   == (if minCapacity <= layout.cap then layout.cap else minCapacity)
      ensures var pooled := minCapacity <= layout.cap;
              && free == (if pooled then AfterTake(old(free)) else old(free))
              && held == (if pooled then OutAfterTake(old(free), old(held)) else old(held))
              && (b.Returns? ==>
                    if pooled && old(free) != [] then Out(b.value, old(free)[|old(free)| - 1])
                    else fresh(b.value.block))
    {
      if layout.cap >= minCapacity {
        var c := Get();
        b := Returns(c);
      } else {
        b := New(minCapacity);
      }
    }

    /** The append of `create_from`, to a buffer of this pool or to a standalone one. */
    method FillEmpty(b: Buf, bytes: seq<byte>, ghost r: nat)
      requires Valid() && b.Valid() && Data(b.block[..], b.off) == []
      requires |bytes| <= Capacity(b.block[..], b.off)
      requires b.block == block ==> Out(b, r)
      modifies b.block
      ensures Valid() && b.Valid() && Data(b.block[..], b.off) == bytes
      ensures Capacity(b.block[..], b.off) == old(Capacity(b.block[..], b.off))
      ensures b.block == block ==> r < layout.n && OthersSame(old(block[..]), block[..], layout, r)
    {
      ghost var m, off := b.block[..], b.off;
      FlatIsBounded(m, off, Append(bytes));
      Seqs.Empty(bytes);
      if b.block == block {
        UseStep(m, layout, free, held, r, Append(bytes));
      }
      var _ := b.Append(bytes);
    }

    /**
     A buffer with given contents; too many bytes for the pool need a multiple of eight of
     them. All other buffers of the pool keep their contents.
     */
    method CreateFrom(bytes: seq<byte>) returns (b: Outcome<Buf>)
      requires Valid()
      modifies this, block
      ensures Valid() && dropped == old(dropped)
      ensures b.Returns? <==> |bytes| <= layout.cap || MayAllocate(|bytes|)
      ensures b.Returns? ==>
                && b.value.Valid() && Data(b.value.block[..], b.value.off) == bytes
                && Capacity(b.value.block[..], b.value.off) == (if |bytes| <= layout.cap then layout.cap else |bytes|)
      ensures var pooled := |bytes| <= layout.cap;
              && free == (if pooled then AfterTake(old(free)) else old(free))
              && held == (if pooled then OutAfterTake(old(free), old(held)) else old(held))
              && if pooled && old(free) != [] then
                   var r := old(free)[|old(free)| - 1];
                   b.Returns? && Out(b.value, r) && r < layout.n && OthersSame(old(block[..]), block[..], layout, r)
                 else block[..] == old(block[..]) && (b.Returns? ==> fresh(b.value.block))
    {
      ghost var m, top := block[..], if free == [] then 0 else free[|free| - 1];
      b := GetWithMinCapacity(|bytes|);
      assert block[..] == m;
      if b.Returns? {
        FillEmpty(b.value, bytes, top);
      }
    }

    /**
     The drop of the pool's handle. The flag it tests is one that only it sets, so when the
     handle is dropped the one time it can be, nothing is freed, even if all buffers are home.
     */
    method Drop()
      requires Valid()
      modifies this
      ensures free == old(free) && held == old(held) && cursor == old(cursor)
      ensures freed <==> old(dropped) && held == multiset{}
      ensures !old(dropped) ==> Valid() && dropped
    {
      SharesCounted(layout.n, free, held);
      if cursor == layout.PoolEnd() && dropped {
        freed := true;
      } else {
        dropped := true;
      }
    }
  }

  /** A buffer that is out knows its pool, and the pool's stack has room for it. */
  lemma OutFacts(m: Mem, l: Layout, free: seq<nat>, held: multiset<nat>, r: nat)
    requires PoolInv(m, l, free, held) && r in held
    ensures r < l.n && l.Header(r) + 8 <= |m| && Load(m, l.Header(r) + 4, 4) >= POOLED_FLAG
    ensures Load(m, l.Header(r) - 8, 8) == l.base
    ensures |free| < l.n && l.Slot(|free|) + 8 <= |m|
  {
    TakeBack(l.n, free, held, r);
    RecordIsBuf(m, l, r);
    assert RecordOk(m, l, r);
  }

  /** What a return comes to, in memory and for the counts. */
  lemma ReturnFacts(m: Mem, m1: Mem, m2: Mem, l: Layout, free: seq<nat>, held: multiset<nat>, r: nat)
    requires PoolInv(m, l, free, held) && r in held
    requires l.Header(r) + 4 <= |m| && m1 == Store(m, l.Header(r), 4, 0)
    requires SlotSet(m1, m2, l, |free|, r)
    ensures r < l.n && PoolInv(m2, l, free + [r], held - multiset{r})
    ensures Turned(m, m2, l, free + [r], held - multiset{r}, r, [])
    ensures l.Slot(|free + [r]|) == l.Slot(|free|) + 8
    ensures l.Slot(|free|) + 8 == l.PoolEnd() <==> held - multiset{r} == multiset{}
  {
    ReturnStep(m, m1, m2, l, free, held, r);
    assert |free + [r]| == |free| + 1;
    SharesCounted(l.n, free + [r], held - multiset{r});
  }

  lemma StoredSlot(m: Mem, m': Mem, l: Layout, k: nat, r: nat, cursor: nat, address: nat)
    requires cursor == l.Slot(k) && address == l.base + l.Header(r)
    requires cursor + 8 <= |m| && m' == Store(m, cursor, 8, address)
    ensures SlotSet(m, m', l, k, r)
  {
  }

  /** The two stores of a buffer's drop, with the memory between them. */
  method StoreTwo(block: array<byte>, off: nat, cursor: nat, address: nat) returns (ghost m: Mem)
    requires off + 4 <= block.Length && cursor + 8 <= block.Length
    modifies block
    ensures m == Store(old(block[..]), off, 4, 0) && block[..] == Store(m, cursor, 8, address)
  {
    StoreWord(block, off, 4, 0);
    m := block[..];
    StoreWord(block, cursor, 8, address);
  }

  /** They put the record of an emptied buffer on the stack. */
  method ClearAndPush(block: array<byte>, ghost l: Layout, off: nat, cursor: nat, address: nat,
                      ghost free: seq<nat>, ghost held: multiset<nat>, ghost r: nat)
    requires PoolInv(block[..], l, free, held) && r in held
    requires off == l.Header(r) && address == l.base + off && cursor == l.Slot(|free|)
    modifies block
    ensures r < l.n && PoolInv(block[..], l, free + [r], held - multiset{r})
    ensures Turned(old(block[..]), block[..], l, free + [r], held - multiset{r}, r, [])
    ensures l.Slot(|free + [r]|) == l.Slot(|free|) + 8
    ensures l.Slot(|free|) + 8 == l.PoolEnd() <==> held - multiset{r} == multiset{}
  {
    ghost var m := block[..];
    OutFacts(m, l, free, held, r);
    ghost var m1 := StoreTwo(block, off, cursor, address);
    ghost var m2 := block[..];
    StoredSlot(m1, m2, l, |free|, r, cursor, address);
    ReturnFacts(m, m1, m2, l, free, held, r);
  }

  /** A buffer that is out has the pooled flag set, and its back-pointer leads to its pool. */
  method FindPool(b: Buf, pool: Pool, ghost r: nat) returns (pooled: bool, address: nat)
    requires pool.Valid() && pool.Out(b, r)
    ensures pooled && address == pool.layout.base
  {
    OutFacts(pool.block[..], pool.layout, pool.free, pool.held, r);
    var flags := LoadWord(b.block, b.off + 4, 4);
    pooled := flags >= POOLED_FLAG;
    address := LoadWord(b.block, b.off - 8, 8);
  }

  /**
   The record goes back on the stack, emptied; the assertion that there is room never fails.
   `last` is the test made before the mutex is given up.
   */
  method ReturnRecord(b: Buf, pool: Pool, ghost r: nat) returns (last: bool)
    requires pool.Valid() && pool.Out(b, r)
    modifies pool`cursor, pool`free, pool`held, pool.block
    ensures pool.Valid() && pool.free == old(pool.free) + [r] && pool.held == old(pool.held) - multiset{r}
    ensures last <==> pool.held == multiset{} && pool.dropped
    ensures r < pool.layout.n
    ensures Turned(old(pool.block[..]), pool.block[..], pool.layout, pool.free, pool.held, r, [])
  {
    ghost var l, free, held := pool.layout, pool.free, pool.held;
    OutFacts(pool.block[..], l, free, held, r);
    assert pool.cursor != pool.layout.PoolEnd();
    ClearAndPush(pool.block, l, b.off, pool.cursor, pool.layout.base + b.off, free, held, r);
    ghost var m', f := pool.block[..], free + [r];
    var next := pool.cursor + 8;
    assert next == l.Slot(|f|);
    pool.cursor := next;
    pool.free := f;
    pool.held := held - multiset{r};
    assert pool.block[..] == m';
    assert pool.cursor == next && pool.free == f && pool.layout == l;
    assert PoolInv(pool.block[..], pool.layout, pool.free, pool.held);
    assert pool.cursor == pool.layout.Slot(|pool.free|);
    last := pool.cursor == pool.layout.PoolEnd() && pool.dropped;
  }

  /**
   The drop of a pooled buffer. It finds its pool through the back-pointer, and the block
   goes exactly when the handle is gone and nobody has a buffer any more.
   */
  method DropBuf(b: Buf, pool: Pool, ghost r: nat)
    requires pool.Valid() && pool.Out(b, r)
    modifies pool, pool.block
    ensures pool.free == old(pool.free) + [r] && pool.held == old(pool.held) - multiset{r}
    ensures pool.dropped == old(pool.dropped)
    ensures pool.cursor == pool.layout.Slot(|pool.free|)
    ensures pool.freed <==> pool.dropped && pool.held == multiset{}
    ensures r < pool.layout.n
    ensures Turned(old(pool.block[..]), pool.block[..], pool.layout, pool.free, pool.held, r, [])
  {
    ghost var m := pool.block[..];
    var pooled, address := FindPool(b, pool, r);
    assert pool.block[..] == m;
    assert pooled && address == pool.layout.base;
    var last := ReturnRecord(b, pool, r);
    ghost var m' := pool.block[..];
    pool.freed := last;
    assert pool.block[..] == m';
  }

  // ---------------------------------------------------------------------------------
  // Making a pool
  // ---------------------------------------------------------------------------------

  /** One round of the filling loop, at the offsets the loop has reached. */
  method FillRecord(block: array<byte>, layout: Layout, ptr: nat, slot: nat, ghost i: nat)
    requires ptr == layout.Record(i) && slot == layout.Slot(i) && layout.base + block.Length < TWO_64
    requires slot + 8 <= block.Length && ptr + 16 <= block.Length && layout.cap <= MAX_CAPACITY
    modifies block
    ensures i < layout.n && Filled(old(block[..]), layout, i) ==> Filled(block[..], layout, i + 1)
  {
    Widths();
    ghost var m := block[..];
    SetWord(block, ptr, 8, layout.base);
    ghost var m1 := block[..];
    SetWord(block, ptr + 8, 4, 0);
    ghost var m2 := block[..];
    SetWord(block, ptr + 8 + 4, 4, POOLED_FLAG + layout.cap);
    ghost var m3 := block[..];
    SetWord(block, slot, 8, layout.base + ptr + 8);
    if i < layout.n && Filled(m, layout, i) {
      FilledMore(m, m1, m2, m3, block[..], layout, i);
    }
  }

  /**
   The filling loop, over a block whose size wrapped or did not. It leaves the block, or
   rather forms an address outside of it, exactly if the size wrapped.
   */
  method FillAll(block: array<byte>, layout: Layout) returns (ok: bool)
    requires layout.base + block.Length < TWO_64 && (layout.Total() < TWO_64 ==> block.Length == layout.Total())
    requires MayAllocate(layout.cap) && layout.n > 0
    requires layout.inner % 8 == 0 && layout.base % 8 == 0 && layout.base > 0
    modifies block
    ensures ok <==> layout.Total() < TWO_64
    ensures ok ==> Filled(block[..], layout, layout.n)
  {
    var slot := layout.inner;
    var slotsEnd := layout.inner + 8 * layout.n;
    if slotsEnd > block.Length {
      return false;
    }
    var ptr := slotsEnd;
    var sizeOfEachBuf := layout.cap + 8 + 8;
    ghost var i := 0;
    while slot != slotsEnd
      invariant i <= layout.n && slot == layout.Slot(i) && ptr == layout.Record(i) <= block.Length
      invariant layout.Total() < TWO_64 ==> Filled(block[..], layout, i)
      decreases slotsEnd - slot
    {
      if ptr + sizeOfEachBuf > block.Length {
        RecordsInOrder(layout, i, i);
        return false;
      }
      FillRecord(block, layout, ptr, slot, i);
      ptr := ptr + sizeOfEachBuf;
      slot := slot + 8;
      i := i + 1;
    }
    return true;
  }

  /** `LeftBlock`: an address was formed outside of what was allocated. */
  datatype NewResult = AssertionFailed | LeftBlock | Made(pool: Pool)

  /**
   Allocates a pool. `inner` is the size of the bookkeeping struct and `base` the address the
   allocator gives for the size it is asked for, or null. That size is a `usize` and wraps;
   when it does, the loop that fills the records leaves the block.
   */
  method NewPool(bufCapacity: nat, poolCapacity: nat, inner: nat, base: nat) returns (r: NewResult)
    requires inner % 8 == 0 && base % 8 == 0
    requires base + Layout(base, inner, bufCapacity, poolCapacity).Total() % TWO_64 < TWO_64
    ensures r.AssertionFailed? <==>
              bufCapacity == 0 || bufCapacity > 0x7fff_ffff || bufCapacity % 8 != 0 || poolCapacity == 0 || base == 0
    ensures r.LeftBlock? <==>
              && MayAllocate(bufCapacity) && poolCapacity > 0 && base > 0
              && Layout(base, inner, bufCapacity, poolCapacity).Total() >= TWO_64
    ensures r.Made? ==>
              && fresh(r.pool) && fresh(r.pool.block) && r.pool.Valid() && !r.pool.dropped
              && r.pool.layout == Layout(base, inner, bufCapacity, poolCapacity)
              && |r.pool.free| == poolCapacity && r.pool.held == multiset{}
  {
    if !(bufCapacity <= MAX_CAPACITY && bufCapacity > 0 && bufCapacity % 8 == 0 && poolCapacity > 0) {
      return AssertionFailed;
    }
    var layout := Layout(base, inner, bufCapacity, poolCapacity);
    BlockSize(layout);
    var size := (inner + 8 * poolCapacity + (bufCapacity + 8 + 8) * poolCapacity) % TWO_64;
    if base == 0 {
      return AssertionFailed;
    }
    var block := new byte[size];
    var ok := FillAll(block, layout);
    if !ok {
      return LeftBlock;
    }
    FullyFilled(block[..], layout);
    var pool := new Pool.Init(block, layout);
    return Made(pool);
  }
}
