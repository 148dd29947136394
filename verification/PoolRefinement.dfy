/**
 The pool's block refines a stack of record numbers, one bounded byte sequence per record
 and the multiset of the records handed out: taking, using and pushing buffers in any order
 by whoever was given them.
 */
module PoolRefinement {
  import opened Bits
  import opened Buffers
  import opened FreeList
  import opened Memory
  import opened PoolLayout
  import Seqs

  datatype Action = Take | Use(r: nat, op: Op) | GiveBack(r: nat)

  /** The abstract pool: the free stack, the contents of every record, and the records handed out. */
  datatype Model = Model(free: seq<nat>, data: seq<seq<byte>>, out: multiset<nat>)

  /** The concrete pool: the block, and the offset of the cursor into it. */
  datatype FlatPool = FlatPool(m: Mem, cursor: nat)

  function Contents(data: seq<seq<byte>>, r: nat): seq<byte> {
    if r < |data| then data[r] else []
  }

  /**
   What ownership of buffers guarantees: a buffer is used or pushed by someone it was handed
   to. A repeat must not wrap, and a push comes when the buffer has been cleared.
   */
  predicate Legal(x: Model, a: Action) {
    match a
    case Take => true
    case Use(r, op) => r in x.out && NoWrap(|Contents(x.data, r)|, op)
    case GiveBack(r) => r in x.out && Contents(x.data, r) == []
  }

  /** From an empty pool taking gives a standalone buffer, which is no concern of the block. */
  function ModelStep(x: Model, cap: nat, a: Action): Model {
    match a
    case Take =>
      if x.free == [] then x
      else
        var k := |x.free| - 1;
        x.(free := x.free[..k], out := x.out + multiset{x.free[k]})
    case Use(r, op) =>
      if r < |x.data| then x.(data := x.data[r := Bounded(x.data[r], cap, op).0]) else x
    case GiveBack(r) => x.(free := x.free + [r], out := x.out - multiset{r})
  }

  function FlatStep(p: FlatPool, l: Layout, a: Action): FlatPool {
    match a
    case Take => if p.cursor == l.Slot(0) || p.cursor < 8 then p else p.(cursor := p.cursor - 8)
    case Use(r, op) => if IsBuf(p.m, l.Header(r)) then p.(m := Flat(p.m, l.Header(r), op).0) else p
    case GiveBack(r) =>
      if p.cursor + 8 <= |p.m|
      then FlatPool(Store(p.m, p.cursor, 8, l.base + l.Header(r)), p.cursor + 8) else p
  }

  ghost predicate Represents(p: FlatPool, l: Layout, x: Model) {
    && PoolInv(p.m, l, x.free, x.out)
    && p.cursor == l.Slot(|x.free|)
    && |x.data| == l.n
    && forall r: nat :: r < l.n ==> x.data[r] == RecordData(p.m, l, r)
  }

  // ---------------------------------------------------------------------------------
  // The three steps
  // ---------------------------------------------------------------------------------

  lemma Popped(m: Mem, l: Layout, free: seq<nat>, out: multiset<nat>, k: nat)
    requires PoolInv(m, l, free, out) && |free| == k + 1
    ensures PoolInv(m, l, free[..k], out + multiset{free[k]})
    ensures free[k] < l.n && free[k] !in free[..k] && free[k] !in out
  {
    HandOut(l.n, free, out, k);
    assert forall i :: 0 <= i < k ==> free[..k][i] == free[i];
  }

  /** The record on top of the stack is an empty buffer of the pool's capacity. */
  lemma TakeStep(m: Mem, l: Layout, free: seq<nat>, out: multiset<nat>, k: nat, at: nat)
    requires PoolInv(m, l, free, out) && |free| == k + 1 && at == l.Slot(k)
    ensures free[k] < l.n && at + 8 <= |m| && Load(m, at, 8) == l.base + l.Header(free[k])
    ensures IsBuf(m, l.Header(free[k])) && Capacity(m, l.Header(free[k])) == l.cap
    ensures Data(m, l.Header(free[k])) == []
  {
    RecordIsBuf(m, l, free[k]);
    assert RecordData(m, l, free[k]) == [];
  }

  /** Record `r` took on the contents `d`, the stack became `free`, and no other record changed. */
  ghost predicate Turned(m: Mem, m': Mem, l: Layout, free: seq<nat>, out: multiset<nat>, r: nat, d: seq<byte>)
    requires Shaped(m, l) && r < l.n
  {
    && PoolInv(m', l, free, out)
    && RecordData(m', l, r) == d
    && OthersSame(m, m', l, r)
  }

  lemma FreeStaysEmpty(m: Mem, m': Mem, l: Layout, free: seq<nat>, out: multiset<nat>, r: nat)
    requires PoolInv(m, l, free, out) && r !in free
    requires Shaped(m', l) && Stack(m', l, free) && OthersSame(m, m', l, r)
    ensures PoolInv(m', l, free, out)
  {
    forall k | 0 <= k < |free| ensures free[k] < l.n && RecordData(m', l, free[k]) == [] {
      assert free[k] != r;
    }
  }

  /** Using a buffer that was handed out changes that buffer as a bounded sequence, and no other. */
  lemma UseStep(m: Mem, l: Layout, free: seq<nat>, out: multiset<nat>, r: nat, op: Op)
    requires PoolInv(m, l, free, out) && r in out
    ensures r < l.n && r !in free && IsBuf(m, l.Header(r))
    ensures NoWrap(|RecordData(m, l, r)|, op) ==>
              && Flat(m, l.Header(r), op).1 == Bounded(RecordData(m, l, r), l.cap, op).1
              && Turned(m, Flat(m, l.Header(r), op).0, l, free, out, r, Bounded(RecordData(m, l, r), l.cap, op).0)
              && Flat(m, l.Header(r), op).0[..l.PoolEnd()] == m[..l.PoolEnd()]
  {
    ListedOnce(l.n, free, out);
    RecordIsBuf(m, l, r);
    if NoWrap(|RecordData(m, l, r)|, op) {
      FlatIsBounded(m, l.Header(r), op);
      var m' := Flat(m, l.Header(r), op).0;
      OnlyOneRecord(m, m', l, r, Bounded(RecordData(m, l, r), l.cap, op).0);
      StackUntouched(m, m', l, free);
      FreeStaysEmpty(m, m', l, free, out, r);
    }
  }

  ghost predicate AllSame(m: Mem, m': Mem, l: Layout)
    requires Shaped(m, l) && Shaped(m', l)
  {
    forall s: nat :: s < l.n ==> RecordData(m', l, s) == RecordData(m, l, s)
  }

  /** `m'` is `m` with the address of record `r` written into slot `k`. */
  ghost predicate SlotSet(m: Mem, m': Mem, l: Layout, k: nat, r: nat) {
    l.Slot(k) + 8 <= |m| && m' == Store(m, l.Slot(k), 8, l.base + l.Header(r))
  }

  /** Writing a slot below the records leaves all of them alone. */
  lemma SlotWritten(m: Mem, m': Mem, l: Layout, k: nat, r: nat)
    requires Shaped(m, l) && k < l.n && SlotSet(m, m', l, k, r)
    ensures Shaped(m', l) && AllSame(m, m', l)
  {
    forall s: nat | s < l.n
      ensures l.Record(s) + l.RecordSize() <= |m'| && RecordOk(m', l, s)
      ensures IsBuf(m', l.Header(s)) && Data(m', l.Header(s)) == RecordData(m, l, s)
    {
      RecordsInOrder(l, s, s);
      RecordUntouched(m, m', l, s);
    }
  }

  lemma SlotLoads(m: Mem, m': Mem, l: Layout, k: nat, r: nat, i: nat)
    requires l.Ok() && |m| == l.Total() && r < l.n && i <= k < l.n && SlotSet(m, m', l, k, r)
    ensures |m'| == |m| && l.Slot(k) + 8 <= |m|
    ensures Load(m', l.Slot(i), 8) == if i == k then l.base + l.Header(r) else Load(m, l.Slot(i), 8)
  {
    RecordsInOrder(l, r, r);
    Widths();
    LoadStore(m, l.Slot(k), 8, l.base + l.Header(r), l.Slot(i), 8);
  }

  lemma StackPushed(m: Mem, m': Mem, l: Layout, free: seq<nat>, r: nat)
    requires Shaped(m, l) && Stack(m, l, free) && |free| < l.n && r < l.n
    requires SlotSet(m, m', l, |free|, r)
    ensures Stack(m', l, free + [r])
  {
    forall i | 0 <= i < |free| + 1
      ensures l.Slot(i) + 8 <= |m'| && Load(m', l.Slot(i), 8) == l.base + l.Header((free + [r])[i])
    {
      SlotLoads(m, m', l, |free|, r, i);
      assert i < |free| ==> Load(m, l.Slot(i), 8) == l.base + l.Header(free[i]);
    }
  }

  lemma PushedInv(m: Mem, m': Mem, l: Layout, free: seq<nat>, out: multiset<nat>, r: nat)
    requires PoolInv(m, l, free, out) && r in out && r < l.n && RecordData(m, l, r) == []
    requires Shaped(m', l) && AllSame(m, m', l) && Stack(m', l, free + [r])
    ensures PoolInv(m', l, free + [r], out - multiset{r})
  {
    TakeBack(l.n, free, out, r);
    var f := free + [r];
    forall k | 0 <= k < |f| ensures f[k] < l.n && RecordData(m', l, f[k]) == [] {
      assert k < |free| ==> f[k] == free[k];
      assert RecordData(m', l, f[k]) == RecordData(m, l, f[k]);
    }
  }

  /** The push of an emptied buffer: there is room, and every buffer keeps its contents. */
  lemma PushStep(m: Mem, m': Mem, l: Layout, free: seq<nat>, out: multiset<nat>, r: nat)
    requires PoolInv(m, l, free, out) && r in out && r < l.n && RecordData(m, l, r) == []
    requires SlotSet(m, m', l, |free|, r)
    ensures |free| < l.n
    ensures Shaped(m', l) && AllSame(m, m', l) && PoolInv(m', l, free + [r], out - multiset{r})
  {
    TakeBack(l.n, free, out, r);
    SlotWritten(m, m', l, |free|, r);
    StackPushed(m, m', l, free, r);
    PushedInv(m, m', l, free, out, r);
  }

  lemma TurnedThenSame(m: Mem, m1: Mem, m2: Mem, l: Layout, f1: seq<nat>, o1: multiset<nat>,
                       f2: seq<nat>, o2: multiset<nat>, r: nat, d: seq<byte>)
    requires Shaped(m, l) && r < l.n && Turned(m, m1, l, f1, o1, r, d)
    requires Shaped(m2, l) && AllSame(m1, m2, l) && PoolInv(m2, l, f2, o2)
    ensures Turned(m, m2, l, f2, o2, r, d)
  {
  }

  lemma RoomToPush(m: Mem, l: Layout, free: seq<nat>, out: multiset<nat>, r: nat)
    requires PoolInv(m, l, free, out) && r in out
    ensures |free| < l.n && r < l.n && l.Header(r) + 4 <= |m| && l.Slot(|free|) + 8 <= |m|
  {
    TakeBack(l.n, free, out, r);
    RecordsInOrder(l, r, r);
  }

  /** Returning a buffer empties it and puts it on the stack, whatever was written into it. */
  lemma ReturnStep(m: Mem, m1: Mem, m2: Mem, l: Layout, free: seq<nat>, out: multiset<nat>, r: nat)
    requires PoolInv(m, l, free, out) && r in out
    requires l.Header(r) + 4 <= |m| && m1 == Store(m, l.Header(r), 4, 0)
    requires SlotSet(m1, m2, l, |free|, r)
    ensures r < l.n && Turned(m, m2, l, free + [r], out - multiset{r}, r, [])
  {
    UseStep(m, l, free, out, r, Clear);
    PushStep(m1, m2, l, free, out, r);
    TurnedThenSame(m, m1, m2, l, free, out, free + [r], out - multiset{r}, r, []);
  }

  // ---------------------------------------------------------------------------------
  // The refinement
  // ---------------------------------------------------------------------------------

  lemma TakeRefines(p: FlatPool, l: Layout, x: Model)
    requires Represents(p, l, x)
    ensures Represents(FlatStep(p, l, Take), l, ModelStep(x, l.cap, Take))
  {
    if x.free != [] {
      Popped(p.m, l, x.free, x.out, |x.free| - 1);
    }
  }

  /** Taking yields the address of an empty record that had been handed to nobody. */
  lemma TakeAnswer(p: FlatPool, l: Layout, x: Model, r: nat)
    requires Represents(p, l, x) && x.free != [] && r == x.free[|x.free| - 1]
    ensures 8 <= p.cursor <= |p.m| && Load(p.m, p.cursor - 8, 8) == l.base + l.Header(r)
    ensures r < l.n && x.data[r] == [] && r !in x.out
  {
    Popped(p.m, l, x.free, x.out, |x.free| - 1);
    TakeStep(p.m, l, x.free, x.out, |x.free| - 1, p.cursor - 8);
  }

  /**
   Use by a holder gives the answer of the bounded sequence, changes no other record, and
   leaves the array of free pointers as it is, the part above the cursor too.
   */
  lemma UseRefines(p: FlatPool, l: Layout, x: Model, r: nat, op: Op)
    requires Represents(p, l, x) && Legal(x, Use(r, op))
    ensures Represents(FlatStep(p, l, Use(r, op)), l, ModelStep(x, l.cap, Use(r, op)))
    ensures IsBuf(p.m, l.Header(r)) && r < l.n
    ensures Flat(p.m, l.Header(r), op).1 == Bounded(x.data[r], l.cap, op).1
    ensures FlatStep(p, l, Use(r, op)).m[..l.PoolEnd()] == p.m[..l.PoolEnd()]
  {
    UseStep(p.m, l, x.free, x.out, r, op);
  }

  /** A longer stack over the same contents. */
  lemma GivenBack(p: FlatPool, m': Mem, l: Layout, x: Model, r: nat)
    requires Represents(p, l, x)
    requires PoolInv(m', l, x.free + [r], x.out - multiset{r}) && AllSame(p.m, m', l)
    ensures Represents(FlatPool(m', p.cursor + 8), l, ModelStep(x, 0, GiveBack(r)))
  {
    assert |x.free + [r]| == |x.free| + 1;
  }

  lemma FlatPush(p: FlatPool, l: Layout, k: nat, r: nat)
    requires p.cursor == l.Slot(k) && l.Slot(k) + 8 <= |p.m|
    ensures SlotSet(p.m, FlatStep(p, l, GiveBack(r)).m, l, k, r)
    ensures FlatStep(p, l, GiveBack(r)).cursor == p.cursor + 8
  {
  }

  lemma HolderFacts(p: FlatPool, l: Layout, x: Model, r: nat)
    requires Represents(p, l, x) && r in x.out
    ensures r < l.n && Contents(x.data, r) == RecordData(p.m, l, r)
  {
    ListedOnce(l.n, x.free, x.out);
  }

  /** The push of a cleared buffer by its holder: there is room for it. */
  lemma GiveBackRefines(p: FlatPool, l: Layout, x: Model, r: nat)
    requires Represents(p, l, x) && Legal(x, GiveBack(r))
    ensures p.cursor != l.PoolEnd()
    ensures Represents(FlatStep(p, l, GiveBack(r)), l, ModelStep(x, l.cap, GiveBack(r)))
  {
    HolderFacts(p, l, x, r);
    RoomToPush(p.m, l, x.free, x.out, r);
    FlatPush(p, l, |x.free|, r);
    var m' := FlatStep(p, l, GiveBack(r)).m;
    PushStep(p.m, m', l, x.free, x.out, r);
    GivenBack(p, m', l, x, r);
  }

  lemma StepRefines(p: FlatPool, l: Layout, x: Model, a: Action)
    requires Represents(p, l, x) && Legal(x, a)
    ensures Represents(FlatStep(p, l, a), l, ModelStep(x, l.cap, a))
  {
    match a
    case Take => TakeRefines(p, l, x);
    case Use(r, op) => UseRefines(p, l, x, r, op);
    case GiveBack(r) => GiveBackRefines(p, l, x, r);
  }

  ghost predicate LegalRun(x: Model, cap: nat, acts: seq<Action>)
    decreases acts
  {
    acts != [] ==> Legal(x, acts[0]) && LegalRun(ModelStep(x, cap, acts[0]), cap, acts[1..])
  }

  function ModelRun(x: Model, cap: nat, acts: seq<Action>): Model
    decreases acts
  {
    if acts == [] then x else ModelRun(ModelStep(x, cap, acts[0]), cap, acts[1..])
  }

  function FlatRun(p: FlatPool, l: Layout, acts: seq<Action>): FlatPool
    decreases acts
  {
    if acts == [] then p else FlatRun(FlatStep(p, l, acts[0]), l, acts[1..])
  }

  /** A new block, with every record free, stands for empty buffers. */
  lemma NewRepresents(m: Mem, l: Layout, x: Model)
    requires PoolInv(m, l, x.free, x.out) && x.out == multiset{}
    requires |x.data| == l.n && forall r :: 0 <= r < l.n ==> x.data[r] == []
    ensures Represents(FlatPool(m, l.PoolEnd()), l, x)
  {
    SharesCounted(l.n, x.free, x.out);
    forall r: nat | r < l.n ensures x.data[r] == RecordData(m, l, r) {
      assert r in multiset(x.free);
      assert r in x.free;
    }
  }

  /** Every run over memory is a run of the abstract pool. */
  lemma {:induction false} RunRefines(p: FlatPool, l: Layout, x: Model, acts: seq<Action>)
    requires Represents(p, l, x) && LegalRun(x, l.cap, acts)
    ensures Represents(FlatRun(p, l, acts), l, ModelRun(x, l.cap, acts))
    decreases acts
  {
    if acts == [] {
    } else {
      StepRefines(p, l, x, acts[0]);
      RunRefines(FlatStep(p, l, acts[0]), l, ModelStep(x, l.cap, acts[0]), acts[1..]);
    }
  }

  /** What happened to one buffer alone. */
  function UsesOf(acts: seq<Action>, r: nat): seq<Op> {
    if acts == [] then []
    else (if acts[0].Use? && acts[0].r == r then [acts[0].op] else []) + UsesOf(acts[1..], r)
  }

  function DataAfter(d: seq<byte>, cap: nat, ops: seq<Op>): seq<byte>
    decreases ops
  {
    if ops == [] then d else DataAfter(Bounded(d, cap, ops[0]).0, cap, ops[1..])
  }

  /** The contents of a record depend only on what was done to that record. */
  lemma {:induction false} Independent(x: Model, cap: nat, acts: seq<Action>, r: nat)
    requires r < |x.data|
    ensures |ModelRun(x, cap, acts).data| == |x.data|
    ensures ModelRun(x, cap, acts).data[r] == DataAfter(x.data[r], cap, UsesOf(acts, r))
    decreases acts
  {
    if acts == [] {
    } else {
      Independent(ModelStep(x, cap, acts[0]), cap, acts[1..], r);
      Seqs.Empty(UsesOf(acts[1..], r));
      if acts[0].Use? && acts[0].r == r {
        Seqs.Parts([acts[0].op], UsesOf(acts[1..], r));
      }
    }
  }
}
