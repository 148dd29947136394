/**
 Who may free a pool's block, and when (src/buf.rs): buffers come home from any thread, and
 the drop of a buffer is several steps between which other threads run. The state machine
 interleaves the steps of all threads freely; the mutex makes a critical section one step.
 */
module Reclaim {
  import opened Bits
  import opened Buffers
  import opened FreeList
  import opened Memory
  import opened PoolLayout
  import opened PoolRefinement
  import opened Wrappers
  import Seqs

  /** Who holds the mutex; `last` is what the test made under the mutex came to. */
  datatype Holder = Nobody | Getting | DroppingBuf(last: bool) | DroppingHandle(last: bool)

  /**
   `free` is the stack below the cursor. `held` has one occurrence for every pooled buffer
   given to a user and not dropped, `cleared` one for every buffer whose drop has begun and
   that is not on the stack yet. `pending` is the number of threads between giving up the
   mutex and deallocating, `freed` the number of deallocations, and `outAtDrop` how many
   buffers were not home when the handle was dropped.
   */
  datatype State = State(
    n: nat, cap: nat,
    free: seq<nat>, data: seq<seq<byte>>, held: multiset<nat>, cleared: multiset<nat>,
    lock: Holder, handle: bool, dropped: bool,
    pending: nat, freed: nat, outAtDrop: Option<nat>)

  datatype Step =
    | GetLock               // Pool::get: lock, and pop or allocate
    | GetUnlock
    | UseBuf(r: nat, op: Op)
    | DropClear(r: nat)     // Buf::drop: the length is set to zero
    | LockPush(r: nat)      // Buf::drop: lock, push, test
    | UnlockPush
    | HandleLock            // Pool::drop: lock, test, set the flag
    | HandleUnlock
    | Dealloc               // PoolInner::dealloc

  /** The pool as it is made: every buffer home. */
  ghost predicate Init(s: State) {
    && s.n > 0 && SharedOut(s.n, s.free, multiset{})
    && |s.data| == s.n && (forall r :: 0 <= r < s.n ==> s.data[r] == [])
    && s.held == multiset{} && s.cleared == multiset{}
    && s.lock == Nobody && s.handle && !s.dropped
    && s.pending == 0 && s.freed == 0 && s.outAtDrop == None
  }

  /**
   What the language's ownership rules and the mutex allow: a buffer is used or dropped by
   who was given it and pushed by who has cleared it, the handle is there until dropped, and
   a thread steps out of its critical section. Nothing here asks where a record is or whether
   the block still exists. A repeat that wraps is left to `RepeatOverruns`.
   */
  predicate Enabled(s: State, step: Step) {
    match step
    case GetLock => s.handle && s.lock == Nobody
    case GetUnlock => s.lock == Getting
    case UseBuf(r, op) => r in s.held && NoWrap(|Contents(s.data, r)|, op)
    case DropClear(r) => r in s.held
    case LockPush(r) => r in s.cleared && s.lock == Nobody
    case UnlockPush => s.lock.DroppingBuf?
    case HandleLock => s.handle && s.lock == Nobody
    case HandleUnlock => s.lock.DroppingHandle?
    case Dealloc => s.pending > 0
  }

  function Updated(data: seq<seq<byte>>, r: nat, d: seq<byte>): seq<seq<byte>> {
    if r < |data| then data[r := d] else data
  }

  function Next(s: State, step: Step): State
    requires Enabled(s, step)
  {
    match step
    case GetLock =>
      if s.free == [] then s.(lock := Getting)
      else
        var k := |s.free| - 1;
        s.(lock := Getting, free := s.free[..k], held := s.held + multiset{s.free[k]})
    case GetUnlock => s.(lock := Nobody)
    case UseBuf(r, op) => s.(data := Updated(s.data, r, Bounded(Contents(s.data, r), s.cap, op).0))
    case DropClear(r) =>
      s.(data := Updated(s.data, r, []), held := s.held - multiset{r}, cleared := s.cleared + multiset{r})
    case LockPush(r) =>
      var free := s.free + [r];
      s.(free := free, cleared := s.cleared - multiset{r}, lock := DroppingBuf(|free| == s.n && s.dropped))
    case UnlockPush => s.(lock := Nobody, pending := if s.lock.last then s.pending + 1 else s.pending)
    case HandleLock =>
      var last := |s.free| == s.n && s.dropped;
      s.(handle := false, lock := DroppingHandle(last), dropped := if last then s.dropped else true,
         outAtDrop := Some(|s.held| + |s.cleared|))
    case HandleUnlock => s.(lock := Nobody, pending := if s.lock.last then s.pending + 1 else s.pending)
    case Dealloc => s.(pending := s.pending - 1, freed := s.freed + 1)
  }

  // ---------------------------------------------------------------------------------
  // What every step keeps
  // ---------------------------------------------------------------------------------

  /** Each record is on the stack, with a user or on its way back, once; all but the held are empty. */
  ghost predicate Conserved(n: nat, free: seq<nat>, held: multiset<nat>, cleared: multiset<nat>, data: seq<seq<byte>>) {
    && SharedOut(n, free, held + cleared)
    && |data| == n
    && (forall r :: r in free ==> Contents(data, r) == [])
    && (forall r :: r in cleared ==> Contents(data, r) == [])
  }

  /** What the holder of the mutex found out still holds, and the handle's own test never succeeds. */
  predicate LockTold(s: State) {
    && s.dropped == !s.handle
    && (s.lock.DroppingBuf? ==> (s.lock.last <==> |s.free| == s.n && s.dropped))
    && (s.lock.DroppingHandle? ==> !s.lock.last && s.dropped)
    && (s.lock.Getting? ==> s.handle)
  }

  /** Deallocation is under way or done exactly when it should be. */
  predicate FreedRight(s: State) {
    match s.outAtDrop
    case None => s.handle && s.pending + s.freed == 0
    case Some(out) =>
      && !s.handle
      && s.pending + s.freed == (if out > 0 && |s.free| == s.n && !s.lock.DroppingBuf? then 1 else 0)
      && (out == 0 ==> |s.free| == s.n && !s.lock.DroppingBuf?)
      && (s.lock.DroppingHandle? ==> |s.free| == s.n - out)
      && out <= s.n
  }

  ghost predicate Inv(s: State) {
    s.n > 0 && Conserved(s.n, s.free, s.held, s.cleared, s.data) && LockTold(s) && FreedRight(s)
  }

  lemma InitInv(s: State)
    requires Init(s)
    ensures Inv(s)
  {
    assert s.held + s.cleared == multiset{};
  }

  lemma PoppedConserved(n: nat, free: seq<nat>, k: nat, held: multiset<nat>, cleared: multiset<nat>, data: seq<seq<byte>>)
    requires Conserved(n, free, held, cleared, data) && |free| == k + 1
    ensures Conserved(n, free[..k], held + multiset{free[k]}, cleared, data)
    ensures free[k] < n && free[k] !in free[..k] && free[k] !in held && free[k] !in cleared
    ensures data[free[k]] == []
  {
    HandOut(n, free, held + cleared, k);
    assert held + cleared + multiset{free[k]} == held + multiset{free[k]} + cleared;
    assert free[k] in free;
    assert forall r :: r in free[..k] ==> r in free;
  }

  lemma PushedConserved(n: nat, free: seq<nat>, r: nat, held: multiset<nat>, cleared: multiset<nat>, data: seq<seq<byte>>)
    requires Conserved(n, free, held, cleared, data) && r in cleared
    ensures |free| < n && r !in free && Conserved(n, free + [r], held, cleared - multiset{r}, data)
  {
    TakeBack(n, free, held + cleared, r);
    assert held + cleared - multiset{r} == held + (cleared - multiset{r});
    forall x | x in free + [r] ensures Contents(data, x) == [] {
      assert x in free || x == r;
    }
  }

  lemma DataConserved(n: nat, free: seq<nat>, held: multiset<nat>, cleared: multiset<nat>, data: seq<seq<byte>>,
                      r: nat, d: seq<byte>)
    requires Conserved(n, free, held, cleared, data) && r in held
    ensures r < n && Conserved(n, free, held, cleared, Updated(data, r, d))
  {
    TakeBack(n, free, held + cleared, r);
    SharesCounted(n, free, held + cleared);
    assert cleared[r] == 0;
  }

  lemma ClearedConserved(n: nat, free: seq<nat>, held: multiset<nat>, cleared: multiset<nat>, data: seq<seq<byte>>, r: nat)
    requires Conserved(n, free, held, cleared, data) && r in held
    ensures Conserved(n, free, held - multiset{r}, cleared + multiset{r}, Updated(data, r, []))
  {
    DataConserved(n, free, held, cleared, data, r, []);
    assert (held - multiset{r}) + (cleared + multiset{r}) == held + cleared;
  }

  lemma GetKeeps(s: State)
    requires Inv(s) && Enabled(s, GetLock)
    ensures Inv(Next(s, GetLock))
  {
    if s.free != [] {
      PoppedConserved(s.n, s.free, |s.free| - 1, s.held, s.cleared, s.data);
    }
  }

  lemma PushKeeps(s: State, r: nat)
    requires Inv(s) && Enabled(s, LockPush(r))
    ensures |s.free| < s.n
    ensures Inv(Next(s, LockPush(r)))
  {
    PushedConserved(s.n, s.free, r, s.held, s.cleared, s.data);
    assert |s.free + [r]| == |s.free| + 1;
  }

  lemma HandleKeeps(s: State)
    requires Inv(s) && Enabled(s, HandleLock)
    ensures Inv(Next(s, HandleLock))
  {
    SharesCounted(s.n, s.free, s.held + s.cleared);
  }

  lemma StepKeeps(s: State, step: Step)
    requires Inv(s) && Enabled(s, step)
    ensures Inv(Next(s, step))
  {
    match step
    case GetLock => GetKeeps(s);
    case GetUnlock =>
    case UseBuf(r, op) =>
      DataConserved(s.n, s.free, s.held, s.cleared, s.data, r, Bounded(Contents(s.data, r), s.cap, op).0);
    case DropClear(r) => ClearedConserved(s.n, s.free, s.held, s.cleared, s.data, r);
    case LockPush(r) => PushKeeps(s, r);
    case UnlockPush =>
    case HandleLock => HandleKeeps(s);
    case HandleUnlock =>
    case Dealloc =>
  }

  // ---------------------------------------------------------------------------------
  // Runs
  // ---------------------------------------------------------------------------------

  /** The steps can be taken one after the other. */
  predicate CanRun(s: State, steps: seq<Step>)
    decreases steps
  {
    steps != [] ==> Enabled(s, steps[0]) && CanRun(Next(s, steps[0]), steps[1..])
  }

  function After(s: State, steps: seq<Step>): State
    requires CanRun(s, steps)
    decreases steps
  {
    if steps == [] then s else After(Next(s, steps[0]), steps[1..])
  }

  lemma {:induction false} RunKeeps(s: State, steps: seq<Step>)
    requires Inv(s) && CanRun(s, steps)
    ensures Inv(After(s, steps)) && After(s, steps).n == s.n
    decreases steps
  {
    if steps == [] {
    } else {
      StepKeeps(s, steps[0]);
      RunKeeps(Next(s, steps[0]), steps[1..]);
    }
  }

  /** Nobody has a buffer of the pool, or is giving one back, or has the handle, or the mutex. */
  predicate Abandoned(s: State) {
    !s.handle && s.held == multiset{} && s.cleared == multiset{} && s.lock == Nobody
  }

  /**
   Safe reclamation, under every interleaving: the block goes at most once, not before the
   handle is dropped and nobody has a buffer any more, and from the moment the mutex is given
   up for the last time no thread can do anything but deallocate.
   */
  lemma SafeReclamation(s0: State, steps: seq<Step>)
    requires Init(s0) && CanRun(s0, steps)
    ensures var s := After(s0, steps);
            && s.pending + s.freed <= 1
            && (s.pending + s.freed == 1 ==> Abandoned(s))
            && (forall step :: Enabled(s, step) ==> s.freed == 0 && (s.pending == 0 || step == Dealloc))
  {
    InitInv(s0);
    RunKeeps(s0, steps);
    var s := After(s0, steps);
    AbandonedWhenFreed(s);
    forall step | Enabled(s, step) ensures s.freed == 0 && (s.pending == 0 || step == Dealloc) {
      NothingAfter(s, step);
    }
  }

  lemma AbandonedWhenFreed(s: State)
    requires Inv(s)
    ensures s.pending + s.freed <= 1
    ensures s.pending + s.freed == 1 ==> Abandoned(s)
  {
    SharesCounted(s.n, s.free, s.held + s.cleared);
    assert |s.held + s.cleared| == |s.held| + |s.cleared|;
  }

  lemma NothingAfter(s: State, step: Step)
    requires Inv(s) && Enabled(s, step)
    ensures s.freed == 0 && (s.pending == 0 || step == Dealloc)
  {
    AbandonedWhenFreed(s);
  }

  /** What `get` would take now has been given to nobody, and is empty. */
  ghost predicate TopIsUnused(s: State) {
    s.free != [] ==>
      var k := |s.free| - 1;
      var r := s.free[k];
      && r < s.n == |s.data| && s.data[r] == []
      && r !in s.held && r !in s.cleared && r !in s.free[..k]
  }

  /** A buffer on its way back is not on the stack, and the stack has room for it. */
  ghost predicate RoomForReturns(s: State) {
    forall r :: r in s.cleared ==> r !in s.free && |s.free| < s.n
  }

  /** A record is on the stack once, or one user has it, or one drop of it is under way. */
  ghost predicate OneOwnerEach(s: State) {
    forall r: nat :: multiset(s.free)[r] + s.held[r] + s.cleared[r] == if r < s.n then 1 else 0
  }

  lemma InvConserves(s: State)
    requires Inv(s)
    ensures OneOwnerEach(s) && Distinct(s.free) && |s.free| == s.n - |s.held| - |s.cleared|
    ensures TopIsUnused(s) && RoomForReturns(s)
  {
    var out := s.held + s.cleared;
    SharesCounted(s.n, s.free, out);
    ListedOnce(s.n, s.free, out);
    forall r: nat ensures multiset(s.free)[r] + s.held[r] + s.cleared[r] == if r < s.n then 1 else 0 {
      assert out[r] == s.held[r] + s.cleared[r];
    }
    assert |out| == |s.held| + |s.cleared|;
    if s.free != [] {
      PoppedConserved(s.n, s.free, |s.free| - 1, s.held, s.cleared, s.data);
    }
    forall r | r in s.cleared ensures r !in s.free && |s.free| < s.n {
      PushedConserved(s.n, s.free, r, s.held, s.cleared, s.data);
    }
  }

  /**
   Conservation: the records on the stack, those given to users and those on their way back
   are the original records, each once. So `pool_remaining` counts those not given out, the
   stack has room whenever a buffer comes back, and `get` never hands out a buffer in use.
   */
  lemma Conservation(s0: State, steps: seq<Step>)
    requires Init(s0) && CanRun(s0, steps)
    ensures var s := After(s0, steps);
            && s.n == s0.n && OneOwnerEach(s) && Distinct(s.free) && |s.free| == s.n - |s.held| - |s.cleared|
            && TopIsUnused(s) && RoomForReturns(s)
  {
    InitInv(s0);
    RunKeeps(s0, steps);
    InvConserves(After(s0, steps));
  }

  /** What `get` takes from the stack is its caller's alone from then on. */
  lemma GetHandsOut(s: State)
    requires Inv(s) && Enabled(s, GetLock) && s.free != []
    ensures var r, t := s.free[|s.free| - 1], Next(s, GetLock);
            && s.held[r] == 0 && t.held[r] == 1 && t.cleared[r] == 0 && r !in t.free
            && |t.free| == |s.free| - 1 && t.held == s.held + multiset{r} && Contents(t.data, r) == []
  {
    PoppedConserved(s.n, s.free, |s.free| - 1, s.held, s.cleared, s.data);
  }

  /** Nothing is left to happen. */
  predicate Complete(s: State) {
    Abandoned(s) && s.pending == 0
  }

  lemma SomeStep(s: State) returns (step: Step)
    requires !Complete(s)
    ensures Enabled(s, step)
  {
    if s.lock != Nobody {
      step := match s.lock case Getting => GetUnlock case DroppingBuf(_) => UnlockPush case _ => HandleUnlock;
    } else if s.handle {
      step := HandleLock;
    } else if s.pending > 0 {
      step := Dealloc;
    } else if s.cleared != multiset{} {
      var r :| r in s.cleared;
      step := LockPush(r);
    } else {
      var r :| r in s.held;
      step := DropClear(r);
    }
  }

  /** A run can go on until it is complete, and not beyond. */
  lemma StuckExactlyWhenComplete(s: State)
    requires Inv(s)
    ensures Complete(s) <==> !exists step :: Enabled(s, step)
  {
    if Complete(s) {
      forall step ensures !Enabled(s, step) {
        if Enabled(s, step) {
          NothingAfter(s, step);
        }
      }
    } else {
      var step := SomeStep(s);
    }
  }

  /**
   Exact reclamation: in every complete run the block is freed exactly once if a buffer was
   not home when the handle was dropped, and never if all of them were.
   */
  lemma ExactReclamation(s0: State, steps: seq<Step>)
    requires Init(s0) && CanRun(s0, steps) && Complete(After(s0, steps))
    ensures var s := After(s0, steps);
            && s.outAtDrop.Some?
            && s.freed == if s.outAtDrop.value > 0 then 1 else 0
  {
    InitInv(s0);
    RunKeeps(s0, steps);
    var s := After(s0, steps);
    InvConserves(s);
  }

  /** The thread that deallocates is the one that gave back the last buffer anybody had. */
  lemma LastReturnFrees(s: State, r: nat)
    requires Inv(s) && Enabled(s, LockPush(r))
    ensures var t := Next(Next(s, LockPush(r)), UnlockPush);
            t.pending == s.pending + if s.dropped && s.held == multiset{} && s.cleared == multiset{r} then 1 else 0
  {
    InvConserves(s);
    assert s.cleared == multiset{r} + (s.cleared - multiset{r});
    assert |s.cleared| == 1 + |s.cleared - multiset{r}|;
  }

  // ---------------------------------------------------------------------------------
  // Progress, and the calls as a whole
  // ---------------------------------------------------------------------------------

  /** How much is left to do once the handle is gone. */
  function Work(s: State): nat {
    5 * |s.held| + 4 * |s.cleared| + (if s.lock == Nobody then 0 else 2) + s.pending
  }

  lemma Progress(s: State, step: Step)
    requires Inv(s) && Enabled(s, step) && !s.handle
    ensures !Next(s, step).handle
    ensures if step.UseBuf? then Work(Next(s, step)) == Work(s) else Work(Next(s, step)) < Work(s)
  {
    if step.DropClear? {
      assert s.held == (s.held - multiset{step.r}) + multiset{step.r};
    } else if step.LockPush? {
      assert s.cleared == (s.cleared - multiset{step.r}) + multiset{step.r};
    }
  }

  /** The steps that are not the use of a buffer by its holder. */
  function Closing(steps: seq<Step>): seq<Step> {
    if steps == [] then []
    else (if steps[0].UseBuf? then [] else [steps[0]]) + Closing(steps[1..])
  }

  /** Once the handle is gone only so many steps can happen beside the use of buffers. */
  lemma {:induction false} Closes(s: State, steps: seq<Step>)
    requires Inv(s) && CanRun(s, steps) && !s.handle
    ensures |Closing(steps)| <= Work(s)
    decreases steps
  {
    if steps == [] {
    } else {
      Progress(s, steps[0]);
      StepKeeps(s, steps[0]);
      Closes(Next(s, steps[0]), steps[1..]);
    }
  }

  // ---------------------------------------------------------------------------------
  // Every interleaving is a sequential run, over memory too
  // ---------------------------------------------------------------------------------

  /** A buffer being dropped is out until it is pushed. */
  function View(s: State): Model {
    Model(s.free, s.data, s.held + s.cleared)
  }

  /** Where a step takes effect. */
  function ActionOf(step: Step): seq<Action> {
    match step
    case GetLock => [Take]
    case UseBuf(r, op) => [Use(r, op)]
    case DropClear(r) => [Use(r, Op.Clear)]
    case LockPush(r) => [GiveBack(r)]
    case _ => []
  }

  function Actions(steps: seq<Step>): seq<Action> {
    if steps == [] then [] else ActionOf(steps[0]) + Actions(steps[1..])
  }

  lemma Moved(a: multiset<nat>, b: multiset<nat>, r: nat)
    ensures a + b + multiset{r} == (a + multiset{r}) + b
    ensures r in a ==> (a - multiset{r}) + (b + multiset{r}) == a + b
    ensures r in b ==> a + b - multiset{r} == a + (b - multiset{r})
  {
  }

  lemma StepIsAction(s: State, step: Step, a: Action)
    requires Inv(s) && Enabled(s, step) && ActionOf(step) == [a]
    ensures Legal(View(s), a)
    ensures ModelStep(View(s), s.cap, a) == View(Next(s, step))
  {
    match step
    case GetLock =>
      if s.free != [] {
        Moved(s.held, s.cleared, s.free[|s.free| - 1]);
      }
    case UseBuf(r, op) =>
    case DropClear(r) => Moved(s.held, s.cleared, r);
    case LockPush(r) => Moved(s.held, s.cleared, r);
  }

  lemma RunCons(x: Model, cap: nat, a: Action, rest: seq<Action>)
    requires Legal(x, a) && LegalRun(ModelStep(x, cap, a), cap, rest)
    ensures LegalRun(x, cap, [a] + rest)
    ensures ModelRun(x, cap, [a] + rest) == ModelRun(ModelStep(x, cap, a), cap, rest)
  {
    Seqs.Parts([a], rest);
  }

  lemma SilentStep(s: State, step: Step)
    requires Enabled(s, step) && ActionOf(step) == []
    ensures View(Next(s, step)) == View(s)
  {
  }

  lemma OneMoreStep(s: State, step: Step, acts: seq<Action>)
    requires Inv(s) && Enabled(s, step)
    requires LegalRun(View(Next(s, step)), s.cap, acts)
    ensures LegalRun(View(s), s.cap, ActionOf(step) + acts)
    ensures ModelRun(View(s), s.cap, ActionOf(step) + acts) == ModelRun(View(Next(s, step)), s.cap, acts)
  {
    if ActionOf(step) == [] {
      SilentStep(s, step);
      Seqs.Empty(acts);
    } else {
      var a := ActionOf(step)[0];
      StepIsAction(s, step, a);
      RunCons(View(s), s.cap, a, acts);
    }
  }

  lemma CapStays(s: State, step: Step)
    requires Enabled(s, step)
    ensures Next(s, step).cap == s.cap
  {
  }

  /**
   However the threads interleave, stack, contents and buffers handed out are those of one
   legal sequence of actions.
   */
  lemma {:induction false} Linearized(s: State, steps: seq<Step>)
    requires Inv(s) && CanRun(s, steps)
    ensures LegalRun(View(s), s.cap, Actions(steps))
    ensures ModelRun(View(s), s.cap, Actions(steps)) == View(After(s, steps))
    decreases steps
  {
    if steps == [] {
    } else {
      StepKeeps(s, steps[0]);
      CapStays(s, steps[0]);
      Linearized(Next(s, steps[0]), steps[1..]);
      OneMoreStep(s, steps[0], Actions(steps[1..]));
    }
  }

  /**
   So after every interleaving the bytes of the block, from a new one on, hold what the
   machine says: what is proved of its states is true of the memory. A step is exactly the
   stores that the source makes at that point.
   */
  lemma OverMemory(s0: State, steps: seq<Step>, m: Mem, l: Layout)
    requires Init(s0) && CanRun(s0, steps)
    requires PoolInv(m, l, s0.free, multiset{}) && l.n == s0.n && l.cap == s0.cap
    ensures Represents(FlatRun(FlatPool(m, l.PoolEnd()), l, Actions(steps)), l, View(After(s0, steps)))
  {
    InitInv(s0);
    assert View(s0).out == multiset{};
    NewRepresents(m, l, View(s0));
    Linearized(s0, steps);
    RunRefines(FlatPool(m, l.PoolEnd()), l, View(s0), Actions(steps));
  }

  /** The steps of one drop, with no other thread between them, are a drop of the sequential model. */
  lemma DropIsDrop(s: State, r: nat)
    requires Inv(s) && Enabled(s, DropClear(r)) && s.lock == Nobody
    ensures var s1 := Next(s, DropClear(r));
            && Enabled(s1, LockPush(r))
            && View(Next(Next(s1, LockPush(r)), UnlockPush))
               == ModelStep(ModelStep(View(s), s.cap, Use(r, Op.Clear)), s.cap, GiveBack(r))
  {
    var s1 := Next(s, DropClear(r));
    StepKeeps(s, DropClear(r));
    StepIsAction(s, DropClear(r), Use(r, Op.Clear));
    StepIsAction(s1, LockPush(r), GiveBack(r));
    SilentStep(Next(s1, LockPush(r)), UnlockPush);
  }
}
