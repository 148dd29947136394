/**
 The FIFO ring buffer of src/ringbuffer.rs: what it yields and which elements it drops, for
 any number of additions, including those that make the 64-bit counter wrap.
 */
module RingBuffers {
  import opened Arithmetic
  import opened Bits
  import opened Wrappers
  import Seqs

  /** A `MaybeUninit` slot: reading or dropping it is allowed only when it was written. */
  datatype Slot<+T> = Uninit | Written(value: T)

  function Min(a: nat, b: nat): (m: nat)
    ensures m <= a && m <= b && (m == a || m == b)
  {
    if a < b then a else b
  }

  /** How many of the elements added since the last clear are kept. */
  function Kept(capacity: nat, added: nat): nat {
    Min(capacity, added % TWO_64)
  }

  function Last<T>(s: seq<T>, n: nat): (r: seq<T>)
    requires n <= |s|
    ensures |r| == n && forall k :: 0 <= k < n ==> r[k] == s[|s| - n + k]
  {
    s[|s| - n..]
  }

  lemma KeptAtMostAdded(capacity: nat, added: nat)
    ensures Kept(capacity, added) <= added
  {
  }

  /**
   The buffer holds the last `capacity` elements, as a ring buffer should, exactly until the
   counter wraps and then again once it is full anew.
   */
  lemma KeepsTheLastExactly(capacity: nat, added: nat)
    requires capacity < TWO_64
    ensures Kept(capacity, added) == Min(capacity, added) <==>
              capacity == 0 || added < TWO_64 || added % TWO_64 >= capacity
  {
  }

  /** A full turn ends in the same slot. */
  lemma FullTurn(i: nat, c: nat)
    requires c > 0
    ensures (i + c) % c == i % c
  {
    assert i == c * (i / c) + i % c;
    assert c * (i / c + 1) == c * (i / c) + c;
    DivisionUnique(i + c, c, i / c + 1, i % c);
  }

  /** Positions less than a full turn apart are different slots. */
  lemma SlotsDistinct(i: nat, j: nat, c: nat)
    requires i < j < i + c
    ensures i % c != j % c
  {
    var q := j / c - i / c;
    assert i == c * (i / c) + i % c && j == c * (j / c) + j % c;
    if i % c == j % c {
      assert j - i == c * q;
      if q >= 1 {
        ProductMonotone(1, q, c);
      } else {
        ProductMonotone(1, 1 - q, c);
      }
    }
  }

  /** The last `kept` elements of `since` sit in the slots their positions lead to. */
  ghost predicate Holds<T>(a: seq<Slot<T>>, p: nat, since: seq<T>, kept: nat)
    requires kept <= p && kept <= |since|
  {
    kept > 0 ==>
      forall i :: p - kept <= i < p ==> a != [] && a[i % |a|] == Written(since[|since| - p + i])
  }

  lemma HoldsAfterAdd<T>(a: seq<Slot<T>>, p: nat, since: seq<T>, o: T)
    requires a != [] && p <= |since| && Holds(a, p, since, Min(|a|, p))
    ensures Holds(a[p % |a| := Written(o)], p + 1, since + [o], Min(|a|, p + 1))
  {
    var c, b, s := |a|, a[p % |a| := Written(o)], since + [o];
    var kept := Min(c, p + 1);
    forall i | p + 1 - kept <= i < p + 1 ensures b[i % c] == Written(s[|s| - (p + 1) + i]) {
      if i < p {
        SlotsDistinct(i, p, c);
        assert a[i % c] == Written(since[|since| - p + i]);
      }
    }
  }

  /** The slot about to be overwritten holds the oldest element kept. */
  lemma OldestIsNext<T>(a: seq<Slot<T>>, p: nat, since: seq<T>)
    requires a != [] && |a| <= p <= |since| && Holds(a, p, since, |a|)
    ensures a[p % |a|] == Written(Last(since, |a|)[0])
  {
    FullTurn(p - |a|, |a|);
  }

  /** The window grows until it is full, then slides. */
  lemma WindowAfterAdd<T>(since: seq<T>, kept: nat, o: T)
    requires kept <= |since|
    ensures Last(since + [o], kept + 1) == Last(since, kept) + [o]
    ensures kept > 0 ==> multiset(Last(since + [o], kept)) + multiset{Last(since, kept)[0]}
                         == multiset(Last(since, kept)) + multiset{o}
  {
    if kept > 0 {
      var w := Last(since, kept);
      assert w == [w[0]] + w[1..];
      assert Last(since + [o], kept) == w[1..] + [o];
    }
  }

  /**
   What happened to a buffer: the elements added since the last clear, oldest first; every
   element ever added, dropped, or overwritten without a drop; and whether the counter wrapped.
   */
  datatype Log<T> = Log(since: seq<T>, added: multiset<T>, dropped: multiset<T>, leaked: multiset<T>, wrapped: bool)

  /** The elements kept while the counter shows `p`. */
  function Live<T>(capacity: nat, p: nat, since: seq<T>): seq<T>
    requires p <= |since|
  {
    Last(since, Min(capacity, p))
  }

  /** The last elements of a history that a buffer of this capacity keeps. */
  function LastKept<T>(capacity: nat, since: seq<T>): seq<T> {
    KeptAtMostAdded(capacity, |since|);
    Last(since, Kept(capacity, |since|))
  }

  /** The counter is the number of additions modulo 2^64, and the slots hold what is kept. */
  ghost predicate Positions<T>(a: seq<Slot<T>>, p: nat, since: seq<T>) {
    && |a| < TWO_64
    && p == |since| % TWO_64 <= |since|
    && Holds(a, p, since, Min(|a|, p))
  }

  /** Every element added is kept, was dropped, or was leaked: once each. */
  ghost predicate Accounts<T>(capacity: nat, p: nat, l: Log<T>)
    requires p <= |l.since|
  {
    && l.added == l.dropped + l.leaked + multiset(Live(capacity, p, l.since))
    && (!l.wrapped ==> l.leaked == multiset{} && p == |l.since|)
  }

  ghost predicate Inv<T>(a: seq<Slot<T>>, p: nat, l: Log<T>) {
    && Positions(a, p, l.since)
    && Accounts(|a|, p, l)
    && (!l.wrapped ==> forall i :: p <= i < |a| ==> a[i] == Uninit)
  }

  /** The log after an addition: nothing, the oldest element, or a whole buffer is lost. */
  function LogAdd<T>(capacity: nat, p: nat, l: Log<T>, o: T): Log<T>
    requires 0 < capacity && p <= |l.since|
  {
    var since, added := l.since + [o], l.added + multiset{o};
    var dropped := if p < capacity then l.dropped else l.dropped + multiset{Live(capacity, p, l.since)[0]};
    if p + 1 < TWO_64 then Log(since, added, dropped, l.leaked, l.wrapped)
    else Log(since, added, dropped, l.leaked + multiset(Last(since, Min(capacity, p + 1))), true)
  }

  /** `p.wrapping_add(1)`. */
  function WrappingInc(p: nat): nat {
    if p + 1 == TWO_64 then 0 else p + 1
  }

  lemma CounterStep(n: nat)
    ensures (n + 1) % TWO_64 == WrappingInc(n % TWO_64)
  {
  }

  lemma PositionsAfterAdd<T>(a: seq<Slot<T>>, p: nat, since: seq<T>, o: T)
    requires a != [] && Positions(a, p, since)
    ensures Positions(a[p % |a| := Written(o)], WrappingInc(p), since + [o])
    ensures p >= |a| ==> a[p % |a|] == Written(Live(|a|, p, since)[0])
  {
    HoldsAfterAdd(a, p, since, o);
    CounterStep(|since|);
    if p >= |a| {
      OldestIsNext(a, p, since);
    }
  }

  lemma Balance<T>(added: multiset<T>, dropped: multiset<T>, leaked: multiset<T>, was: multiset<T>,
                   now: multiset<T>, lost: multiset<T>, o: multiset<T>)
    requires added == dropped + leaked + was && now + lost == was + o
    ensures added + o == (dropped + lost) + leaked + now
    ensures added + o == (dropped + lost) + (leaked + now) + multiset{}
  {
    forall x: T
      ensures (added + o)[x] == dropped[x] + lost[x] + leaked[x] + now[x]
    {
      assert (now + lost)[x] == now[x] + lost[x] && (was + o)[x] == was[x] + o[x];
    }
    assert forall x: T :: ((dropped + lost) + leaked + now)[x] == dropped[x] + lost[x] + leaked[x] + now[x];
  }

  lemma LiveAfterAdd<T>(capacity: nat, p: nat, since: seq<T>, o: T)
    requires 0 < capacity && p <= |since|
    ensures var was, now := Live(capacity, p, since), Live(capacity, p + 1, since + [o]);
            multiset(now) + (if p < capacity then multiset{} else multiset{was[0]}) == multiset(was) + multiset{o}
  {
    WindowAfterAdd(since, Min(capacity, p), o);
  }

  lemma AccountsAfterAdd<T>(capacity: nat, p: nat, l: Log<T>, o: T)
    requires 0 < capacity < TWO_64 && p <= |l.since| && p < TWO_64 && Accounts(capacity, p, l)
    ensures Accounts(capacity, WrappingInc(p), LogAdd(capacity, p, l, o))
  {
    var was, now := Live(capacity, p, l.since), Live(capacity, p + 1, l.since + [o]);
    var lost := if p < capacity then multiset{} else multiset{was[0]};
    LiveAfterAdd(capacity, p, l.since, o);
    Balance(l.added, l.dropped, l.leaked, multiset(was), multiset(now), lost, multiset{o});
    assert l.dropped + multiset{} == l.dropped;
    assert Live(capacity, 0, l.since + [o]) == [];
  }

  /** The slot that position `p` leads to. */
  function SlotOf(p: nat, c: nat): (i: nat)
    requires c > 0
    ensures i < c && i == p % c && (p < c ==> i == p)
  {
    if p < c then (DivisionUnique(p, c, 0, p); p) else p % c
  }

  lemma InvAfterAdd<T>(a: seq<Slot<T>>, p: nat, l: Log<T>, o: T)
    requires a != [] && Inv(a, p, l)
    ensures Inv(a[SlotOf(p, |a|) := Written(o)], WrappingInc(p), LogAdd(|a|, p, l, o))
    ensures p >= |a| ==> a[SlotOf(p, |a|)] == Written(Live(|a|, p, l.since)[0])
  {
    PositionsAfterAdd(a, p, l.since, o);
    AccountsAfterAdd(|a|, p, l, o);
  }

  function Values<T>(a: seq<Slot<T>>): seq<T>
    requires forall i :: 0 <= i < |a| ==> a[i].Written?
  {
    seq(|a|, i requires 0 <= i < |a| => a[i].value)
  }

  /** Where position `k` of a full buffer is. */
  lemma TurnedSlot(p: nat, c: nat, k: nat)
    requires 0 < c <= p && k < c
    ensures SlotOf(p - c + k, c) == if p % c + k < c then p % c + k else p % c + k - c
  {
    var q, r := p / c, p % c;
    assert p == c * q + r;
    assert q >= 1;
    assert c * (q - 1) == c * q - c;
    if r + k < c {
      DivisionUnique(p - c + k, c, q - 1, r + k);
    } else {
      DivisionUnique(p - c + k, c, q, r + k - c);
    }
  }

  lemma Rotated<T>(v: seq<T>, w: seq<T>, r: nat)
    requires |v| == |w| && r <= |v|
    requires forall k :: 0 <= k < |v| ==> v[if r + k < |v| then r + k else r + k - |v|] == w[k]
    ensures multiset(v) == multiset(w)
  {
    var m := |v| - r;
    forall k | 0 <= k < m ensures v[r..][k] == w[k] {
      assert v[if r + k < |v| then r + k else r + k - |v|] == w[k];
    }
    forall k | 0 <= k < r ensures v[k] == w[m..][k] {
      var j := m + k;
      assert v[if r + j < |v| then r + j else r + j - |v|] == w[j];
    }
    assert v[r..] == w[..m] && v[..r] == w[m..];
    assert v == v[..r] + v[r..] && w == w[..m] + w[m..];
  }

  /** A full buffer holds the elements kept, turned by where the next one goes. */
  lemma FullSlots<T>(a: seq<Slot<T>>, p: nat, since: seq<T>, i: nat)
    requires p <= |since| && Holds(a, p, since, Min(|a|, p)) && i < |a| <= p
    ensures var r := p % |a|;
            a[i] == Written(Live(|a|, p, since)[if i >= r then i - r else i - r + |a|])
  {
    var c, r := |a|, p % |a|;
    var k := if i >= r then i - r else i - r + c;
    TurnedSlot(p, c, k);
    assert a[(p - c + k) % c] == Written(since[|since| - p + (p - c + k)]);
  }

  lemma SlotsWritten<T>(a: seq<Slot<T>>, p: nat, since: seq<T>)
    requires p <= |since| && Holds(a, p, since, Min(|a|, p))
    ensures forall i :: 0 <= i < Min(|a|, p) ==> a[i].Written?
    ensures p < |a| ==> forall i :: 0 <= i < p ==> a[i] == Written(Live(|a|, p, since)[i])
  {
    forall i | 0 <= i < Min(|a|, p)
      ensures a[i].Written? && (p < |a| ==> a[i] == Written(Live(|a|, p, since)[i]))
    {
      if p < |a| {
        assert SlotOf(i, |a|) == i;
        assert a[i % |a|] == Written(since[|since| - p + i]);
      } else {
        FullSlots(a, p, since, i);
      }
    }
  }

  /** The slots in use hold the elements kept, in some order. */
  lemma InUse<T>(a: seq<Slot<T>>, p: nat, since: seq<T>)
    requires p <= |since| && Holds(a, p, since, Min(|a|, p))
    ensures forall i :: 0 <= i < Min(|a|, p) ==> a[i].Written?
    ensures multiset(Values(a[..Min(|a|, p)])) == multiset(Live(|a|, p, since))
  {
    SlotsWritten(a, p, since);
    var v, live := Values(a[..Min(|a|, p)]), Live(|a|, p, since);
    if p < |a| {
      assert v == live;
    } else if |a| > 0 {
      forall k | 0 <= k < |a|
        ensures v[if p % |a| + k < |a| then p % |a| + k else p % |a| + k - |a|] == live[k]
      {
        FullSlots(a, p, since, if p % |a| + k < |a| then p % |a| + k else p % |a| + k - |a|);
      }
      Rotated(v, live, p % |a|);
    }
  }

  /**
   An addition, told without the account: the history and the elements ever added grow by
   `o`, which is in its slot; and what that slot held is dropped if the buffer was full, and
   nothing otherwise.
   */
  ghost predicate Added<T>(was: seq<Slot<T>>, now: seq<Slot<T>>, p: nat, p': nat, l: Log<T>, l': Log<T>, o: T) {
    && |was| > 0 && now == was[p % |was| := Written(o)]
    && l'.since == l.since + [o] && l'.added == l.added + multiset{o}
    && (p < |was| ==> l'.dropped == l.dropped)
    && (p >= |was| ==>
          var overwritten := was[p % |was|];
          overwritten.Written? && l'.dropped == l.dropped + multiset{overwritten.value})
    && Counted(now, p, p', l, l')
  }

  /** The counter goes up by one, or wraps and leaks what all slots hold. */
  ghost predicate Counted<T>(now: seq<Slot<T>>, p: nat, p': nat, l: Log<T>, l': Log<T>) {
    && (p + 1 < TWO_64 ==> p' == p + 1 && l'.leaked == l.leaked && l'.wrapped == l.wrapped)
    && (p + 1 >= TWO_64 ==>
          && p' == 0 && l'.wrapped && (forall i :: 0 <= i < |now| ==> now[i].Written?)
          && l'.leaked == l.leaked + multiset(Values(now)))
  }

  lemma CountedOne<T>(a: seq<Slot<T>>, p: nat, l: Log<T>, o: T, b: seq<Slot<T>>)
    requires a != [] && Positions(a, p, l.since) && b == a[p % |a| := Written(o)]
    ensures Counted(b, p, WrappingInc(p), l, LogAdd(|a|, p, l, o))
  {
    if p + 1 == TWO_64 {
      LastBeforeWrap(a, p, l.since, o);
    }
  }

  lemma AddedOne<T>(a: seq<Slot<T>>, p: nat, l: Log<T>, o: T)
    requires a != [] && Inv(a, p, l)
    ensures Added(a, a[p % |a| := Written(o)], p, WrappingInc(p), l, LogAdd(|a|, p, l, o), o)
  {
    PositionsAfterAdd(a, p, l.since, o);
    CountedOne(a, p, l, o, a[p % |a| := Written(o)]);
  }

  /** At the last count before zero every slot is in use. */
  lemma LastBeforeWrap<T>(a: seq<Slot<T>>, p: nat, since: seq<T>, o: T)
    requires a != [] && Positions(a, p, since) && p + 1 == TWO_64
    ensures var b := a[p % |a| := Written(o)];
            && (forall i :: 0 <= i < |b| ==> b[i].Written?)
            && multiset(Values(b)) == multiset(Last(since + [o], |a|))
  {
    var b, s := a[p % |a| := Written(o)], since + [o];
    HoldsAfterAdd(a, p, since, o);
    InUse(b, p + 1, s);
    Seqs.TakeAll(b);
  }

  lemma AddFacts<T>(a: seq<Slot<T>>, p: nat, l: Log<T>, o: T, b: seq<Slot<T>>, p': nat, l': Log<T>)
    requires a != [] && Inv(a, p, l)
    requires b == a[SlotOf(p, |a|) := Written(o)] && p' == WrappingInc(p) && l' == LogAdd(|a|, p, l, o)
    ensures Inv(b, p', l') && Added(a, b, p, p', l, l', o)
    ensures p >= |a| ==> a[SlotOf(p, |a|)].Written?
    ensures Live(|b|, p', l'.since) == LastKept(|b|, l.since + [o])
  {
    InvAfterAdd(a, p, l, o);
    AddedOne(a, p, l, o);
  }

  lemma InvAfterClear<T>(a: seq<Slot<T>>, b: seq<Slot<T>>, p: nat, l: Log<T>, m: Log<T>)
    requires Inv(a, p, l)
    requires |b| == |a| && (forall i :: 0 <= i < |a| ==> b[i] == if i < p then Uninit else a[i])
    requires m == l.(since := [], dropped := l.dropped + multiset(Live(|a|, p, l.since)))
    ensures Inv(b, 0, m)
  {
    assert Live(|a|, 0, m.since) == [];
    assert l.added == l.dropped + l.leaked + multiset(Live(|a|, p, l.since));
    Regroup(l.dropped, l.leaked, multiset(Live(|a|, p, l.since)));
  }

  lemma Regroup<T>(x: multiset<T>, y: multiset<T>, z: multiset<T>)
    ensures x + y + z == (x + z) + y + multiset{}
  {
  }

  /** The iterator's steps touch only slots that were written. */
  ghost predicate Readable<T>(a: seq<Slot<T>>, i: nat, s: nat)
    decreases s
  {
    s > 0 ==> a != [] && a[SlotOf(i, |a|)].Written? && Readable(a, i + 1, s - 1)
  }

  /** What the iterator's steps yield. */
  ghost function Yield<T>(a: seq<Slot<T>>, i: nat, s: nat): (r: seq<T>)
    requires Readable(a, i, s)
    ensures |r| == s
    decreases s
  {
    if s == 0 then [] else [a[SlotOf(i, |a|)].value] + Yield(a, i + 1, s - 1)
  }

  lemma LiveSlot<T>(a: seq<Slot<T>>, p: nat, since: seq<T>, s: nat)
    requires Positions(a, p, since) && 0 < s <= Min(|a|, p)
    ensures s <= |since| && a[SlotOf(p - s, |a|)] == Written(since[|since| - s])
  {
    assert a[(p - s) % |a|] == Written(since[|since| - p + (p - s)]);
  }

  lemma LastCons<T>(since: seq<T>, s: nat)
    requires 0 < s <= |since|
    ensures Last(since, s) == [since[|since| - s]] + Last(since, s - 1)
  {
  }

  lemma {:induction false} YieldIsLive<T>(a: seq<Slot<T>>, p: nat, since: seq<T>, s: nat)
    requires Positions(a, p, since) && s <= Min(|a|, p)
    ensures Readable(a, p - s, s)
    ensures Yield(a, p - s, s) == Last(since, s)
  {
    if s == 0 {
    } else {
      YieldIsLive(a, p, since, s - 1);
      LiveSlot(a, p, since, s);
      LastCons(since, s);
    }
  }

  class RingBuffer<T> {
    var a: array<Slot<T>>
    var p: nat
    ghost var log: Log<T>

    ghost predicate Valid()
      reads this, a
    {
      Inv(a[..], p, log)
    }

    ghost function Contents(): seq<T>
      reads this, a
      requires Valid()
    {
      Live(a.Length, p, log.since)
    }

    /** `new`, for a capacity that is a `usize`. */
    constructor (capacity: nat)
      requires capacity < TWO_64
      ensures Valid() && fresh(a) && a.Length == capacity
      ensures log == Log([], multiset{}, multiset{}, multiset{}, false)
    {
      a := new Slot<T>[capacity](_ => Uninit);
      p := 0;
      log := Log([], multiset{}, multiset{}, multiset{}, false);
    }

    /** Adds an element, replacing the oldest when full. A capacity of zero would divide by zero. */
    method Add(o: T) returns (r: Outcome<()>)
      requires Valid()
      modifies this, a
      ensures Valid() && a == old(a)
      ensures r.Panic? <==> a.Length == 0
      ensures r.Panic? ==> log == old(log) && p == old(p) && a[..] == old(a[..])
      ensures r.Returns? ==> Added(old(a[..]), a[..], old(p), p, old(log), log, o)
      ensures r.Returns? ==> Contents() == LastKept(a.Length, old(log.since) + [o])
    {
      if a.Length == 0 {
        return Panic;
      }
      AddToSlot(o, SlotOf(p, a.Length));
      return Returns(());
    }

    /** The addition proper, once the slot is known to exist. */
    method AddToSlot(o: T, slot: nat)
      requires Valid() && a.Length > 0 && slot == SlotOf(p, a.Length)
      modifies this, a
      ensures Valid() && a == old(a)
      ensures Added(old(a[..]), a[..], old(p), p, old(log), log, o)
      ensures Contents() == LastKept(a.Length, old(log.since) + [o])
    {
      var q := p;
      ghost var was, l := a[..], log;
      ghost var now, q', l' := was[slot := Written(o)], WrappingInc(q), LogAdd(a.Length, q, l, o);
      AddFacts(was, q, l, o, now, q', l');
      if q < a.Length {
        a[slot] := Written(o);
      } else {
        assert a[slot].Written?;
        a[slot] := Written(o);
      }
      assert a[..] == now;
      p := WrappingInc(q);
      log := l';
      assert a[..] == now && p == q';
    }

    /** The loop of `clear`: what the first `kept` slots hold is dropped, slot by slot. */
    method DropSlots(kept: nat) returns (ghost dropped: multiset<T>)
      requires kept <= a.Length && forall j :: 0 <= j < kept ==> a[j].Written?
      modifies a
      ensures forall j :: 0 <= j < a.Length ==> a[j] == if j < kept then Uninit else old(a[j])
      ensures dropped == multiset(Values(old(a[..kept])))
    {
      ghost var values := Values(a[..kept]);
      dropped := multiset{};
      for i := 0 to kept
        invariant forall j :: 0 <= j < a.Length ==> a[j] == if j < i then Uninit else old(a[j])
        invariant dropped == multiset(values[..i])
      {
        Seqs.TakeMore(values, i);
        dropped := dropped + multiset{a[i].value};
        a[i] := Uninit;
      }
      Seqs.TakeAll(values);
    }

    method Clear()
      requires Valid()
      modifies this, a
      ensures Valid() && a == old(a) && p == 0
      ensures log == old(log).(since := [], dropped := old(log).dropped + multiset(old(Contents())))
    {
      ghost var was := a[..];
      InUse(was, p, log.since);
      ghost var dropped := DropSlots(Min(a.Length, p));
      log := log.(since := [], dropped := log.dropped + dropped);
      p := 0;
      InvAfterClear(was, a[..], old(p), old(log), log);
    }

    /** Dropping the buffer drops its elements. */
    method Drop()
      requires Valid()
      modifies this, a
      ensures Valid() && Contents() == []
      ensures log.dropped == old(log).dropped + multiset(old(Contents())) && log.added == old(log).added
    {
      Clear();
    }

    method Iter() returns (it: RingBufferIterator<T>)
      requires Valid()
      ensures fresh(it) && it.b == this && it.Valid()
      ensures it.Remaining() == LastKept(a.Length, log.since)
      ensures var n, kept := |log.since|, |it.Remaining()|;
              && kept == (if n % 0x1_0000_0000_0000_0000 < a.Length then n % 0x1_0000_0000_0000_0000 else a.Length)
              && forall k :: 0 <= k < kept ==> it.Remaining()[k] == log.since[n - kept + k]
    {
      it := new RingBufferIterator(this);
    }
  }

  class RingBufferIterator<T> {
    const b: RingBuffer<T>
    var s: nat
    var i: nat

    ghost predicate Valid()
      reads this, b, b.a
    {
      Readable(b.a[..], i, s)
    }

    ghost function Remaining(): seq<T>
      reads this, b, b.a
      requires Valid()
    {
      Yield(b.a[..], i, s)
    }

    constructor (b: RingBuffer<T>)
      requires b.Valid()
      ensures this.b == b && Valid() && Remaining() == b.Contents()
    {
      this.b := b;
      s := Min(b.a.Length, b.p);
      i := b.p - Min(b.a.Length, b.p);
      YieldIsLive(b.a[..], b.p, b.log.since, Min(b.a.Length, b.p));
    }

    /** Yields the elements in order, then nothing. */
    method Next() returns (r: Option<T>)
      requires Valid()
      modifies this
      ensures Valid()
      ensures r == if old(Remaining()) == [] then None else Some(old(Remaining())[0])
      ensures Remaining() == if old(Remaining()) == [] then [] else old(Remaining())[1..]
    {
      if s > 0 {
        var j := i;
        s := s - 1;
        i := j + 1;
        r := Some(b.a[SlotOf(j, b.a.Length)].value);
      } else {
        r := None;
      }
    }
  }
}
