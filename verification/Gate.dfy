/** The rate limiter of src/gate.rs, and why it admits as many calls as any limiter could. */
module Gate {
  import opened Arithmetic
  import Seqs

  const I64_MIN: int := -0x8000_0000_0000_0000
  const I64_MAX: int := 0x7fff_ffff_ffff_ffff

  /** `NEVER_HAPPENED_TICKS`: the time of the last admitted call before there was one. */
  const NEVER_HAPPENED_TICKS: int := I64_MIN / 2

  const TWO_62: int := 0x4000_0000_0000_0000

  type i64 = x: int | I64_MIN <= x <= I64_MAX

  /** Two's complement subtraction. */
  function WrappingSub(a: i64, b: i64): (r: i64)
    ensures (r - (a - b)) % 0x1_0000_0000_0000_0000 == 0
  {
    var d := a - b;
    if d > I64_MAX then d - 0x1_0000_0000_0000_0000
    else if d < I64_MIN then d + 0x1_0000_0000_0000_0000
    else d
  }

  predicate Admits(last: i64, freq: i64, time: i64) {
    WrappingSub(time, last) >= freq
  }

  /** The stored time after the calls `calls` were admitted. */
  function LastTime(initial: i64, times: seq<i64>, calls: seq<nat>): i64
    requires calls != [] ==> calls[|calls| - 1] < |times|
  {
    if calls == [] then initial else times[calls[|calls| - 1]]
  }

  /** Which of a series of calls are admitted, in order. */
  function Admitted(initial: i64, freq: i64, times: seq<i64>): (calls: seq<nat>)
    ensures forall k :: 0 <= k < |calls| ==> calls[k] < |times|
    decreases |times|
  {
    if times == [] then []
    else
      var n := |times| - 1;
      var earlier := Admitted(initial, freq, times[..n]);
      if Admits(LastTime(initial, times[..n], earlier), freq, times[n]) then earlier + [n] else earlier
  }

  class IntervalGate {
    const freq: i64
    var last: i64

    /** The state at construction and the calls since then. */
    ghost const initial: i64
    ghost var times: seq<i64>

    ghost predicate Valid()
      reads this
    {
      last == LastTime(initial, times, Admitted(initial, freq, times))
    }

    /** `new`. */
    constructor (freq: i64, initial: i64)
      ensures Valid() && times == [] && this.freq == freq && this.initial == initial
    {
      this.freq := freq;
      this.initial := initial;
      last := initial;
      times := [];
    }

    /** `default`. */
    constructor Default(freq: i64)
      ensures Valid() && times == [] && this.freq == freq && initial == NEVER_HAPPENED_TICKS
    {
      this.freq := freq;
      initial := NEVER_HAPPENED_TICKS;
      last := NEVER_HAPPENED_TICKS;
      times := [];
    }

    /** The calls admitted over the object's life are those of `Admitted`. */
    method Gate(time: i64) returns (admitted: bool)
      requires Valid()
      modifies this
      ensures Valid() && times == old(times) + [time]
      ensures Admitted(initial, freq, times)
           == Admitted(initial, freq, old(times)) + (if admitted then [|old(times)|] else [])
    {
      Seqs.Snoc(times, time);
      Seqs.Empty(Admitted(initial, freq, times));
      if WrappingSub(time, last) >= freq {
        last := time;
        admitted := true;
      } else {
        admitted := false;
      }
      times := times + [time];
    }
  }

  // ---------------------------------------------------------------------------------
  // Optimality
  // ---------------------------------------------------------------------------------

  ghost predicate NonDecreasing(times: seq<i64>) {
    forall i, j :: 0 <= i < j < |times| ==> times[i] <= times[j]
  }

  /** `calls` picks some of the calls, in order, any two of them at least `freq` apart. */
  ghost predicate Separated(times: seq<i64>, freq: i64, calls: seq<nat>) {
    && (forall k :: 0 <= k < |calls| ==> calls[k] < |times|)
    && (forall i, j :: 0 <= i < j < |calls| ==> calls[i] < calls[j] && times[calls[j]] - times[calls[i]] >= freq)
  }

  /** No pair of times, and no time together with the initial state, overflows when subtracted. */
  ghost predicate Representable(initial: i64, times: seq<i64>) {
    && (forall j :: 0 <= j < |times| ==> I64_MIN <= times[j] - initial <= I64_MAX)
    && (forall i, j :: 0 <= i < j < |times| ==> I64_MIN <= times[j] - times[i] <= I64_MAX)
  }

  lemma Prefix(initial: i64, times: seq<i64>, n: nat)
    requires n <= |times| && NonDecreasing(times) && Representable(initial, times)
    ensures NonDecreasing(times[..n]) && Representable(initial, times[..n])
  {
    var p := times[..n];
    assert forall k :: 0 <= k < n ==> p[k] == times[k];
  }

  lemma LastTimeInPrefix(initial: i64, times: seq<i64>, n: nat, calls: seq<nat>)
    requires n <= |times| && forall k :: 0 <= k < |calls| ==> calls[k] < n
    ensures LastTime(initial, times[..n], calls) == LastTime(initial, times, calls)
  {
  }

  /** One more call, taken or not. */
  lemma AdmittedStep(initial: i64, freq: i64, times: seq<i64>, n: nat)
    requires Representable(initial, times) && |times| == n + 1
    ensures var earlier := Admitted(initial, freq, times[..n]);
            Admitted(initial, freq, times)
              == if times[n] - LastTime(initial, times, earlier) >= freq then earlier + [n] else earlier
  {
    var earlier := Admitted(initial, freq, times[..n]);
    LastTimeInPrefix(initial, times, n, earlier);
    NoOverflow(initial, freq, times, n);
  }

  /** The subtraction of every call of a run is exact. */
  lemma NoOverflow(initial: i64, freq: i64, times: seq<i64>, k: nat)
    requires Representable(initial, times) && k < |times|
    ensures var last := LastTime(initial, times[..k], Admitted(initial, freq, times[..k]));
            WrappingSub(times[k], last) == times[k] - last
  {
    var calls := Admitted(initial, freq, times[..k]);
    if calls != [] {
      var i := calls[|calls| - 1];
      assert times[..k][i] == times[i];
    }
  }

  lemma SeparatedExtend(times: seq<i64>, freq: i64, calls: seq<nat>, n: nat)
    requires NonDecreasing(times) && |times| == n + 1
    requires Separated(times[..n], freq, calls)
    ensures Separated(times, freq, calls)
    ensures (calls != [] ==> times[n] - times[calls[|calls| - 1]] >= freq) ==> Separated(times, freq, calls + [n])
  {
    var p := times[..n];
    assert forall k :: 0 <= k < n ==> p[k] == times[k];
    if calls != [] {
      var m := |calls| - 1;
      assert forall k :: 0 <= k < m ==> times[calls[k]] <= times[calls[m]];
    }
  }

  /** What is admitted is separated, and separated from the initial state. */
  lemma {:induction false} AdmittedSeparated(initial: i64, freq: i64, times: seq<i64>)
    requires NonDecreasing(times) && Representable(initial, times)
    ensures Separated(times, freq, Admitted(initial, freq, times))
    ensures var calls := Admitted(initial, freq, times);
            calls != [] ==> times[calls[0]] - initial >= freq
    decreases |times|
  {
    if times == [] {
    } else {
      var n := |times| - 1;
      Prefix(initial, times, n);
      AdmittedSeparated(initial, freq, times[..n]);
      AdmittedStep(initial, freq, times, n);
      SeparatedExtend(times, freq, Admitted(initial, freq, times[..n]), n);
    }
  }

  /** Calls that also keep their distance from the initial state. */
  ghost predicate Fits(initial: i64, times: seq<i64>, freq: i64, calls: seq<nat>) {
    Separated(times, freq, calls) && (calls != [] ==> times[calls[0]] - initial >= freq)
  }

  lemma FitsInPrefix(initial: i64, times: seq<i64>, freq: i64, calls: seq<nat>, n: nat)
    requires Fits(initial, times, freq, calls) && |times| == n + 1
    requires calls != [] ==> calls[|calls| - 1] != n
    ensures Fits(initial, times[..n], freq, calls)
  {
    var p := times[..n];
    assert forall k :: 0 <= k < n ==> p[k] == times[k];
    if calls != [] {
      assert forall k :: 0 <= k < |calls| - 1 ==> calls[k] < calls[|calls| - 1];
    }
  }

  lemma FitsInit(initial: i64, times: seq<i64>, freq: i64, calls: seq<nat>, m: nat)
    requires Fits(initial, times, freq, calls) && |calls| == m + 1
    ensures Fits(initial, times, freq, calls[..m])
    ensures calls[..m] != [] ==> calls[..m][m - 1] < calls[m]
    ensures times[calls[m]] - LastTime(initial, times, calls[..m]) >= freq
  {
    assert forall k :: 0 <= k < m ==> calls[..m][k] == calls[k];
  }

  /** More calls so far, or as many with a last one that is no later. */
  ghost predicate Ahead(initial: i64, times: seq<i64>, greedy: seq<nat>, calls: seq<nat>)
    requires forall k :: 0 <= k < |greedy| ==> greedy[k] < |times|
    requires forall k :: 0 <= k < |calls| ==> calls[k] < |times|
  {
    || |calls| < |greedy|
    || (|calls| == |greedy| && LastTime(initial, times, greedy) <= LastTime(initial, times, calls))
  }

  lemma AheadInWhole(initial: i64, times: seq<i64>, n: nat, greedy: seq<nat>, calls: seq<nat>)
    requires n <= |times|
    requires forall k :: 0 <= k < |greedy| ==> greedy[k] < n
    requires forall k :: 0 <= k < |calls| ==> calls[k] < n
    requires Ahead(initial, times[..n], greedy, calls)
    ensures Ahead(initial, times, greedy, calls)
  {
  }

  lemma AheadStep(initial: i64, freq: i64, times: seq<i64>, greedy: seq<nat>, calls: seq<nat>, n: nat)
    requires NonDecreasing(times) && |times| == n + 1
    requires forall k :: 0 <= k < |greedy| ==> greedy[k] < n
    requires forall k :: 0 <= k < |calls| ==> calls[k] < n
    requires Ahead(initial, times, greedy, calls)
    requires times[n] - LastTime(initial, times, calls) >= freq
    ensures Ahead(initial, times,
                  if times[n] - LastTime(initial, times, greedy) >= freq then greedy + [n] else greedy,
                  calls + [n])
  {
  }

  lemma AheadWithout(initial: i64, freq: i64, times: seq<i64>, greedy: seq<nat>, calls: seq<nat>, n: nat)
    requires |times| == n + 1
    requires forall k :: 0 <= k < |greedy| ==> greedy[k] < n
    requires forall k :: 0 <= k < |calls| ==> calls[k] < n
    requires Ahead(initial, times, greedy, calls)
    ensures Ahead(initial, times,
                  if times[n] - LastTime(initial, times, greedy) >= freq then greedy + [n] else greedy,
                  calls)
  {
  }

  lemma StaysAheadTaking(initial: i64, freq: i64, times: seq<i64>, calls: seq<nat>, m: nat, n: nat)
    requires NonDecreasing(times) && Representable(initial, times) && |times| == n + 1
    requires Fits(initial, times, freq, calls) && |calls| == m + 1 && calls[m] == n
    requires Fits(initial, times[..n], freq, calls[..m])
    requires Ahead(initial, times[..n], Admitted(initial, freq, times[..n]), calls[..m])
    ensures Ahead(initial, times, Admitted(initial, freq, times), calls)
  {
    FitsInit(initial, times, freq, calls, m);
    AdmittedStep(initial, freq, times, n);
    AheadInWhole(initial, times, n, Admitted(initial, freq, times[..n]), calls[..m]);
    AheadStep(initial, freq, times, Admitted(initial, freq, times[..n]), calls[..m], n);
    Seqs.InitLast(calls);
  }

  lemma StaysAheadLeaving(initial: i64, freq: i64, times: seq<i64>, calls: seq<nat>, n: nat)
    requires NonDecreasing(times) && Representable(initial, times) && |times| == n + 1
    requires Fits(initial, times[..n], freq, calls)
    requires Ahead(initial, times[..n], Admitted(initial, freq, times[..n]), calls)
    ensures Ahead(initial, times, Admitted(initial, freq, times), calls)
  {
    AdmittedStep(initial, freq, times, n);
    AheadInWhole(initial, times, n, Admitted(initial, freq, times[..n]), calls);
    AheadWithout(initial, freq, times, Admitted(initial, freq, times[..n]), calls, n);
  }

  /** The greedy choice stays ahead of every other. */
  lemma {:induction false} StaysAhead(initial: i64, freq: i64, times: seq<i64>, calls: seq<nat>)
    requires NonDecreasing(times) && Representable(initial, times)
    requires Fits(initial, times, freq, calls)
    ensures Ahead(initial, times, Admitted(initial, freq, times), calls)
    decreases |times|
  {
    if times == [] {
      assert |calls| == 0;
    } else {
      var n := |times| - 1;
      Prefix(initial, times, n);
      if calls != [] && calls[|calls| - 1] == n {
        var m := |calls| - 1;
        FitsInit(initial, times, freq, calls, m);
        FitsInPrefix(initial, times, freq, calls[..m], n);
        StaysAhead(initial, freq, times[..n], calls[..m]);
        StaysAheadTaking(initial, freq, times, calls, m, n);
      } else {
        FitsInPrefix(initial, times, freq, calls, n);
        StaysAhead(initial, freq, times[..n], calls);
        StaysAheadLeaving(initial, freq, times, calls, n);
      }
    }
  }

  /** The calls of a run from the default state: clock readings, in order. */
  ghost predicate ClockReadings(times: seq<i64>) {
    NonDecreasing(times) && forall k :: 0 <= k < |times| ==> 0 <= times[k] < TWO_62
  }

  ghost predicate AdmitsMost(freq: i64, times: seq<i64>) {
    var greedy := Admitted(NEVER_HAPPENED_TICKS, freq, times);
    && Separated(times, freq, greedy)
    && forall calls :: Separated(times, freq, calls) ==> |calls| <= |greedy|
  }

  lemma GreedyIsOptimal(freq: i64, times: seq<i64>)
    requires freq <= TWO_62 && ClockReadings(times)
    ensures AdmitsMost(freq, times)
    ensures Representable(NEVER_HAPPENED_TICKS, times)
  {
    AdmittedSeparated(NEVER_HAPPENED_TICKS, freq, times);
    forall calls | Separated(times, freq, calls)
      ensures |calls| <= |Admitted(NEVER_HAPPENED_TICKS, freq, times)|
    {
      StaysAhead(NEVER_HAPPENED_TICKS, freq, times, calls);
    }
  }

  /** From the default state no run admits fewer calls than possible exactly up to 2^62. */
  lemma OptimalExactly(freq: i64)
    ensures freq <= TWO_62 <==> forall times :: ClockReadings(times) ==> AdmitsMost(freq, times)
  {
    if freq <= TWO_62 {
      forall times | ClockReadings(times) ensures AdmitsMost(freq, times) {
        GreedyIsOptimal(freq, times);
      }
    } else {
      var times: seq<i64> := [0];
      assert ClockReadings(times);
      assert times[..0] == [];
      assert Admitted(NEVER_HAPPENED_TICKS, freq, times) == [];
      assert Separated(times, freq, [0]);
      assert !AdmitsMost(freq, times);
    }
  }

  // ---------------------------------------------------------------------------------
  // The rate in a window
  // ---------------------------------------------------------------------------------

  function Within(times: seq<i64>, calls: seq<nat>, a: int, b: int): (r: seq<nat>)
    requires forall k :: 0 <= k < |calls| ==> calls[k] < |times|
    ensures forall k :: 0 <= k < |r| ==> r[k] in calls && a <= times[r[k]] <= b
    ensures forall k :: 0 <= k < |calls| && a <= times[calls[k]] <= b ==> calls[k] in r
  {
    if calls == [] then []
    else (if a <= times[calls[0]] <= b then [calls[0]] else []) + Within(times, calls[1..], a, b)
  }

  lemma SeparatedTail(times: seq<i64>, freq: i64, calls: seq<nat>)
    requires Separated(times, freq, calls) && calls != []
    ensures Separated(times, freq, calls[1..])
    ensures forall c :: c in calls[1..] ==> calls[0] < c < |times| && times[c] - times[calls[0]] >= freq
  {
    var rest := calls[1..];
    assert forall k :: 0 <= k < |rest| ==> rest[k] == calls[k + 1];
  }

  lemma SeparatedCons(times: seq<i64>, freq: i64, c: nat, w: seq<nat>)
    requires Separated(times, freq, w) && c < |times|
    requires forall x :: x in w ==> c < x < |times| && times[x] - times[c] >= freq
    ensures Separated(times, freq, [c] + w)
  {
    assert forall k :: 0 <= k < |w| ==> w[k] in w;
  }

  lemma {:induction false} WithinSeparated(times: seq<i64>, freq: i64, calls: seq<nat>, a: int, b: int)
    requires Separated(times, freq, calls)
    ensures Separated(times, freq, Within(times, calls, a, b))
    ensures forall c :: c in Within(times, calls, a, b) ==> c in calls
  {
    if calls == [] {
    } else {
      var rest := calls[1..];
      SeparatedTail(times, freq, calls);
      WithinSeparated(times, freq, rest, a, b);
      var w := Within(times, rest, a, b);
      SeparatedCons(times, freq, calls[0], w);
      Seqs.Empty(w);
    }
  }

  lemma {:induction false} Span(times: seq<i64>, freq: i64, calls: seq<nat>)
    requires Separated(times, freq, calls) && calls != []
    ensures times[calls[|calls| - 1]] - times[calls[0]] >= (|calls| - 1) * freq
    decreases |calls|
  {
    if |calls| == 1 {
    } else {
      var m := |calls| - 1;
      assert forall k :: 0 <= k < m ==> calls[..m][k] == calls[k];
      Span(times, freq, calls[..m]);
      assert m * freq == (m - 1) * freq + freq;
    }
  }

  lemma SpanBound(times: seq<i64>, freq: i64, calls: seq<nat>, a: int, b: int)
    requires Separated(times, freq, calls) && freq > 0 && a <= b
    requires forall k :: 0 <= k < |calls| ==> a <= times[calls[k]] <= b
    ensures |calls| <= (b - a) / freq + 1
  {
    if calls != [] {
      Span(times, freq, calls);
      QuotientBound(|calls| - 1, b - a, freq);
    } else {
      QuotientBound(0, b - a, freq);
    }
  }

  /** However the calls come, a window of length `b - a` sees at most `(b - a) / freq + 1` admitted. */
  lemma WindowBound(initial: i64, freq: i64, times: seq<i64>, a: int, b: int)
    requires NonDecreasing(times) && Representable(initial, times)
    requires freq > 0 && a <= b
    ensures |Within(times, Admitted(initial, freq, times), a, b)| <= (b - a) / freq + 1
  {
    var calls := Admitted(initial, freq, times);
    AdmittedSeparated(initial, freq, times);
    WithinSeparated(times, freq, calls, a, b);
    SpanBound(times, freq, Within(times, calls, a, b), a, b);
  }
}
