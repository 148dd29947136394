/** Lists of distinct record numbers, and who has which: the free stack of a pool, and its users. */
module FreeList {

  ghost predicate Distinct(s: seq<nat>) {
    forall i, j :: 0 <= i < j < |s| ==> s[i] != s[j]
  }

  ghost predicate Below(s: seq<nat>, n: nat) {
    forall i :: 0 <= i < |s| ==> s[i] < n
  }

  /** The numbers up to `n`. */
  ghost function Numbers(n: nat): (r: set<nat>)
    ensures |r| == n
    ensures forall i: nat :: i in r <==> i < n
  {
    if n == 0 then {} else Numbers(n - 1) + {n - 1}
  }

  /** Every number below `n` is on the list or handed out, once. */
  ghost predicate SharedOut(n: nat, free: seq<nat>, out: multiset<nat>) {
    multiset(free) + out == multiset(Numbers(n))
  }

  lemma TwiceListed(s: seq<nat>, i: nat, j: nat)
    requires i < j < |s| && s[i] == s[j]
    ensures multiset(s)[s[i]] >= 2
  {
    assert s == s[..j] + [s[j]] + s[j + 1..];
    assert s[i] == s[..j][i];
    assert s[i] in multiset(s[..j]);
  }

  /** What that means number by number, and in all. */
  lemma SharesCounted(n: nat, free: seq<nat>, out: multiset<nat>)
    requires SharedOut(n, free, out)
    ensures forall r: nat :: multiset(free)[r] + out[r] == if r < n then 1 else 0
    ensures |free| + |out| == n
    ensures |free| == n <==> out == multiset{}
  {
    forall r: nat ensures multiset(free)[r] + out[r] == if r < n then 1 else 0 {
      assert (multiset(free) + out)[r] == multiset(Numbers(n))[r];
    }
    assert |multiset(free) + out| == |multiset(Numbers(n))|;
  }

  /** The list names no number twice, and none that is handed out. */
  lemma ListedOnce(n: nat, free: seq<nat>, out: multiset<nat>)
    requires SharedOut(n, free, out)
    ensures Distinct(free) && Below(free, n)
    ensures forall r :: r in out ==> r < n && r !in free
  {
    SharesCounted(n, free, out);
    forall i, j | 0 <= i < j < |free| ensures free[i] != free[j] {
      assert multiset(free)[free[i]] <= 1;
      if free[i] == free[j] {
        TwiceListed(free, i, j);
      }
    }
    forall i | 0 <= i < |free| ensures free[i] < n {
      assert free[i] in multiset(free);
    }
    forall r | r in out ensures r < n && r !in free {
      assert r in free ==> r in multiset(free);
    }
  }

  /** Taking the last number off the list and handing it out. */
  lemma HandOut(n: nat, free: seq<nat>, out: multiset<nat>, k: nat)
    requires SharedOut(n, free, out) && |free| == k + 1
    ensures SharedOut(n, free[..k], out + multiset{free[k]})
    ensures free[k] < n && free[k] !in free[..k] && free[k] !in out
  {
    assert free == free[..k] + [free[k]];
    SharesCounted(n, free, out);
    assert free[k] in multiset(free);
    ListedOnce(n, free, out);
  }

  /** Putting a number that was handed out on the list: there is room for it. */
  lemma TakeBack(n: nat, free: seq<nat>, out: multiset<nat>, r: nat)
    requires SharedOut(n, free, out) && r in out
    ensures |free| < n && r < n && r !in free
    ensures SharedOut(n, free + [r], out - multiset{r})
  {
    SharesCounted(n, free, out);
    ListedOnce(n, free, out);
    assert out == (out - multiset{r}) + multiset{r};
  }
}
