/** Unranking of k-subsets, the order in which gap columns are tried
    (ithCombination and Choose in rr22/okvs/paxos.cc). */
module Combination {
  import opened Arithmetic

  // Binomial coefficients by Pascal's rule.
  function Binomial(n: nat, k: nat): nat
  {
    if k == 0 then 1 else if n == 0 then 0 else Binomial(n - 1, k - 1) + Binomial(n - 1, k)
  }

  lemma {:induction false} BinomialZero(n: nat, k: nat)
    requires n < k
    ensures Binomial(n, k) == 0
  {
    if n > 0 {
      BinomialZero(n - 1, k - 1);
      BinomialZero(n - 1, k);
    }
  }

  lemma {:induction false} BinomialPositive(n: nat, k: nat)
    requires k <= n
    ensures 0 < Binomial(n, k)
  {
    if 0 < k {
      BinomialPositive(n - 1, k - 1);
    }
  }

  // k * C(n, k) == n * C(n - 1, k - 1).
  lemma {:induction false} Absorb(n: nat, k: nat)
    requires 0 < k && 0 < n
    ensures k * Binomial(n, k) == n * Binomial(n - 1, k - 1)
    decreases n, k
  {
    var a, b := Binomial(n - 1, k - 1), Binomial(n - 1, k);
    if n == 1 {
      if k == 1 {
      } else {
        BinomialZero(1, k);
        BinomialZero(0, k - 1);
      }
    } else {
      Absorb(n - 1, k);
      assert k * b == (n - 1) * Binomial(n - 2, k - 1);
      if k == 1 {
        assert Binomial(n - 1, 0) == 1 && Binomial(n - 2, 0) == 1;
      } else {
        Absorb(n - 1, k - 1);
        AbsorbStep(n, k, a, b, Binomial(n - 2, k - 1), Binomial(n - 2, k - 2));
      }
    }
  }

  lemma AbsorbStep(n: nat, k: nat, a: nat, b: nat, c: nat, d: nat)
    requires k * b == (n - 1) * c && (k - 1) * a == (n - 1) * d && a == d + c
    ensures k * (a + b) == n * a
  {
    assert k * (a + b) == k * a + k * b;
    assert k * a == a + (k - 1) * a;
    assert (n - 1) * c + (n - 1) * d == (n - 1) * (c + d);
    assert n * a == a + (n - 1) * a;
  }

  // k * C(n, k) == (n - k + 1) * C(n, k - 1).
  lemma Shift(n: nat, k: nat)
    requires 0 < k <= n
    ensures k * Binomial(n, k) == (n - k + 1) * Binomial(n, k - 1)
  {
    Absorb(n + 1, k);
    var a, b := Binomial(n, k - 1), Binomial(n, k);
    assert k * (a + b) == (n + 1) * a;
    assert k * (a + b) == k * a + k * b;
    assert (n + 1) * a == (n - k + 1) * a + k * a;
  }

  lemma Exact(q: nat, d: nat, x: nat)
    requires 0 < d && x == d * q
    ensures x / d == q && x % d == 0
  {
    DivModUnique(x, d, q, 0);
  }

  /** Choose: every division is exact. */
  function Choose(n: nat, k: nat): (c: nat)
    requires k <= n
    ensures c == Binomial(n, k)
  {
    if k == 0 then 1 else
      assert n * Choose(n - 1, k - 1) == k * Binomial(n, k) by { Absorb(n, k); }
      Exact(Binomial(n, k), k, n * Choose(n - 1, k - 1));
      (n * Choose(n - 1, k - 1)) / k
  }

  // A k-subset of [0, n), listed in increasing order.
  predicate IsSubset(s: seq<nat>, n: nat, k: nat)
  {
    && |s| == k
    && (forall i, j :: 0 <= i < j < k ==> s[i] < s[j])
    && forall i :: 0 <= i < k ==> s[i] < n
  }

  // The position of a subset: C(s[0], 1) + C(s[1], 2) + ... . RankFrom counts a suffix of the
  // subset that starts at place j.
  function Rank(s: seq<nat>): nat
  {
    RankFrom(s, 0)
  }

  function RankFrom(s: seq<nat>, j: nat): nat
  {
    if s == [] then 0 else Binomial(s[0], j + 1) + RankFrom(s[1..], j + 1)
  }

  lemma {:induction false} RankLast(s: seq<nat>, j: nat)
    requires s != []
    ensures RankFrom(s, j) == RankFrom(s[..|s| - 1], j) + Binomial(s[|s| - 1], j + |s|)
  {
    if |s| > 1 {
      RankLast(s[1..], j + 1);
      assert s[1..][..|s| - 2] == s[..|s| - 1][1..];
    }
  }

  lemma {:induction false} BinomialMonotone(m: nat, n: nat, k: nat)
    requires m <= n
    ensures Binomial(m, k) <= Binomial(n, k)
    decreases n
  {
    if m < n {
      BinomialMonotone(m, n - 1, k);
    }
  }

  // Ranks of k-subsets of [0, n) are below C(n, k).
  lemma {:induction false} RankBound(s: seq<nat>, n: nat, k: nat)
    requires IsSubset(s, n, k)
    ensures Rank(s) < Binomial(n, k)
  {
    if k > 0 {
      var last := s[k - 1];
      RankLast(s, 0);
      RankBound(s[..k - 1], last, k - 1);
      assert Binomial(last + 1, k) == Binomial(last, k - 1) + Binomial(last, k);
      BinomialMonotone(last + 1, n, k);
    }
  }

  // Subsets are ranked by their greatest elements first.
  lemma RankOrder(s: seq<nat>, t: seq<nat>, n: nat, k: nat)
    requires 0 < k && IsSubset(s, n, k) && IsSubset(t, n, k) && s[k - 1] < t[k - 1]
    ensures Rank(s) < Rank(t)
  {
    var a, b := s[k - 1], t[k - 1];
    RankLast(s, 0);
    RankLast(t, 0);
    RankBound(s[..k - 1], a, k - 1);
    assert Binomial(a + 1, k) == Binomial(a, k - 1) + Binomial(a, k);
    BinomialMonotone(a + 1, b, k);
  }

  /** Different subsets have different ranks. */
  lemma {:induction false} RankInjective(s: seq<nat>, t: seq<nat>, n: nat, k: nat)
    requires IsSubset(s, n, k) && IsSubset(t, n, k) && Rank(s) == Rank(t)
    ensures s == t
    decreases k
  {
    if k > 0 {
      if s[k - 1] < t[k - 1] {
        RankOrder(s, t, n, k);
      } else if t[k - 1] < s[k - 1] {
        RankOrder(t, s, n, k);
      }
      RankLast(s, 0);
      RankLast(t, 0);
      RankInjective(s[..k - 1], t[..k - 1], s[k - 1], k - 1);
      assert s == s[..k - 1] + [s[k - 1]] && t == t[..k - 1] + [t[k - 1]];
    }
  }

  // The loop that builds C(n, k) as a product of fractions.
  method BinomialByProducts(n: nat, k: nat) returns (nCk: nat)
    requires k <= n
    ensures nCk == Binomial(n, k)
  {
    nCk := 1;
    var nMinusI, iPlus1 := n, 1;
    while nMinusI != n - k
      invariant n - k <= nMinusI <= n && iPlus1 == n - nMinusI + 1
      invariant nCk == Binomial(n, iPlus1 - 1)
    {
      Shift(n, iPlus1);
      Exact(Binomial(n, iPlus1), iPlus1, nCk * nMinusI);
      nCk := nCk * nMinusI;
      nCk := nCk / iPlus1;
      nMinusI, iPlus1 := nMinusI - 1, iPlus1 + 1;
    }
  }

  // The update that lowers the greatest candidate: both divisions are exact.
  lemma StepDown(n: nat, kk: nat)
    requires 0 < kk < n
    ensures var x := Binomial(n - 1, kk - 1) * (n - kk);
            x % kk == 0 && x / (n - 1) == Binomial(n - 2, kk - 1)
  {
    Shift(n - 1, kk);
    Absorb(n - 1, kk);
    BothExact(n - 1, kk, n - kk, Binomial(n - 1, kk - 1), Binomial(n - 1, kk), Binomial(n - 2, kk - 1));
  }

  lemma BothExact(m: nat, kk: nat, d: nat, p: nat, a: nat, b: nat)
    requires 0 < kk && 0 < m && kk * a == d * p && kk * a == m * b
    ensures p * d % kk == 0 && p * d / m == b
  {
    Exact(a, kk, p * d);
    Exact(b, m, p * d);
  }

  // The inner loop: the greatest element of the subset with kk elements below n0.
  method Greatest(index: nat, n0: nat, kk: nat, curIndex0: nat, nCk0: nat) returns (n: nat, nCk: nat, curIndex: nat)
    requires 0 < kk <= n0 && nCk0 == Binomial(n0 - 1, kk - 1) && Binomial(n0, kk) <= curIndex0
    requires curIndex0 - Binomial(n0, kk) <= index < curIndex0
    ensures kk <= n <= n0 && nCk == Binomial(n - 1, kk - 1) && Binomial(n, kk) <= curIndex
    ensures curIndex - Binomial(n, kk) == curIndex0 - Binomial(n0, kk)
    ensures curIndex - nCk <= index < curIndex
  {
    n, nCk, curIndex := n0, nCk0, curIndex0;
    while curIndex - nCk > index
      invariant kk <= n <= n0 && nCk == Binomial(n - 1, kk - 1) && Binomial(n, kk) <= curIndex
      invariant curIndex - Binomial(n, kk) == curIndex0 - Binomial(n0, kk) <= index < curIndex
      decreases n
    {
      if n == kk {
        BinomialZero(n - 1, kk);
      }
      StepDown(n, kk);
      curIndex := curIndex - nCk;
      nCk := nCk * (n - kk);
      nCk := nCk - nCk % kk;
      n := n - 1;
      nCk := nCk / n;
    }
  }

  /** ithCombination: the subset with the given rank. */
  method IthCombination(index: nat, n0: nat, k: nat) returns (s: seq<nat>)
    requires k <= n0 && index < Binomial(n0, k)
    ensures IsSubset(s, n0, k) && Rank(s) == index
  {
    var n, kk := n0, k;
    var nCk := BinomialByProducts(n0, k);
    var curIndex := nCk;
    s := [];
    while kk != 0
      invariant 0 <= kk <= k && kk <= n <= n0 && |s| == k - kk
      invariant nCk == Binomial(n, kk) && nCk <= curIndex
      invariant RankFrom(s, kk) == curIndex - nCk <= index < curIndex
      invariant forall i :: 0 <= i < |s| ==> n <= s[i] < n0
      invariant forall i, j :: 0 <= i < j < |s| ==> s[i] < s[j]
    {
      Absorb(n, kk);
      Exact(Binomial(n - 1, kk - 1), n, nCk * kk);
      nCk := nCk * kk;
      nCk := nCk / n;
      n, nCk, curIndex := Greatest(index, n, kk, curIndex, nCk);
      n := n - 1;
      s := [n] + s;
      kk := kk - 1;
    }
  }
}
