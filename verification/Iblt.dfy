/** The table of counts and sums that each party keeps of its own items (iblt_h5.cc). */
module IbltTable {
  import opened Lists
  import opened Algebra
  import opened PeelingSpec

  // ----- What a freshly built table of the unpeeled items holds -----

  // Item i is still in the table and hashes to bin b.
  ghost predicate InBin<V(!new)>(h: Hashing<V>, items: seq<V>, out: set<V>, b: nat, i: nat)
    requires i < |items|
  {
    items[i] !in out && b in h.Bins(items[i])
  }

  ghost function Cnt<V(!new)>(h: Hashing<V>, items: seq<V>, out: set<V>, b: nat, n: nat): nat
    requires n <= |items|
  {
    if n == 0 then 0 else Cnt(h, items, out, b, n - 1) + if InBin(h, items, out, b, n - 1) then 1 else 0
  }

  // The xor over the items in bin b of a value attached to each item: the item itself for the
  // sums, its seed for the seed sums.
  ghost function Sum<V(!new)>(sp: Space<bool, V>, h: Hashing<V>, items: seq<V>, vals: seq<V>, out: set<V>, b: nat,
      n: nat): V
    requires n <= |items| == |vals|
  {
    if n == 0 then sp.nil
    else if InBin(h, items, out, b, n - 1) then sp.Plus(Sum(sp, h, items, vals, out, b, n - 1), vals[n - 1])
    else Sum(sp, h, items, vals, out, b, n - 1)
  }

  // Taking one more item out.
  lemma {:induction false} CntWithout<V(!new)>(h: Hashing<V>, items: seq<V>, out: set<V>, i: nat, b: nat, n: nat)
    requires n <= |items| && i < |items| && Distinct(items) && items[i] !in out
    ensures Cnt(h, items, out, b, n) == Cnt(h, items, out + {items[i]}, b, n) + if i < n &&
        b in h.Bins(items[i]) then 1 else 0
  {
    if n > 0 {
      CntWithout(h, items, out, i, b, n - 1);
    }
  }

  lemma {:induction false} SumWithout<V(!new)>(sp: Space<bool, V>, h: Hashing<V>, items: seq<V>, vals: seq<V>,
      out: set<V>, i: nat, b: nat, n: nat)
    requires sp.IsSpace() && n <= |items| == |vals| && i < |items| && Distinct(items) && items[i] !in out
    ensures var s := Sum(sp, h, items, vals, out, b, n);
      Sum(sp, h, items, vals, out + {items[i]}, b, n) ==
        if i < n && b in h.Bins(items[i]) then sp.Plus(s, vals[i]) else s
  {
    if n > 0 {
      SumWithout(sp, h, items, vals, out, i, b, n - 1);
      var a, x, y := Sum(sp, h, items, vals, out, b, n - 1), vals[n - 1], vals[i];
      assert sp.ValueLaws(a, x, y) && sp.ValueLaws(a, y, x) && sp.ValueLaws(x, y, x);
      assert sp.ValueLaws(x, x, x) && sp.ValueLaws(a, sp.nil, x);
    }
  }

  lemma {:induction false} CntZero<V(!new)>(sp: Space<bool, V>, h: Hashing<V>, items: seq<V>, vals: seq<V>,
      out: set<V>, b: nat, n: nat)
    requires n <= |items| == |vals|
    ensures Cnt(h, items, out, b, n) == 0 <==> forall i :: 0 <= i < n ==> !InBin(h, items, out, b, i)
    ensures Cnt(h, items, out, b, n) == 0 ==> Sum(sp, h, items, vals, out, b, n) == sp.nil
  {
    if n > 0 {
      CntZero(sp, h, items, vals, out, b, n - 1);
    }
  }

  // A count of one: the sum is the only item's value.
  lemma {:induction false} CntOne<V(!new)>(sp: Space<bool, V>, h: Hashing<V>, items: seq<V>, vals: seq<V>,
      out: set<V>, b: nat, n: nat) returns (i: nat)
    requires sp.IsSpace() && n <= |items| == |vals| && Cnt(h, items, out, b, n) == 1
    ensures i < n && InBin(h, items, out, b, i) && Sum(sp, h, items, vals, out, b, n) == vals[i]
    ensures forall j :: 0 <= j < n && InBin(h, items, out, b, j) ==> j == i
  {
    if InBin(h, items, out, b, n - 1) {
      i := n - 1;
      CntZero(sp, h, items, vals, out, b, n - 1);
      assert sp.ValueLaws(sp.nil, vals[i], vals[i]) && sp.ValueLaws(vals[i], vals[i], vals[i]);
    } else {
      i := CntOne(sp, h, items, vals, out, b, n - 1);
    }
  }

  // A count above one: two items.
  lemma {:induction false} CntMany<V(!new)>(h: Hashing<V>, items: seq<V>, out: set<V>, b: nat, n: nat)
    returns (i: nat, j: nat)
    requires n <= |items| && 1 < Cnt(h, items, out, b, n)
    ensures i < j < n && InBin(h, items, out, b, i) && InBin(h, items, out, b, j)
  {
    if !InBin(h, items, out, b, n - 1) {
      i, j := CntMany(h, items, out, b, n - 1);
    } else {
      j := n - 1;
      i := CntPositive(h, items, out, b, n - 1);
    }
  }

  lemma {:induction false} CntPositive<V(!new)>(h: Hashing<V>, items: seq<V>, out: set<V>, b: nat, n: nat)
    returns (i: nat)
    requires n <= |items| && 0 < Cnt(h, items, out, b, n)
    ensures i < n && InBin(h, items, out, b, i)
  {
    if InBin(h, items, out, b, n - 1) {
      i := n - 1;
    } else {
      i := CntPositive(h, items, out, b, n - 1);
    }
  }

  lemma {:induction false} CntAtLeast<V(!new)>(h: Hashing<V>, items: seq<V>, out: set<V>, b: nat, i: nat, n: nat)
    requires i < n <= |items| && InBin(h, items, out, b, i)
    ensures 0 < Cnt(h, items, out, b, n)
  {
    if i < n - 1 {
      CntAtLeast(h, items, out, b, i, n - 1);
    }
  }

  // ----- The bins to probe next -----

  function AddBins(marked: seq<bool>, probes: seq<nat>, bins: seq<nat>): seq<nat>
    requires forall j :: 0 <= j < |bins| ==> bins[j] < |marked|
  {
    if bins == [] then probes else
      var s := AddBins(marked, probes, bins[..|bins| - 1]);
      var b := bins[|bins| - 1];
      if marked[b] || b in s then s else s + [b]
  }

  // The unmarked bins of the items, each once, in the order in which they are met.
  function UniqueEvals<V(!new)>(h: Hashing<V>, marked: seq<bool>, items: seq<V>): seq<nat>
    requires |marked| == h.tabLen && forall i :: 0 <= i < |items| ==> h.OkFor(items[i])
  {
    if items == [] then [] else
      assert h.OkFor(items[|items| - 1]);
      AddBins(marked, UniqueEvals(h, marked, items[..|items| - 1]), h.Bins(items[|items| - 1]))
  }

  lemma {:induction false} AddBinsMeaning(marked: seq<bool>, probes: seq<nat>, bins: seq<nat>)
    requires forall j :: 0 <= j < |bins| ==> bins[j] < |marked|
    requires Distinct(probes)
    ensures Distinct(AddBins(marked, probes, bins))
    ensures |AddBins(marked, probes, bins)| <= |probes| + |bins|
    ensures forall b :: b in AddBins(marked, probes, bins) <==> b in probes || (b in bins && !marked[b])
  {
    if bins != [] {
      var init, b := bins[..|bins| - 1], bins[|bins| - 1];
      AddBinsMeaning(marked, probes, init);
      assert bins == init + [b];
    }
  }

  /** The probes are exactly the unmarked bins of the items, without repetition. */
  lemma {:induction false} UniqueEvalsMeaning<V(!new)>(h: Hashing<V>, marked: seq<bool>, items: seq<V>)
    requires |marked| == h.tabLen && forall i :: 0 <= i < |items| ==> h.OkFor(items[i])
    ensures Distinct(UniqueEvals(h, marked, items))
    ensures |UniqueEvals(h, marked, items)| <= NUM_HASHES * |items|
    ensures forall b :: b in UniqueEvals(h, marked, items) <==>
      0 <= b < h.tabLen && !marked[b] && exists i :: 0 <= i < |items| && b in h.Bins(items[i])
  {
    if items != [] {
      var init, x := items[..|items| - 1], items[|items| - 1];
      UniqueEvalsMeaning(h, marked, init);
      assert h.OkFor(x);
      AddBinsMeaning(marked, UniqueEvals(h, marked, init), h.Bins(x));
      forall b | 0 <= b < h.tabLen && !marked[b]
        ensures (exists i :: 0 <= i < |items| && b in h.Bins(items[i])) <==>
          b in h.Bins(x) || exists i :: 0 <= i < |init| && b in h.Bins(init[i])
      {
        if b in h.Bins(x) {
          assert b in h.Bins(items[|items| - 1]);
        }
        if i :| 0 <= i < |init| && b in h.Bins(init[i]) {
          assert b in h.Bins(items[i]);
        }
      }
    }
  }

  // The bins of the items one after another.
  ghost function AllBins<V(!new)>(h: Hashing<V>, items: seq<V>): seq<nat>
  {
    if items == [] then [] else AllBins(h, items[..|items| - 1]) + h.Bins(items[|items| - 1])
  }

  // The entries of s occur in t for the first time in the order in which s lists them.
  ghost predicate ByFirstPlace(s: seq<nat>, t: seq<nat>)
  {
    forall i, j :: 0 <= i < j < |s| ==> Earlier(t, s[i], s[j])
  }

  // a occurs in t before any b.
  ghost predicate Earlier(t: seq<nat>, a: nat, b: nat)
  {
    exists k :: 0 <= k < |t| && t[k] == a && b !in t[..k + 1]
  }

  lemma {:induction false} AddBinsOrder(marked: seq<bool>, probes: seq<nat>, bins: seq<nat>, before: seq<nat>)
    requires forall j :: 0 <= j < |bins| ==> bins[j] < |marked|
    requires ByFirstPlace(probes, before) && Distinct(probes)
    requires forall b :: b in probes <==> b in before && 0 <= b < |marked| && !marked[b]
    ensures ByFirstPlace(AddBins(marked, probes, bins), before + bins)
  {
    if bins == [] {
      assert before + bins == before;
    } else {
      var init, b := bins[..|bins| - 1], bins[|bins| - 1];
      var s, t := AddBins(marked, probes, init), before + init;
      AddBinsOrder(marked, probes, init, before);
      AddBinsMeaning(marked, probes, init);
      assert before + bins == t + [b];
      forall x, y | Earlier(t, x, y) ensures Earlier(t + [b], x, y) {
        var k :| 0 <= k < |t| && t[k] == x && y !in t[..k + 1];
        assert (t + [b])[..k + 1] == t[..k + 1];
      }
      if !marked[b] && b !in s {
        assert b !in t;
        forall i | 0 <= i < |s| ensures Earlier(t + [b], s[i], b) {
          assert s[i] in t;
          var k :| 0 <= k < |t| && t[k] == s[i];
          assert (t + [b])[..k + 1] == t[..k + 1];
        }
      }
    }
  }

  /** The probes are in the order in which their bins occur first among the bins of the items. */
  lemma {:induction false} UniqueEvalsOrder<V(!new)>(h: Hashing<V>, marked: seq<bool>, items: seq<V>)
    requires |marked| == h.tabLen && forall i :: 0 <= i < |items| ==> h.OkFor(items[i])
    ensures ByFirstPlace(UniqueEvals(h, marked, items), AllBins(h, items))
    ensures forall b :: b in UniqueEvals(h, marked, items) <==>
      b in AllBins(h, items) && 0 <= b < |marked| && !marked[b]
  {
    if items != [] {
      var init, x := items[..|items| - 1], items[|items| - 1];
      UniqueEvalsOrder(h, marked, init);
      UniqueEvalsMeaning(h, marked, init);
      assert h.OkFor(x);
      AddBinsOrder(marked, UniqueEvals(h, marked, init), h.Bins(x), AllBins(h, init));
      AddBinsMeaning(marked, UniqueEvals(h, marked, init), h.Bins(x));
    }
  }

  // ----- The table -----

  function SeedsOf<V>(seedOf: V -> V, items: seq<V>): (s: seq<V>)
    ensures |s| == |items|
  {
    seq(|items|, i requires 0 <= i < |items| => seedOf(items[i]))
  }

  class Iblt<V(!new, ==)> {
    const h: Hashing<V>
    const sp: Space<bool, V>
    const cnt: array<nat>
    const sum: array<V>
    const seedSum: array<V>

    ghost predicate Valid()
    {
      && h.Ok() && sp.IsSpace() && sum != seedSum && cnt as object != sum && cnt as object != seedSum
      && cnt.Length == h.tabLen && sum.Length == h.tabLen && seedSum.Length == h.tabLen
    }

    // The table of the items that are not in `out`.
    ghost predicate Holds(items: seq<V>, out: set<V>)
      requires Valid()
      reads cnt, sum
    {
      && Distinct(items)
      && forall b :: 0 <= b < h.tabLen ==>
           cnt[b] == Cnt(h, items, out, b, |items|) && sum[b] == Sum(sp, h, items, items, out, b, |items|)
    }

    // ... with the seeds that `seedOf` attaches to them.
    ghost predicate HoldsSeeds(items: seq<V>, seedOf: V -> V, out: set<V>)
      requires Valid()
      reads seedSum
    {
      forall b :: 0 <= b < h.tabLen ==>
        seedSum[b] == Sum(sp, h, items, SeedsOf(seedOf, items), out, b, |items|)
    }

    constructor (h: Hashing<V>, sp: Space<bool, V>)
      requires h.Ok() && sp.IsSpace()
      ensures Valid() && this.h == h && this.sp == sp && fresh(cnt) && fresh(sum) && fresh(seedSum)
      ensures Holds([], {}) && forall f :: HoldsSeeds([], f, {})
    {
      this.h, this.sp := h, sp;
      cnt := new nat[h.tabLen](_ => 0);
      sum := new V[h.tabLen](_ => sp.nil);
      seedSum := new V[h.tabLen](_ => sp.nil);
    }

    /** add_item. */
    method AddItem(x: V, seed: V, withSeed: bool)
      requires Valid()
      modifies cnt, sum, seedSum
      ensures forall b :: 0 <= b < h.tabLen ==>
        && cnt[b] == old(cnt[b]) + (if b in h.Bins(x) then 1 else 0)
        && sum[b] == (if b in h.Bins(x) then sp.Plus(old(sum[b]), x) else old(sum[b]))
        && seedSum[b] == if withSeed && b in h.Bins(x) then sp.Plus(old(seedSum[b]), seed) else old(seedSum[b])
    {
      var idxs := h.hash(x);
      assert h.OkFor(x) && idxs == h.Bins(x);
      for i := 0 to NUM_HASHES
        invariant forall b :: 0 <= b < h.tabLen ==>
          && cnt[b] == old(cnt[b]) + (if b in idxs[..i] then 1 else 0)
          && sum[b] == (if b in idxs[..i] then sp.Plus(old(sum[b]), x) else old(sum[b]))
          && seedSum[b] == if withSeed && b in idxs[..i] then sp.Plus(old(seedSum[b]), seed) else old(seedSum[b])
      {
        var idx := idxs[i];
        assert idxs[..i + 1] == idxs[..i] + [idx];
        cnt[idx] := cnt[idx] + 1;
        sum[idx] := sp.Plus(sum[idx], x);
        if withSeed {
          seedSum[idx] := sp.Plus(seedSum[idx], seed);
        }
      }
      assert idxs[..NUM_HASHES] == idxs;
    }

    /** remove_item: the count saturates at zero. */
    method RemoveItem(x: V, seed: V, withSeed: bool)
      requires Valid()
      modifies cnt, sum, seedSum
      ensures forall b :: 0 <= b < h.tabLen ==>
        && cnt[b] == old(cnt[b]) - (if b in h.Bins(x) && 0 < old(cnt[b]) then 1 else 0)
        && sum[b] == (if b in h.Bins(x) then sp.Plus(old(sum[b]), x) else old(sum[b]))
        && seedSum[b] == if withSeed && b in h.Bins(x) then sp.Plus(old(seedSum[b]), seed) else old(seedSum[b])
    {
      var idxs := h.hash(x);
      assert h.OkFor(x) && idxs == h.Bins(x);
      for i := 0 to NUM_HASHES
        invariant forall b :: 0 <= b < h.tabLen ==>
          && cnt[b] == old(cnt[b]) - (if b in idxs[..i] && 0 < old(cnt[b]) then 1 else 0)
          && sum[b] == (if b in idxs[..i] then sp.Plus(old(sum[b]), x) else old(sum[b]))
          && seedSum[b] == if withSeed && b in idxs[..i] then sp.Plus(old(seedSum[b]), seed) else old(seedSum[b])
      {
        var idx := idxs[i];
        assert idxs[..i + 1] == idxs[..i] + [idx];
        if 0 < cnt[idx] {
          cnt[idx] := cnt[idx] - 1;
        }
        sum[idx] := sp.Plus(sum[idx], x);
        if withSeed {
          seedSum[idx] := sp.Plus(seedSum[idx], seed);
        }
      }
      assert idxs[..NUM_HASHES] == idxs;
    }

    // Removing an item that is in the table undoes its addition; its counts are positive, so
    // they do not saturate.
    method RemoveOne(x: V, seed: V, withSeed: bool, ghost items: seq<V>, ghost seedOf: V -> V, ghost out: set<V>)
      requires Valid() && Holds(items, out) && x in items && x !in out
      requires withSeed ==> HoldsSeeds(items, seedOf, out) && seed == seedOf(x)
      modifies cnt, sum, seedSum
      ensures Holds(items, out + {x})
      ensures withSeed ==> HoldsSeeds(items, seedOf, out + {x})
    {
      ghost var i :| 0 <= i < |items| && items[i] == x;
      RemoveItem(x, seed, withSeed);
      forall b | 0 <= b < h.tabLen
        ensures cnt[b] == Cnt(h, items, out + {x}, b, |items|)
        ensures sum[b] == Sum(sp, h, items, items, out + {x}, b, |items|)
        ensures withSeed ==> seedSum[b] == Sum(sp, h, items, SeedsOf(seedOf, items), out + {x}, b, |items|)
      {
        CntWithout(h, items, out, i, b, |items|);
        SumWithout(sp, h, items, items, out, i, b, |items|);
        SumWithout(sp, h, items, SeedsOf(seedOf, items), out, i, b, |items|);
        if b in h.Bins(x) {
          CntAtLeast(h, items, out, b, i, |items|);
        }
      }
    }

    /** remove: takes the listed items out. */
    method RemoveAll(list: seq<V>, seeds: seq<V>, withSeed: bool, ghost items: seq<V>, ghost seedOf: V -> V,
        ghost out: set<V>)
      requires Valid() && Holds(items, out) && Distinct(list)
      requires forall x :: x in list ==> x in items && x !in out
      requires withSeed ==> HoldsSeeds(items, seedOf, out) && seeds == SeedsOf(seedOf, list)
      modifies cnt, sum, seedSum
      ensures Holds(items, out + Elements(list))
      ensures withSeed ==> HoldsSeeds(items, seedOf, out + Elements(list))
    {
      assert out + Elements(list[..0]) == out;
      for k := 0 to |list|
        invariant Holds(items, out + Elements(list[..k]))
        invariant withSeed ==> HoldsSeeds(items, seedOf, out + Elements(list[..k]))
      {
        assert list[k] in list && list[k] !in Elements(list[..k]);
        RemoveOne(list[k], if withSeed then seeds[k] else sp.nil, withSeed, items, seedOf, out + Elements(list[..k]));
        assert Elements(list[..k + 1]) == Elements(list[..k]) + {list[k]};
        assert out + Elements(list[..k + 1]) == out + Elements(list[..k]) + {list[k]};
      }
      assert list[..|list|] == list;
    }

    /** add and addKeys: builds the table of the items. */
    method AddAll(items: seq<V>, seeds: seq<V>, withSeed: bool, ghost seedOf: V -> V)
      requires Valid() && Holds([], {}) && HoldsSeeds([], seedOf, {}) && Distinct(items)
      requires withSeed ==> seeds == SeedsOf(seedOf, items)
      modifies cnt, sum, seedSum
      ensures Holds(items, {})
      ensures withSeed ==> HoldsSeeds(items, seedOf, {})
    {
      for k := 0 to |items|
        invariant forall b :: 0 <= b < h.tabLen ==>
          && cnt[b] == Cnt(h, items, {}, b, k) && sum[b] == Sum(sp, h, items, items, {}, b, k)
          && (withSeed ==> seedSum[b] == Sum(sp, h, items, SeedsOf(seedOf, items), {}, b, k))
      {
        AddItem(items[k], if withSeed then seeds[k] else sp.nil, withSeed);
      }
    }

    /** unique_hash_evals. */
    method UniqueHashEvals(items: seq<V>, marked: seq<bool>) returns (probes: seq<nat>)
      requires Valid() && |marked| == h.tabLen
      ensures (forall i :: 0 <= i < |items| ==> h.OkFor(items[i])) && probes == UniqueEvals(h, marked, items)
    {
      assert forall i :: 0 <= i < |items| ==> h.OkFor(items[i]);
      probes := [];
      var selected := new bool[h.tabLen](_ => false);
      for k := 0 to |items|
        invariant probes == UniqueEvals(h, marked, items[..k])
        invariant forall b :: 0 <= b < h.tabLen ==> (selected[b] <==> b in probes)
      {
        probes := SelectBins(h.hash(items[k]), marked, selected, probes);
        assert items[..k + 1][..k] == items[..k];
      }
      assert items[..|items|] == items;
    }

    // The loop over the bins of one item.
    static method SelectBins(idxs: seq<nat>, marked: seq<bool>, selected: array<bool>, probes0: seq<nat>)
      returns (probes: seq<nat>)
      requires selected.Length == |marked| && forall j :: 0 <= j < |idxs| ==> idxs[j] < |marked|
      requires forall b :: 0 <= b < |marked| ==> (selected[b] <==> b in probes0)
      modifies selected
      ensures probes == AddBins(marked, probes0, idxs)
      ensures forall b :: 0 <= b < |marked| ==> (selected[b] <==> b in probes)
    {
      probes := probes0;
      for i := 0 to |idxs|
        invariant probes == AddBins(marked, probes0, idxs[..i])
        invariant forall b :: 0 <= b < |marked| ==> (selected[b] <==> b in probes)
      {
        assert idxs[..i + 1][..i] == idxs[..i];
        var idx := idxs[i];
        if !marked[idx] {
          if !selected[idx] {
            selected[idx] := true;
            probes := probes + [idx];
          }
        }
      }
      assert idxs[..|idxs|] == idxs;
    }
  }
}
