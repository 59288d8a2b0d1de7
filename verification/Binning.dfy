/** Sorting inputs into bins on several threads, and merging the threads' parts of each bin in
    place (ImplParSolve in rr22/okvs/baxos.cc). */
module Binning {
  import opened Arithmetic

  // The inputs from lo to hi that belong to bin b, in order.
  function Mapped(binOf: seq<nat>, lo: nat, hi: nat, b: nat): (m: seq<nat>)
    requires lo <= hi <= |binOf|
    ensures forall k :: 0 <= k < |m| ==> lo <= m[k] < hi && binOf[m[k]] == b
  {
    if lo == hi then [] else
      Mapped(binOf, lo, hi - 1, b) + if binOf[hi - 1] == b then [hi - 1] else []
  }

  lemma {:induction false} MappedJoins(binOf: seq<nat>, lo: nat, mid: nat, hi: nat, b: nat)
    requires lo <= mid <= hi <= |binOf|
    ensures Mapped(binOf, lo, mid, b) + Mapped(binOf, mid, hi, b) == Mapped(binOf, lo, hi, b)
    decreases hi
  {
    if mid < hi {
      MappedJoins(binOf, lo, mid, hi - 1, b);
    }
  }

  /** Every input is in the list of its bin, exactly once. */
  lemma {:induction false} MappedOnce(binOf: seq<nat>, n: nat, i: nat)
    requires i < n <= |binOf|
    ensures i in Mapped(binOf, 0, n, binOf[i])
    ensures forall b, j, k :: 0 <= j < k < |Mapped(binOf, 0, n, b)| ==>
      Mapped(binOf, 0, n, b)[j] < Mapped(binOf, 0, n, b)[k]
    decreases n
  {
    if i < n - 1 {
      MappedOnce(binOf, n - 1, i);
    } else if 0 < n - 1 {
      MappedOnce(binOf, n - 1, 0);
    }
    forall b, j, k | 0 <= j < k < |Mapped(binOf, 0, n, b)|
      ensures Mapped(binOf, 0, n, b)[j] < Mapped(binOf, 0, n, b)[k]
    {
      var m := Mapped(binOf, 0, n - 1, b);
      if k < |m| {
        assert m[j] < m[k];
      }
    }
  }

  // Where a thread's inputs begin.
  function Begin(n: nat, threads: nat, t: nat): (lo: nat)
    requires 0 < threads
  {
    n * t / threads
  }

  lemma Ranges(n: nat, threads: nat, t: nat)
    requires t < threads
    ensures Begin(n, threads, 0) == 0 && Begin(n, threads, threads) == n
    ensures Begin(n, threads, t) <= Begin(n, threads, t + 1) <= n
  {
    DivModUnique(n * threads, threads, n, 0);
    assert n * (t + 1) == n * t + n;
    DivMonotone(n * t, n * (t + 1), threads);
    if t + 1 < threads {
      MulGap(n, threads, t + 1);
    }
    DivMonotone(n * (t + 1), n * threads, threads);
  }

  lemma DivMonotone(a: nat, b: nat, d: nat)
    requires a <= b && 0 < d
    ensures a / d <= b / d
  {
    if b / d < a / d {
      MulGap(d, a / d, b / d);
    }
  }

  // All that a thread maps to a bin.
  function Part(binOf: seq<nat>, threads: nat, t: nat, b: nat): seq<nat>
    requires t < threads
  {
    Ranges(|binOf|, threads, t);
    Mapped(binOf, Begin(|binOf|, threads, t), Begin(|binOf|, threads, t + 1), b)
  }

  // ----- The layout -----

  // The place of the k-th item of a thread in a bin: bins follow each other, and within a bin
  // the threads' parts of cap places each.
  function Slot(threads: nat, cap: nat, t: nat, b: nat, k: nat): nat
  {
    cap * threads * b + cap * t + k
  }

  lemma SlotBounds(threads: nat, cap: nat, bins: nat, t: nat, b: nat, k: nat)
    requires t < threads && b < bins && k < cap
    ensures cap * threads * b <= Slot(threads, cap, t, b, k) < cap * threads * (b + 1) <= cap * threads * bins
  {
    ghost var w := cap * threads;
    MulGap(cap, threads, t);
    assert w * (b + 1) == w * b + w;
    if b + 1 < bins {
      MulGap(w, bins, b + 1);
    }
  }

  /** Different items have different places. */
  lemma SlotsApart(threads: nat, cap: nat, t: nat, b: nat, k: nat, t': nat, b': nat, k': nat)
    requires t < threads && t' < threads && k < cap && k' < cap
    requires Slot(threads, cap, t, b, k) == Slot(threads, cap, t', b', k')
    ensures t == t' && b == b' && k == k'
  {
    ghost var w, s := cap * threads, Slot(threads, cap, t, b, k);
    MulGap(cap, threads, t);
    MulGap(cap, threads, t');
    DivModUnique(s, w, b, cap * t + k);
    DivModUnique(s, w, b', cap * t' + k');
    DivModUnique(cap * t + k, cap, t, k);
    DivModUnique(cap * t' + k', cap, t', k');
  }

  // ----- Hashing into bins -----

  // The inputs: their hashes and values, and the bin of each hash.
  datatype Inputs<H, V> = Inputs(hashes: seq<H>, values: seq<V>, binOf: seq<nat>)
  {
    ghost predicate Good(bins: nat)
    {
      |hashes| == |values| == |binOf| && forall i :: 0 <= i < |binOf| ==> binOf[i] < bins
    }
  }

  // The shape of the backing arrays.
  datatype Shape = Shape(threads: nat, cap: nat, bins: nat)
  {
    predicate Thread(t: nat, b: nat) { t < threads && b < bins }

    function Place(t: nat, b: nat, k: nat): nat { Slot(threads, cap, t, b, k) }

    function Size(): nat { cap * threads * bins }

    // No thread maps more than cap inputs to a bin.
    ghost predicate Fits(binOf: seq<nat>)
    {
      forall t: nat, b: nat :: Thread(t, b) ==> |Part(binOf, threads, t, b)| <= cap
    }
  }

  // The listed inputs are at the first places of a part, hashes and values side by side.
  ghost predicate Holds<H, V>(x: Inputs<H, V>, hb: seq<H>, vb: seq<V>, from: nat, m: seq<nat>)
    requires |x.hashes| == |x.values|
  {
    && |hb| == |vb| && from + |m| <= |hb|
    && forall k :: 0 <= k < |m| ==>
        m[k] < |x.hashes| && hb[from + k] == x.hashes[m[k]] && vb[from + k] == x.values[m[k]]
  }

  // What thread t has mapped to bin b when it has come to input pos.
  ghost predicate PartOk<H, V>(x: Inputs<H, V>, sh: Shape, hb: seq<H>, vb: seq<V>, size: nat, t: nat, b: nat, pos: nat)
    requires |x.hashes| == |x.values| == |x.binOf| && sh.Thread(t, b)
  {
    Begin(|x.binOf|, sh.threads, t) <= pos <= |x.binOf| &&
    var m := Mapped(x.binOf, Begin(|x.binOf|, sh.threads, t), pos, b);
    size == |m| && Holds(x, hb, vb, sh.Place(t, b, 0), m)
  }

  class Bins<H, V> {
    const sh: Shape
    const hashBacking: array<H>
    const valBacking: array<V>
    const sizes: array2<nat>

    ghost predicate Shaped()
    {
      && hashBacking.Length == valBacking.Length == sh.Size()
      && sizes.Length0 == sh.threads && sizes.Length1 == sh.bins
      && hashBacking as object != valBacking as object
    }

    ghost predicate AllParts(x: Inputs<H, V>, pos: seq<nat>)
      requires Shaped() && x.Good(sh.bins) && |pos| == sh.threads
      reads hashBacking, valBacking, sizes
    {
      forall t: nat, b: nat :: sh.Thread(t, b) ==> PartOk(x, sh, hashBacking[..], valBacking[..], sizes[t, b], t, b,
          pos[t])
    }

    constructor (sh: Shape, h: H, v: V)
      ensures this.sh == sh && Shaped() && fresh(hashBacking) && fresh(valBacking) && fresh(sizes)
      ensures forall t: nat, b: nat :: sh.Thread(t, b) ==> sizes[t, b] == 0
    {
      this.sh := sh;
      hashBacking := new H[sh.Size()](_ => h);
      valBacking := new V[sh.Size()](_ => v);
      sizes := new nat[sh.threads, sh.bins]((i, j) => 0);
    }

    // A thread maps its next input.
    method MapNext(x: Inputs<H, V>, ghost pos: seq<nat>, t: nat, i: nat)
      requires Shaped() && x.Good(sh.bins) && sh.Fits(x.binOf) && |pos| == sh.threads && t < sh.threads && i == pos[t]
      requires AllParts(x, pos) && InRange(|x.binOf|, pos) && Unfinished(|x.binOf|, pos, t)
      modifies hashBacking, valBacking, sizes
      ensures AllParts(x, pos[t := i + 1]) && InRange(|x.binOf|, pos[t := i + 1])
    {
      hide PartOk, Slot, Begin, Mapped;
      Ranges(|x.binOf|, sh.threads, t);
      ghost var hb, vb := hashBacking[..], valBacking[..];
      var b := x.binOf[i];
      var bs := sizes[t, b];
      assert PartOk(x, sh, hb, vb, bs, t, b, i);
      Room(x, sh, hb, vb, bs, t, i);
      var s := sh.Place(t, b, bs);
      SlotBounds(sh.threads, sh.cap, sh.bins, t, b, bs);
      sizes[t, b] := bs + 1;
      hashBacking[s] := x.hashes[i];
      valBacking[s] := x.values[i];
      assert hashBacking[..] == hb[s := x.hashes[i]] && valBacking[..] == vb[s := x.values[i]];
      forall t': nat, b': nat | sh.Thread(t', b')
        ensures PartOk(x, sh, hashBacking[..], valBacking[..], sizes[t', b'], t', b', pos[t := i + 1][t'])
      {
        assert PartOk(x, sh, hb, vb, old(sizes[t', b']), t', b', pos[t']);
        SizeFits(x, sh, hb, vb, old(sizes[t', b']), t', b', pos[t']);
        MapStep(x, sh, hb, vb, old(sizes[t', b']), t', b', pos[t'], t, i, bs, s);
      }
    }

    lemma StartAll(x: Inputs<H, V>, pos: seq<nat>)
      requires Shaped() && 0 < sh.threads && x.Good(sh.bins) && |pos| == sh.threads
      requires forall t: nat, b: nat :: sh.Thread(t, b) ==> sizes[t, b] == 0
      requires forall t: nat :: t < |pos| ==> pos[t] == Begin(|x.binOf|, sh.threads, t)
      ensures AllParts(x, pos)
    {
      hide PartOk, Begin;
      StartParts(x, sh, hashBacking[..], valBacking[..]);
    }

    /** All threads map their inputs, in any interleaving of their steps. */
    method MapAll(x: Inputs<H, V>)
      requires Shaped() && 0 < sh.threads && x.Good(sh.bins) && sh.Fits(x.binOf)
      requires forall t: nat, b: nat :: sh.Thread(t, b) ==> sizes[t, b] == 0
      modifies hashBacking, valBacking, sizes
      ensures AllParts(x, Ends(|x.binOf|, sh.threads))
    {
      hide AllParts, Begin, InRange, Left, Shape.Fits;
      var n := |x.binOf|;
      var pos: seq<nat> := seq(sh.threads, t requires 0 <= t < sh.threads => Begin(n, sh.threads, t));
      StartInRange(n, sh.threads, pos);
      StartAll(x, pos);
      while exists t: nat :: t < |pos| && Unfinished(n, pos, t)
        invariant |pos| == sh.threads && InRange(n, pos) && AllParts(x, pos)
        decreases Left(n, pos)
      {
        var t: nat :| t < |pos| && Unfinished(n, pos, t);
        Ranges(n, sh.threads, t);
        LeftDrops(n, pos, t);
        MapNext(x, pos, t, pos[t]);
        pos := pos[t := pos[t] + 1];
      }
      AllFinished(n, pos);
    }

    /** The thread parts of a bin are moved together in place: the bin holds its inputs in their
        order, hashes and values side by side, whatever the number of threads. */
    method Merge(x: Inputs<H, V>, b: nat) returns (binSize: nat)
      requires Shaped() && 0 < sh.threads && x.Good(sh.bins) && sh.Fits(x.binOf) && b < sh.bins
      requires BinParts(x, sh, hashBacking[..], valBacking[..], b, 0) && forall t: nat :: sh.Thread(t, b) ==>
          sizes[t, b] == |Part(x.binOf, sh.threads, t, b)|
      modifies hashBacking, valBacking
      ensures var m := Mapped(x.binOf, 0, |x.binOf|, b);
        binSize == |m| && Holds(x, hashBacking[..], valBacking[..], sh.Place(0, b, 0), m)
      ensures forall c: nat :: c < sh.bins && c != b && old(BinParts(x, sh, hashBacking[..], valBacking[..], c, 0)) ==>
        BinParts(x, sh, hashBacking[..], valBacking[..], c, 0)
    {
      hide Holds, Slot, Begin, Mapped;
      ghost var n, hb0, vb0 := |x.binOf|, hashBacking[..], valBacking[..];
      MergeStart(x, sh, hb0, vb0, b);
      assert sh.Thread(0, b);
      binSize := sizes[0, b];
      var i := 1;
      while i < sh.threads
        invariant 1 <= i <= sh.threads
        invariant Merged(x, sh, hashBacking[..], valBacking[..], b, i, binSize)
        invariant SameOutside(sh, hb0, vb0, hashBacking[..], valBacking[..], b)
      {
        ghost var hb, vb := hashBacking[..], valBacking[..];
        assert sh.Thread(i, b);
        var size := sizes[i, b];
        var src, dst := sh.Place(i, b, 0), sh.Place(0, b, 0) + binSize;
        MoveFits(x, sh, hb, vb, b, i, binSize);
        MoveDown(hashBacking, dst, src, size);
        assert valBacking[..] == vb;
        MoveDown(valBacking, dst, src, size);
        MergeStep(x, sh, hb0, vb0, hb, vb, b, i, binSize);
        binSize := binSize + size;
        i := i + 1;
      }
      MergeEnd(x, sh, hb0, vb0, hashBacking[..], valBacking[..], b, binSize);
    }
  }

  function Ends(n: nat, threads: nat): (pos: seq<nat>)
    requires 0 < threads
    ensures |pos| == threads
  {
    seq(threads, t requires 0 <= t < threads => Begin(n, threads, t + 1))
  }

  // Thread t has inputs left.
  predicate Unfinished(n: nat, pos: seq<nat>, t: nat)
  {
    t < |pos| && pos[t] < Begin(n, |pos|, t + 1)
  }

  // Every thread is within its range.
  ghost predicate InRange(n: nat, pos: seq<nat>)
  {
    forall t: nat :: t < |pos| ==> Begin(n, |pos|, t) <= pos[t] <= Begin(n, |pos|, t + 1)
  }

  lemma StartInRange(n: nat, threads: nat, pos: seq<nat>)
    requires 0 < threads == |pos| && forall t: nat :: t < threads ==> pos[t] == Begin(n, threads, t)
    ensures InRange(n, pos)
  {
    forall t: nat | t < threads ensures Begin(n, threads, t) <= pos[t] <= Begin(n, threads, t + 1) {
      Ranges(n, threads, t);
    }
  }

  lemma AllFinished(n: nat, pos: seq<nat>)
    requires 0 < |pos| && InRange(n, pos) && !exists t: nat :: t < |pos| && Unfinished(n, pos, t)
    ensures pos == Ends(n, |pos|)
  {
    forall t: nat | t < |pos| ensures pos[t] == Begin(n, |pos|, t + 1) {
      assert !Unfinished(n, pos, t);
    }
  }

  lemma StartParts<H, V>(x: Inputs<H, V>, sh: Shape, hb: seq<H>, vb: seq<V>)
    requires 0 < sh.threads && x.Good(sh.bins) && |hb| == |vb| == sh.Size()
    ensures forall t: nat, b: nat :: sh.Thread(t, b) ==> PartOk(x, sh, hb, vb, 0, t, b, Begin(|x.binOf|, sh.threads, t))
  {
    forall t: nat, b: nat | sh.Thread(t, b) ensures PartOk(x, sh, hb, vb, 0, t, b, Begin(|x.binOf|, sh.threads, t)) {
      Ranges(|x.binOf|, sh.threads, t);
      PartStart(sh, t, b);
    }
  }

  lemma PartStart(sh: Shape, t: nat, b: nat)
    requires sh.Thread(t, b)
    ensures sh.Place(t, b, 0) <= sh.Size()
  {
    ghost var w, cap, threads := sh.cap * sh.threads, sh.cap, sh.threads;
    MulGap(cap, threads, t);
    MulGap(w, sh.bins, b);
  }

  // How many inputs the threads have left.
  ghost function Left(n: nat, pos: seq<nat>): nat
  {
    LeftOf(n, |pos|, pos, |pos|)
  }

  ghost function LeftOf(n: nat, threads: nat, pos: seq<nat>, k: nat): nat
    requires k <= |pos|
  {
    if k == 0 then 0 else LeftOf(n, threads, pos, k - 1) + if pos[k - 1] <= n then n - pos[k - 1] else 0
  }

  lemma {:induction false} LeftOfDrops(n: nat, threads: nat, pos: seq<nat>, t: nat, k: nat)
    requires t < |pos| && k <= |pos| && pos[t] < n
    ensures LeftOf(n, threads, pos[t := pos[t] + 1], k) == LeftOf(n, threads, pos, k) - if t < k then 1 else 0
  {
    if k > 0 {
      LeftOfDrops(n, threads, pos, t, k - 1);
    }
  }

  lemma LeftDrops(n: nat, pos: seq<nat>, t: nat)
    requires t < |pos| && pos[t] < n
    ensures Left(n, pos[t := pos[t] + 1]) < Left(n, pos)
  {
    LeftOfDrops(n, |pos|, pos, t, |pos|);
  }

  // ----- Merging -----

  function Moved<T>(s: seq<T>, dst: nat, src: nat, n: nat): (r: seq<T>)
    requires dst + n <= |s| && src + n <= |s|
    ensures |r| == |s|
  {
    seq(|s|, i requires 0 <= i < |s| => if dst <= i < dst + n then s[src + (i - dst)] else s[i])
  }

  lemma MovedNext<T>(s: seq<T>, dst: nat, src: nat, n: nat)
    requires dst <= src && src + n < |s|
    ensures Moved(s, dst, src, n)[src + n] == s[src + n]
    ensures Moved(s, dst, src, n)[dst + n := s[src + n]] == Moved(s, dst, src, n + 1)
  {
  }

  // memmove to the left.
  method MoveDown<T>(a: array<T>, dst: nat, src: nat, n: nat)
    requires dst <= src && src + n <= a.Length
    modifies a
    ensures a[..] == Moved(old(a[..]), dst, src, n)
  {
    hide Moved;
    ghost var before := a[..];
    MovedNone(before, dst, src);
    for j := 0 to n
      invariant a[..] == Moved(before, dst, src, j)
    {
      MovedNext(before, dst, src, j);
      assert a[src + j] == a[..][src + j];
      a[dst + j] := a[src + j];
    }
  }

  lemma MovedNone<T>(s: seq<T>, dst: nat, src: nat)
    requires dst <= |s| && src <= |s|
    ensures Moved(s, dst, src, 0) == s
  {
  }

  // The parts of bin b from thread i on are in their places.
  ghost predicate BinParts<H, V>(x: Inputs<H, V>, sh: Shape, hb: seq<H>, vb: seq<V>, b: nat, i: nat)
    requires |x.hashes| == |x.values| && 0 < sh.threads
  {
    forall t: nat :: i <= t < sh.threads ==> Holds(x, hb, vb, sh.Place(t, b, 0), Part(x.binOf, sh.threads, t, b))
  }

  // The parts of the first i threads have been merged, the others wait.
  ghost predicate Merged<H, V>(x: Inputs<H, V>, sh: Shape, hb: seq<H>, vb: seq<V>, b: nat, i: nat, binSize: nat)
    requires |x.hashes| == |x.values| == |x.binOf| && 0 < sh.threads
  {
    && i <= sh.threads && Begin(|x.binOf|, sh.threads, i) <= |x.binOf| && |hb| == |vb| == sh.Size()
    && binSize <= sh.cap * i && BinParts(x, sh, hb, vb, b, i)
    && var m := Mapped(x.binOf, 0, Begin(|x.binOf|, sh.threads, i), b);
       binSize == |m| && Holds(x, hb, vb, sh.Place(0, b, 0), m)
  }

  ghost predicate SameOutside<H, V>(sh: Shape, hb0: seq<H>, vb0: seq<V>, hb: seq<H>, vb: seq<V>, b: nat)
  {
    && |hb0| == |hb| == |vb0| == |vb|
    && forall k :: 0 <= k < |hb| && !(sh.Place(0, b, 0) <= k < sh.Place(0, b + 1, 0)) ==>
        hb[k] == hb0[k] && vb[k] == vb0[k]
  }

  // There is room for the next input of a thread.
  lemma Room<H, V>(x: Inputs<H, V>, sh: Shape, hb: seq<H>, vb: seq<V>, bs: nat, t: nat, i: nat)
    requires x.Good(sh.bins) && sh.Fits(x.binOf) && t < sh.threads
    requires Begin(|x.binOf|, sh.threads, t) <= i < Begin(|x.binOf|, sh.threads, t + 1) <= |x.binOf|
    requires PartOk(x, sh, hb, vb, bs, t, x.binOf[i], i)
    ensures bs < sh.cap
  {
    hide Begin;
    var lo, hi, b := Begin(|x.binOf|, sh.threads, t), Begin(|x.binOf|, sh.threads, t + 1), x.binOf[i];
    assert sh.Thread(t, b);
    assert |Part(x.binOf, sh.threads, t, b)| <= sh.cap;
    MappedJoins(x.binOf, lo, i + 1, hi, b);
  }

  // No part exceeds its places.
  lemma SizeFits<H, V>(x: Inputs<H, V>, sh: Shape, hb: seq<H>, vb: seq<V>, size: nat, t: nat, b: nat, pos: nat)
    requires x.Good(sh.bins) && sh.Fits(x.binOf) && sh.Thread(t, b) && PartOk(x, sh, hb, vb, size, t, b, pos)
    requires pos <= Begin(|x.binOf|, sh.threads, t + 1)
    ensures size <= sh.cap
  {
    hide Begin;
    Ranges(|x.binOf|, sh.threads, t);
    assert |Part(x.binOf, sh.threads, t, b)| <= sh.cap;
    MappedJoins(x.binOf, Begin(|x.binOf|, sh.threads, t), pos, Begin(|x.binOf|, sh.threads, t + 1), b);
  }

  // Writing elsewhere keeps a part, and writing right behind it extends it.
  lemma HoldsAfter<H, V>(x: Inputs<H, V>, hb: seq<H>, vb: seq<V>, from: nat, m: seq<nat>, s: nat, i: nat)
    requires |x.hashes| == |x.values| && Holds(x, hb, vb, from, m) && s < |hb| && i < |x.hashes|
    ensures !(from <= s < from + |m|) ==> Holds(x, hb[s := x.hashes[i]], vb[s := x.values[i]], from, m)
    ensures s == from + |m| ==> Holds(x, hb[s := x.hashes[i]], vb[s := x.values[i]], from, m + [i])
  {
  }

  lemma PlaceNext(sh: Shape, t: nat, b: nat, k: nat)
    ensures sh.Place(t, b, k) == sh.Place(t, b, 0) + k
  {
  }

  // One write keeps every part as its thread's position says.
  lemma MapStep<H, V>(x: Inputs<H, V>, sh: Shape, hb: seq<H>, vb: seq<V>, size: nat, t': nat, b': nat, pos: nat,
      t: nat, i: nat, bs: nat, s: nat)
    requires x.Good(sh.bins) && sh.Thread(t', b') && PartOk(x, sh, hb, vb, size, t', b', pos) &&
        |hb| == |vb| == sh.Size()
    requires t < sh.threads && i < |x.binOf| && (t' == t ==> pos == i) && size <= sh.cap && bs < sh.cap
    requires t' == t && b' == x.binOf[i] ==> bs == size
    requires s == sh.Place(t, x.binOf[i], bs)
    ensures s < |hb| && PartOk(x, sh, hb[s := x.hashes[i]], vb[s := x.values[i]], if t' == t &&
        b' == x.binOf[i] then size + 1 else size, t', b', if t' == t then i + 1 else pos)
  {
    hide Slot, Begin;
    var b := x.binOf[i];
    SlotBounds(sh.threads, sh.cap, sh.bins, t, b, bs);
    var m, from := Mapped(x.binOf, Begin(|x.binOf|, sh.threads, t'), pos, b'), sh.Place(t', b', 0);
    HoldsAfter(x, hb, vb, from, m, s, i);
    PlaceNext(sh, t', b', bs);
    if t' != t || b' != b {
      if from <= s < from + |m| {
        PlaceNext(sh, t', b', s - from);
        SlotsApart(sh.threads, sh.cap, t', b', s - from, t, b, bs);
      }
    }
  }

  // Part i lies behind what is merged and within the bin.
  lemma PartPlace(sh: Shape, b: nat, i: nat)
    requires i < sh.threads && b < sh.bins
    ensures sh.Place(i, b, 0) == sh.Place(0, b, 0) + sh.cap * i
    ensures sh.Place(i, b, 0) + sh.cap <= sh.Place(0, b + 1, 0) <= sh.Size()
    ensures forall t: nat :: i < t < sh.threads ==> sh.Place(i, b, 0) + sh.cap <= sh.Place(t, b, 0)
  {
    ghost var w, cap := sh.cap * sh.threads, sh.cap;
    MulGap(cap, sh.threads, i);
    assert w * (b + 1) == w * b + w;
    if b + 1 < sh.bins {
      MulGap(w, sh.bins, b + 1);
    }
    forall t: nat | i < t < sh.threads ensures sh.Place(i, b, 0) + sh.cap <= sh.Place(t, b, 0) {
      MulGap(cap, t, i);
    }
  }

  lemma MergeStart<H, V>(x: Inputs<H, V>, sh: Shape, hb: seq<H>, vb: seq<V>, b: nat)
    requires 0 < sh.threads && x.Good(sh.bins) && sh.Fits(x.binOf) && b < sh.bins && |hb| == |vb| == sh.Size()
    requires BinParts(x, sh, hb, vb, b, 0)
    ensures Merged(x, sh, hb, vb, b, 1, |Part(x.binOf, sh.threads, 0, b)|) && SameOutside(sh, hb, vb, hb, vb, b)
  {
    hide Holds, Mapped;
    Ranges(|x.binOf|, sh.threads, 0);
    assert sh.Thread(0, b);
    assert sh.cap * 1 == sh.cap;
  }

  lemma MoveFits<H, V>(x: Inputs<H, V>, sh: Shape, hb: seq<H>, vb: seq<V>, b: nat, i: nat, binSize: nat)
    requires x.Good(sh.bins) && sh.Fits(x.binOf) && b < sh.bins && i < sh.threads
    requires Merged(x, sh, hb, vb, b, i, binSize)
    ensures |Part(x.binOf, sh.threads, i, b)| <= sh.cap
    ensures sh.Place(0, b, 0) + binSize <= sh.Place(i, b, 0) && sh.Place(i, b, 0) + sh.cap <= sh.Size()
  {
    hide Holds, Mapped, Slot, Begin;
    assert sh.Thread(i, b);
    PartPlace(sh, b, i);
  }

  // Moving a part behind the merged ones extends them and spares the later parts.
  lemma HoldsMoved<H, V>(x: Inputs<H, V>, hb: seq<H>, vb: seq<V>, from: nat, m: seq<nat>, src: nat, p: seq<nat>)
    requires |x.hashes| == |x.values| && Holds(x, hb, vb, from, m) && Holds(x, hb, vb, src, p) && from + |m| <= src
    ensures Holds(x, Moved(hb, from + |m|, src, |p|), Moved(vb, from + |m|, src, |p|), from, m + p)
  {
  }

  lemma HoldsSpared<H, V>(x: Inputs<H, V>, hb: seq<H>, vb: seq<V>, dst: nat, src: nat, n: nat, from: nat, m: seq<nat>)
    requires |x.hashes| == |x.values| && Holds(x, hb, vb, from, m) && dst + n <= |hb| && src + n <= |hb|
    requires dst + n <= from || from + |m| <= dst
    ensures Holds(x, Moved(hb, dst, src, n), Moved(vb, dst, src, n), from, m)
  {
  }

  lemma MergeStep<H, V>(x: Inputs<H, V>, sh: Shape, hb0: seq<H>, vb0: seq<V>, hb: seq<H>, vb: seq<V>, b: nat, i: nat,
      binSize: nat)
    requires x.Good(sh.bins) && sh.Fits(x.binOf) && b < sh.bins && i < sh.threads
    requires Merged(x, sh, hb, vb, b, i, binSize)
    requires SameOutside(sh, hb0, vb0, hb, vb, b)
    ensures var p := Part(x.binOf, sh.threads, i, b); var dst, src := sh.Place(0, b, 0) + binSize, sh.Place(i, b, 0);
      dst + |p| <= |hb| && src + |p| <= |hb| &&
      Merged(x, sh, Moved(hb, dst, src, |p|), Moved(vb, dst, src, |p|), b, i + 1, binSize + |p|) &&
      SameOutside(sh, hb0, vb0, Moved(hb, dst, src, |p|), Moved(vb, dst, src, |p|), b)
  {
    hide Holds, Mapped, Slot, Begin;
    var p, from := Part(x.binOf, sh.threads, i, b), sh.Place(0, b, 0);
    var dst, src := from + binSize, sh.Place(i, b, 0);
    MoveFits(x, sh, hb, vb, b, i, binSize);
    PartPlace(sh, b, i);
    Ranges(|x.binOf|, sh.threads, i);
    MappedJoins(x.binOf, 0, Begin(|x.binOf|, sh.threads, i), Begin(|x.binOf|, sh.threads, i + 1), b);
    HoldsMoved(x, hb, vb, from, Mapped(x.binOf, 0, Begin(|x.binOf|, sh.threads, i), b), src, p);
    assert sh.cap * (i + 1) == sh.cap * i + sh.cap;
    forall t: nat | i + 1 <= t < sh.threads
      ensures Holds(x, Moved(hb, dst, src, |p|), Moved(vb, dst, src, |p|), sh.Place(t, b, 0), Part(x.binOf,
          sh.threads, t, b))
    {
      HoldsSpared(x, hb, vb, dst, src, |p|, sh.Place(t, b, 0), Part(x.binOf, sh.threads, t, b));
    }
  }

  lemma MergeEnd<H, V>(x: Inputs<H, V>, sh: Shape, hb0: seq<H>, vb0: seq<V>, hb: seq<H>, vb: seq<V>, b: nat,
      binSize: nat)
    requires 0 < sh.threads && x.Good(sh.bins) && sh.Fits(x.binOf) && b < sh.bins
    requires Merged(x, sh, hb, vb, b, sh.threads, binSize) && SameOutside(sh, hb0, vb0, hb, vb, b)
    ensures var m := Mapped(x.binOf, 0, |x.binOf|, b); binSize == |m| && Holds(x, hb, vb, sh.Place(0, b, 0), m)
    ensures forall c: nat :: c < sh.bins && c != b && BinParts(x, sh, hb0, vb0, c, 0) ==> BinParts(x, sh, hb, vb, c, 0)
  {
    Ranges(|x.binOf|, sh.threads, 0);
    forall c: nat | c < sh.bins && c != b && BinParts(x, sh, hb0, vb0, c, 0) ensures BinParts(x, sh, hb, vb, c, 0) {
      OtherBin(x, sh, hb0, vb0, hb, vb, b, c);
    }
  }

  // What is stored outside a changed stretch is kept.
  lemma HoldsOutside<H, V>(x: Inputs<H, V>, hb0: seq<H>, vb0: seq<V>, hb: seq<H>, vb: seq<V>, from: nat, m: seq<nat>,
      lo: nat, hi: nat)
    requires |x.hashes| == |x.values| && |hb0| == |hb| == |vb0| == |vb| && Holds(x, hb0, vb0, from, m)
    requires forall k :: 0 <= k < |hb| && !(lo <= k < hi) ==> hb[k] == hb0[k] && vb[k] == vb0[k]
    requires from + |m| <= lo || hi <= from
    ensures Holds(x, hb, vb, from, m)
  {
  }

  lemma OtherBin<H, V>(x: Inputs<H, V>, sh: Shape, hb0: seq<H>, vb0: seq<V>, hb: seq<H>, vb: seq<V>, b: nat, c: nat)
    requires 0 < sh.threads && x.Good(sh.bins) && sh.Fits(x.binOf) && b < sh.bins && c < sh.bins && b != c
    requires SameOutside(sh, hb0, vb0, hb, vb, b) && BinParts(x, sh, hb0, vb0, c, 0)
    ensures BinParts(x, sh, hb, vb, c, 0)
  {
    hide Slot, Part, Holds, Shape.Place;
    BinsApart(sh, b, c);
    forall t: nat | t < sh.threads ensures Holds(x, hb, vb, sh.Place(t, c, 0), Part(x.binOf, sh.threads, t, c)) {
      assert sh.Thread(t, c);
      PartPlace(sh, c, t);
      HoldsOutside(x, hb0, vb0, hb, vb, sh.Place(t, c, 0), Part(x.binOf, sh.threads, t, c), sh.Place(0, b, 0),
          sh.Place(0, b + 1, 0));
    }
  }

  lemma BinsApart(sh: Shape, b: nat, c: nat)
    requires b != c
    ensures sh.Place(0, c + 1, 0) <= sh.Place(0, b, 0) || sh.Place(0, b + 1, 0) <= sh.Place(0, c, 0)
  {
    ghost var w := sh.cap * sh.threads;
    if c < b {
      MulGap(w, b, c);
      assert w * (c + 1) == w * c + w;
    } else {
      MulGap(w, c, b);
      assert w * (b + 1) == w * b + w;
    }
  }
}
