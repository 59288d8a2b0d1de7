/** The batched private set union of psu/krtw19_psu.cc, with an ideal OPRF and ideal transfers. */
module Krtw {
  import opened Lists
  import opened Algebra
  import opened Interpolation

  // Slots per bin, and bins per batch.
  const BIN := 64
  const BINS_PER_BATCH := 16

  // The ideal parts: hashes to field elements, the OPRF keyed by the slot, and exclusive-or of
  // blocks; bot marks an empty slot. arrange stands for the order of a sorted bin.
  datatype Ideals<!E(!new), !K(!new)> = Ideals(field: Space<K, K>, hash: E -> K, oprf: (nat, K) -> K,
      blocks: Space<bool, E>, bot: E, botKey: K, arrange: seq<E> -> seq<E>)
  {
    function Hash(e: E): K { hash(e) }

    function Oprf(slot: nat, x: K): K { oprf(slot, x) }

    function Arrange(s: seq<E>): seq<E> { arrange(s) }

    ghost predicate Good()
    {
      && IsField(field) && blocks.IsSpace()
      && forall s: seq<E> :: |Arrange(s)| == |s| && forall e :: e in Arrange(s) <==> e in s
    }
  }

  // ----- Binning -----

  function InBin<E>(elems: seq<E>, binOf: E -> nat, b: nat): seq<E>
  {
    if elems == [] then [] else
      InBin(elems[..|elems| - 1], binOf, b) + if binOf(elems[|elems| - 1]) == b then [elems[|elems| - 1]] else []
  }

  lemma {:induction false} InBinHas<E>(elems: seq<E>, binOf: E -> nat, b: nat, e: E)
    ensures e in InBin(elems, binOf, b) <==> e in elems && binOf(e) == b
  {
    if elems != [] {
      var init, x := elems[..|elems| - 1], elems[|elems| - 1];
      assert elems == init + [x];
      InBinHas(init, binOf, b, e);
    }
  }

  method HashInputs<E>(elems: seq<E>, binOf: E -> nat, numBins: nat) returns (bins: seq<seq<E>>)
    requires forall e :: e in elems ==> binOf(e) < numBins
    ensures |bins| == numBins && forall b :: 0 <= b < numBins ==> bins[b] == InBin(elems, binOf, b)
  {
    bins := seq(numBins, _ => []);
    for i := 0 to |elems|
      invariant |bins| == numBins && forall b :: 0 <= b < numBins ==> bins[b] == InBin(elems[..i], binOf, b)
    {
      assert elems[..i + 1][..i] == elems[..i] && elems[i] in elems;
      var b := binOf(elems[i]);
      bins := bins[b := bins[b] + [elems[i]]];
    }
    assert elems[..|elems|] == elems;
  }

  // The part of a bin that has room in its slots, or among its points.
  function Shown<E>(bin: seq<E>): (s: seq<E>)
  {
    if |bin| < BIN then bin else bin[..BIN]
  }

  // A sender's bin cut or padded to its slots (resize and sort).
  function Slots<E(!new), K(!new)>(ideals: Ideals<E, K>, bin: seq<E>): (s: seq<E>)
    requires ideals.Good()
    ensures |s| == BIN
  {
    ideals.Arrange(Shown(bin) + seq(if |bin| < BIN then BIN - |bin| else 0, _ => ideals.bot))
  }

  // ----- One slot -----

  // What both sides hold: the sender's slots, the receiver's bins, its seeds and its random fill.
  datatype Run<E, K> = Run(slots: seq<seq<E>>, bins: seq<seq<E>>, seeds: seq<K>, fill: seq<seq<K>>)
  {
    ghost predicate Good()
    {
      && |slots| == |bins| && |seeds| == |fill| == BIN * |bins|
      && (forall b :: 0 <= b < |slots| ==> |slots[b]| == BIN) && forall g :: 0 <= g < |fill| ==> |fill[g]| == BIN
    }

    function Elem(g: nat): E
      requires |slots| == |bins| && g < BIN * |bins| && forall b :: 0 <= b < |slots| ==> |slots[b]| == BIN
    {
      slots[g / BIN][g % BIN]
    }
  }

  // The receiver's i-th point in slot g: an element of its bin, one mark, and random points.
  function PointAt<E(!new), K(!new)>(ideals: Ideals<E, K>, bin: seq<E>, fill: seq<K>, i: nat): K
    requires i < |fill|
  {
    if i < |bin| then ideals.Hash(bin[i]) else if i == |bin| then ideals.botKey else fill[i]
  }

  function Points<E(!new), K(!new)>(ideals: Ideals<E, K>, bin: seq<E>, fill: seq<K>): (xs: seq<K>)
    ensures |xs| == |fill|
  {
    seq(|fill|, i requires 0 <= i < |fill| => PointAt(ideals, bin, fill, i))
  }

  // The polynomial of a slot takes the masked seed at every point.
  ghost predicate Fits<E(!new), K(!new)>(ideals: Ideals<E, K>, run: Run<E, K>, g: nat, cs: seq<K>)
    requires run.Good() && g < BIN * |run.bins|
  {
    var xs := Points(ideals, run.bins[g / BIN], run.fill[g]);
    |cs| == BIN && forall i :: 0 <= i < BIN ==> Value(ideals.field, cs, xs[i]) == ideals.field.Add(ideals.Oprf(g,
        xs[i]), run.seeds[g])
  }

  // What the sender sends back for a slot.
  function Payload<E(!new), K(!new)>(ideals: Ideals<E, K>, g: nat, e: E, cs: seq<K>): K
  {
    ideals.field.Add(Value(ideals.field, cs, ideals.Hash(e)), ideals.Oprf(g, ideals.Hash(e)))
  }

  ghost predicate ChoiceOk<E(!new), K(!new)>(ideals: Ideals<E, K>, run: Run<E, K>, g: nat, choice: bool)
    requires run.Good() && g < BIN * |run.bins|
  {
    exists cs :: Fits(ideals, run, g, cs) && choice == (Payload(ideals, g, run.Elem(g), cs) == run.seeds[g])
  }

  // The receiver's points in a slot are distinct.
  ghost predicate Solvable<E(!new), K(!new)>(ideals: Ideals<E, K>, run: Run<E, K>)
    requires run.Good()
  {
    forall g :: 0 <= g < BIN * |run.bins| ==> Distinct(Points(ideals, run.bins[g / BIN], run.fill[g]))
  }

  // No element meets a point that is not its own hash in the receiver's bin, and no polynomial
  // hits the seed elsewhere by accident.
  ghost predicate NoAccident<E(!new), K(!new)>(ideals: Ideals<E, K>, run: Run<E, K>, g: nat)
    requires run.Good() && g < BIN * |run.bins|
  {
    var e, bin := run.Elem(g), run.bins[g / BIN];
    e != ideals.bot ==>
      && (forall i :: 0 <= i < BIN && PointAt(ideals, bin, run.fill[g], i) == ideals.Hash(e) ==>
          i < |bin| && bin[i] == e)
      && (ideals.Hash(e) !in Points(ideals, bin, run.fill[g]) ==>
            forall cs :: Fits(ideals, run, g, cs) ==> Payload(ideals, g, e, cs) != run.seeds[g])
  }

  /** The choice bit of a slot says whether the receiver's bin has the element (within the points
      that fit). */
  lemma ChoiceMeansShared<E(!new), K(!new)>(ideals: Ideals<E, K>, run: Run<E, K>, g: nat, choice: bool)
    requires ideals.Good() && run.Good() && g < BIN * |run.bins| && ChoiceOk(ideals, run, g, choice)
    requires run.Elem(g) != ideals.bot && NoAccident(ideals, run, g)
    ensures var bin := run.bins[g / BIN]; choice <==> run.Elem(g) in Shown(bin)
  {
    var e, bin, xs := run.Elem(g), run.bins[g / BIN], Points(ideals, run.bins[g / BIN], run.fill[g]);
    var shown := Shown(bin);
    var cs :| Fits(ideals, run, g, cs) && choice == (Payload(ideals, g, e, cs) == run.seeds[g]);
    if e in shown {
      var i :| 0 <= i < |shown| && shown[i] == e;
      assert xs[i] == ideals.Hash(e);
      Unmask(ideals.field, ideals.Oprf(g, xs[i]), run.seeds[g]);
    } else {
      forall i | 0 <= i < BIN ensures xs[i] != ideals.Hash(e) {
        if i < |shown| {
          assert shown[i] in shown && shown[i] == bin[i];
        }
      }
    }
  }

  lemma Unmask<K(!new)>(sp: Space<K, K>, f: K, seed: K)
    requires sp.IsSpace()
    ensures sp.Add(sp.Add(f, seed), f) == seed
  {
    assert sp.ScalarLaws(f, seed, f) && sp.ScalarLaws(seed, f, f) && sp.ScalarLaws(seed, sp.zero, f) &&
        sp.ScalarLaws(f, f, f);
  }

  // ----- Batches -----

  // The receiver's polynomials for nb bins from bin start on, one after the other.
  method Coefficients<E(!new), K(!new)>(ideals: Ideals<E, K>, run: Run<E, K>, start: nat, nb: nat)
    returns (payload: seq<K>)
    requires ideals.Good() && run.Good() && Solvable(ideals, run) && start + nb <= |run.bins|
    ensures |payload| == BIN * BIN * nb
    ensures forall l :: 0 <= l < BIN * nb ==> Fits(ideals, run, BIN * start + l, payload[BIN * l..BIN * l + BIN])
  {
    hide Fits;
    payload := [];
    var oprfIdx := BIN * start;
    for localBin := 0 to nb
      invariant oprfIdx == BIN * (start + localBin) && |payload| == BIN * BIN * localBin
      invariant forall l :: 0 <= l < BIN * localBin ==>
          Fits(ideals, run, BIN * start + l, payload[BIN * l..BIN * l + BIN])
    {
      for elemIdx := 0 to BIN
        invariant oprfIdx == BIN * (start + localBin) + elemIdx && |payload| == BIN * (BIN * localBin + elemIdx)
        invariant forall l :: 0 <= l < BIN * localBin + elemIdx ==>
            Fits(ideals, run, BIN * start + l, payload[BIN * l..BIN * l + BIN])
      {
        var cs := SlotPolynomial(ideals, run, oprfIdx);
        ghost var before := payload;
        payload := payload + cs;
        forall l | 0 <= l < BIN * localBin + elemIdx + 1
          ensures Fits(ideals, run, BIN * start + l, payload[BIN * l..BIN * l + BIN])
        {
          if l < BIN * localBin + elemIdx {
            assert payload[BIN * l..BIN * l + BIN] == before[BIN * l..BIN * l + BIN];
          } else {
            assert payload[BIN * l..BIN * l + BIN] == cs;
          }
        }
        oprfIdx := oprfIdx + 1;
      }
    }
  }

  // The polynomial of one slot.
  method SlotPolynomial<E(!new), K(!new)>(ideals: Ideals<E, K>, run: Run<E, K>, g: nat) returns (cs: seq<K>)
    requires ideals.Good() && run.Good() && Solvable(ideals, run) && g < BIN * |run.bins|
    ensures Fits(ideals, run, g, cs)
  {
    ghost var points := Points(ideals, run.bins[g / BIN], run.fill[g]);
    var xs, ys := [], [];
    for i := 0 to BIN
      invariant |xs| == |ys| == i && xs == points[..i]
      invariant forall j :: 0 <= j < i ==> ys[j] == ideals.field.Add(ideals.Oprf(g, points[j]), run.seeds[g])
    {
      var x := PointAt(ideals, run.bins[g / BIN], run.fill[g], i);
      xs, ys := xs + [x], ys + [ideals.field.Add(ideals.Oprf(g, x), run.seeds[g])];
    }
    assert xs == points;
    var coeffs := Interpolate(ideals.field, xs, ys);
    cs := coeffs[..];
  }

  // The sender's evaluations for a batch: the slots' elements, the OPRF values it encoded, and
  // the polynomials it received.
  method Evaluations<E(!new), K(!new)>(ideals: Ideals<E, K>, ghost run: Run<E, K>, elems: seq<E>, evals: seq<K>,
      payload: seq<K>, start: nat, nb: nat) returns (out: seq<K>)
    requires ideals.Good() && run.Good() && start + nb <= |run.bins| && |payload| == BIN * BIN * nb &&
        |evals| == BIN * nb
    requires |elems| == BIN * (start + nb) && forall g :: 0 <= g < |elems| ==> elems[g] == run.Elem(g)
    requires forall l :: 0 <= l < BIN * nb ==> evals[l] == ideals.Oprf(BIN * start + l,
        ideals.Hash(elems[BIN * start + l]))
    ensures |out| == BIN * nb
    ensures forall l :: 0 <= l < BIN * nb ==> out[l] == Payload(ideals, BIN * start + l, run.Elem(BIN * start + l),
        payload[BIN * l..BIN * l + BIN])
  {
    out := [];
    for l := 0 to BIN * nb
      invariant |out| == l
      invariant forall j :: 0 <= j < l ==> out[j] == Payload(ideals, BIN * start + j, run.Elem(BIN * start + j),
          payload[BIN * j..BIN * j + BIN])
    {
      var coeffs := payload[BIN * l..BIN * l + BIN];
      var cs := new K[BIN](i requires 0 <= i < BIN => coeffs[i]);
      assert cs[..] == coeffs;
      var y := Evaluate(ideals.field, cs, ideals.Hash(elems[BIN * start + l]));
      out := out + [ideals.field.Add(y, evals[l])];
    }
  }

  // The sender encodes the slots of a batch.
  method Encode<E(!new), K(!new)>(ideals: Ideals<E, K>, run: Run<E, K>, elems: seq<E>, start: nat, nb: nat)
    returns (elems': seq<E>, evals: seq<K>)
    requires run.Good() && start + nb <= |run.bins| && |elems| == BIN * start && forall g :: 0 <= g < |elems| ==>
        elems[g] == run.Elem(g)
    ensures |elems'| == BIN * (start + nb) && forall g :: 0 <= g < |elems'| ==> elems'[g] == run.Elem(g)
    ensures |evals| == BIN * nb && forall l :: 0 <= l < |evals| ==> evals[l] == ideals.Oprf(BIN * start + l,
        ideals.Hash(elems'[BIN * start + l]))
  {
    elems', evals := elems, [];
    var oprfIdx := BIN * start;
    for localBin := 0 to nb
      invariant oprfIdx == |elems'| == BIN * (start + localBin) && |evals| == BIN * localBin
      invariant forall g :: 0 <= g < |elems'| ==> elems'[g] == run.Elem(g)
      invariant forall l :: 0 <= l < |evals| ==> evals[l] == ideals.Oprf(BIN * start + l,
          ideals.Hash(elems'[BIN * start + l]))
    {
      var bin := run.slots[start + localBin];
      for elemIdx := 0 to BIN
        invariant oprfIdx == |elems'| == BIN * (start + localBin) + elemIdx && |evals| == BIN * localBin + elemIdx
        invariant forall g :: 0 <= g < |elems'| ==> elems'[g] == run.Elem(g)
        invariant forall l :: 0 <= l < |evals| ==> evals[l] == ideals.Oprf(BIN * start + l,
            ideals.Hash(elems'[BIN * start + l]))
      {
        assert oprfIdx / BIN == start + localBin && oprfIdx % BIN == elemIdx;
        elems' := elems' + [bin[elemIdx]];
        evals := evals + [ideals.Oprf(oprfIdx, ideals.Hash(bin[elemIdx]))];
        oprfIdx := oprfIdx + 1;
      }
    }
  }

  /** All batches, the last one possibly short: every choice bit belongs to its slot. */
  method Batches<E(!new), K(!new, ==)>(ideals: Ideals<E, K>, run: Run<E, K>) returns (elems: seq<E>, choices: seq<bool>)
    requires ideals.Good() && run.Good() && Solvable(ideals, run)
    ensures |elems| == |choices| == BIN * |run.bins|
    ensures forall g :: 0 <= g < |elems| ==> elems[g] == run.Elem(g) && ChoiceOk(ideals, run, g, choices[g])
  {
    hide Fits, Solvable;
    elems, choices := [], [];
    var binStart := 0;
    while binStart < |run.bins|
      invariant 0 <= binStart <= |run.bins| && |elems| == |choices| == BIN * binStart
      invariant forall g :: 0 <= g < |elems| ==> elems[g] == run.Elem(g) && ChoiceOk(ideals, run, g, choices[g])
      decreases |run.bins| - binStart
    {
      var nb := if BINS_PER_BATCH < |run.bins| - binStart then BINS_PER_BATCH else |run.bins| - binStart;
      var evals;
      elems, evals := Encode(ideals, run, elems, binStart, nb);
      var coeffs := Coefficients(ideals, run, binStart, nb);
      var answers := Evaluations(ideals, run, elems, evals, coeffs, binStart, nb);
      choices := Choose(ideals, run, choices, coeffs, answers, binStart, nb);
      binStart := binStart + nb;
    }
  }

  // The receiver's comparison of a batch with its seeds.
  method Choose<E(!new), K(!new, ==)>(ideals: Ideals<E, K>, run: Run<E, K>, choices: seq<bool>, ghost payload: seq<K>,
      answers: seq<K>, start: nat, nb: nat) returns (out: seq<bool>)
    requires run.Good() && start + nb <= |run.bins| && |choices| == BIN * start && |payload| == BIN * BIN * nb &&
        |answers| == BIN * nb
    requires forall g :: 0 <= g < |choices| ==> ChoiceOk(ideals, run, g, choices[g])
    requires forall l :: 0 <= l < BIN * nb ==> Fits(ideals, run, BIN * start + l, payload[BIN * l..BIN * l + BIN])
    requires forall l :: 0 <= l < BIN * nb ==> answers[l] == Payload(ideals, BIN * start + l,
        run.Elem(BIN * start + l), payload[BIN * l..BIN * l + BIN])
    ensures |out| == BIN * (start + nb) && forall g :: 0 <= g < |out| ==> ChoiceOk(ideals, run, g, out[g])
  {
    hide Fits;
    out := choices;
    for l := 0 to BIN * nb
      invariant |out| == BIN * start + l && forall g :: 0 <= g < |out| ==> ChoiceOk(ideals, run, g, out[g])
    {
      var choice := answers[l] == run.seeds[BIN * start + l];
      assert Fits(ideals, run, BIN * start + l, payload[BIN * l..BIN * l + BIN]);
      assert ChoiceOk(ideals, run, BIN * start + l, choice);
      out := out + [choice];
    }
  }

  // ----- The union -----

  // What the two sides bring into the batches.
  ghost function RunOf<E(!new), K(!new)>(ideals: Ideals<E, K>, send: seq<E>, recv: seq<E>, binOf: E -> nat,
      numBins: nat, seeds: seq<K>, fill: seq<seq<K>>): (run: Run<E, K>)
    requires ideals.Good()
    ensures |run.slots| == |run.bins| == numBins
  {
    Run(seq(numBins, b requires 0 <= b < numBins => Slots(ideals, InBin(send, binOf, b))),
        seq(numBins, b requires 0 <= b < numBins => InBin(recv, binOf, b)), seeds, fill)
  }

  // The elements that reach a slot.
  ghost function Kept<E(!new), K>(bot: E, run: Run<E, K>): set<E>
  {
    set b, i | 0 <= b < |run.slots| && 0 <= i < |run.slots[b]| && run.slots[b][i] != bot :: run.slots[b][i]
  }

  // The sender's part of the last step: elements masked by the first keys.
  method Mask<E(!new), K(!new)>(ideals: Ideals<E, K>, elems: seq<E>, keys: seq<(E, E)>) returns (ciphers: seq<E>)
    requires |keys| == |elems|
    ensures |ciphers| == |elems| && forall i :: 0 <= i < |elems| ==> ciphers[i] == ideals.blocks.Plus(elems[i],
        keys[i].0)
  {
    ciphers := [];
    for i := 0 to |elems|
      invariant |ciphers| == i && forall j :: 0 <= j < i ==> ciphers[j] == ideals.blocks.Plus(elems[j], keys[j].0)
    {
      ciphers := ciphers + [ideals.blocks.Plus(elems[i], keys[i].0)];
    }
  }

  // The receiver's part: it unmasks where its choice bit is off, and skips empty slots.
  method Collect<E(!new, ==), K(!new)>(ideals: Ideals<E, K>, recv: seq<E>, ghost elems: seq<E>, ciphers: seq<E>,
      chosen: seq<E>, choices: seq<bool>, ghost keys: seq<(E, E)>)
    returns (union: set<E>)
    requires ideals.Good() && |elems| == |ciphers| == |chosen| == |choices| == |keys|
    requires forall i :: 0 <= i < |elems| ==> ciphers[i] == ideals.blocks.Plus(elems[i], keys[i].0)
    requires forall i :: 0 <= i < |elems| ==> chosen[i] == if choices[i] then keys[i].1 else keys[i].0
    ensures forall e :: e in union <==>
      e in recv || exists g :: 0 <= g < |elems| && !choices[g] && elems[g] == e && e != ideals.bot
  {
    union := set e | e in recv;
    for i := 0 to |ciphers|
      invariant forall e :: e in union <==>
        e in recv || exists g :: 0 <= g < i && !choices[g] && elems[g] == e && e != ideals.bot
    {
      if !choices[i] {
        var e := ideals.blocks.Plus(ciphers[i], chosen[i]);
        UnmaskBlock(ideals.blocks, elems[i], keys[i].0);
        if e != ideals.bot {
          union := union + {e};
        }
      }
    }
  }

  lemma UnmaskBlock<E(!new)>(sp: Space<bool, E>, e: E, key: E)
    requires sp.IsSpace()
    ensures sp.Plus(sp.Plus(e, key), key) == e
  {
    assert sp.ValueLaws(e, key, key) && sp.ValueLaws(key, key, key) && sp.ValueLaws(e, e, e);
  }

  /** KrtwPsuSend with KrtwPsuRecv: the receiver gets its elements and all that reach the sender's
      slots, and through the transfers only elements its bins do not show. */
  method Union<E(!new, ==), K(!new, ==)>(ideals: Ideals<E, K>, send: seq<E>, recv: seq<E>, binOf: E -> nat,
      numBins: nat, seeds: seq<K>, fill: seq<seq<K>>, keys: seq<(E, E)>)
    returns (union: set<E>, ghost choices: seq<bool>)
    requires ideals.Good() && (forall e :: e in send || e in recv ==> binOf(e) < numBins)
    requires |keys| == BIN * numBins && RunOf(ideals, send, recv, binOf, numBins, seeds, fill).Good()
    requires Solvable(ideals, RunOf(ideals, send, recv, binOf, numBins, seeds, fill))
    requires forall g :: 0 <= g < BIN * numBins ==> NoAccident(ideals, RunOf(ideals, send, recv, binOf, numBins,
        seeds, fill), g)
    ensures union == Elements(recv) + Kept(ideals.bot, RunOf(ideals, send, recv, binOf, numBins, seeds, fill))
    ensures |send| + |recv| > 0 ==> |choices| == BIN * numBins
    ensures forall g :: 0 <= g < |choices| && !choices[g] ==>
      OnlyNew(ideals, RunOf(ideals, send, recv, binOf, numBins, seeds, fill), g)
  {
    hide Solvable, NoAccident, Fits, PointAt;
    choices := [];
    if |send| + |recv| == 0 {
      NothingKept(ideals, send, recv, binOf, numBins, seeds, fill);
      return {}, [];
    }
    var sBins := HashInputs(send, binOf, numBins);
    var rBins := HashInputs(recv, binOf, numBins);
    var slots := seq(numBins, b requires 0 <= b < |sBins| => Slots(ideals, sBins[b]));
    var run := Run(slots, rBins, seeds, fill);
    assert run == RunOf(ideals, send, recv, binOf, numBins, seeds, fill);
    var elems, bits := Batches(ideals, run);
    choices := bits;
    var ciphers := Mask(ideals, elems, keys);
    var chosen := seq(|keys|, i requires 0 <= i < |keys| &&
        |bits| == |keys| => if bits[i] then keys[i].1 else keys[i].0);
    union := Collect(ideals, recv, elems, ciphers, chosen, bits, keys);
    AllCollected(ideals, run, recv, binOf, elems, bits, union);
  }

  // An element received through a transfer is not one the receiver's bin shows.
  ghost predicate OnlyNew<E(!new), K(!new)>(ideals: Ideals<E, K>, run: Run<E, K>, g: nat)
    requires run.Good()
  {
    g < BIN * |run.bins| &&
    var bin := run.bins[g / BIN];
    run.Elem(g) != ideals.bot ==> run.Elem(g) !in Shown(bin)
  }

  lemma AllCollected<E(!new), K(!new)>(ideals: Ideals<E, K>, run: Run<E, K>, recv: seq<E>, binOf: E -> nat,
      elems: seq<E>, bits: seq<bool>, union: set<E>)
    requires ideals.Good() && run.Good() && |elems| == |bits| == BIN * |run.bins|
    requires forall b :: 0 <= b < |run.bins| ==> run.bins[b] == InBin(recv, binOf, b)
    requires forall g :: 0 <= g < |elems| ==>
      elems[g] == run.Elem(g) && ChoiceOk(ideals, run, g, bits[g]) && NoAccident(ideals, run, g)
    requires forall e :: e in union <==>
      e in recv || exists g :: 0 <= g < |elems| && !bits[g] && elems[g] == e && e != ideals.bot
    ensures union == Elements(recv) + Kept(ideals.bot, run)
    ensures forall g :: 0 <= g < |bits| && !bits[g] ==> OnlyNew(ideals, run, g)
  {
    hide Fits, NoAccident;
    forall g | 0 <= g < |bits| && elems[g] != ideals.bot
      ensures bits[g] ==> elems[g] in recv
      ensures !bits[g] ==> OnlyNew(ideals, run, g)
    {
      ChoiceMeansShared(ideals, run, g, bits[g]);
      InBinHas(recv, binOf, g / BIN, elems[g]);
    }
    forall e | e in Kept(ideals.bot, run) ensures e in union {
      var b, i :| 0 <= b < |run.slots| && 0 <= i < |run.slots[b]| && run.slots[b][i] == e;
      assert (BIN * b + i) / BIN == b && (BIN * b + i) % BIN == i;
      assert elems[BIN * b + i] == e;
    }
    forall e | e in union ensures e in Elements(recv) + Kept(ideals.bot, run) {
      if e !in recv {
        var g :| 0 <= g < |elems| && !bits[g] && elems[g] == e && e != ideals.bot;
        assert run.slots[g / BIN][g % BIN] == e;
      }
    }
  }

  lemma SlotsAre<E(!new), K(!new)>(ideals: Ideals<E, K>, bin: seq<E>, e: E)
    requires ideals.Good() && e != ideals.bot
    ensures e in Slots(ideals, bin) <==> e in Shown(bin)
  {
    var padding := seq(if |bin| < BIN then BIN - |bin| else 0, _ => ideals.bot);
    assert e in Shown(bin) + padding <==> e in Shown(bin) || e in padding;
  }

  lemma NothingKept<E(!new), K(!new)>(ideals: Ideals<E, K>, send: seq<E>, recv: seq<E>, binOf: E -> nat, numBins: nat,
      seeds: seq<K>, fill: seq<seq<K>>)
    requires ideals.Good() && send == [] && recv == []
    ensures Elements(recv) + Kept(ideals.bot, RunOf(ideals, send, recv, binOf, numBins, seeds, fill)) == {}
  {
    var run := RunOf(ideals, send, recv, binOf, numBins, seeds, fill);
    forall b, i | 0 <= b < |run.slots| && 0 <= i < |run.slots[b]| ensures run.slots[b][i] == ideals.bot {
      if run.slots[b][i] != ideals.bot {
        SlotsAre(ideals, InBin(send, binOf, b), run.slots[b][i]);
      }
    }
  }

  // An element reaches a slot exactly if its bin shows it.
  lemma KeptIfShown<E(!new), K(!new)>(ideals: Ideals<E, K>, send: seq<E>, binOf: E -> nat, numBins: nat,
      run: Run<E, K>, e: E)
    requires ideals.Good() && e != ideals.bot && |run.slots| == numBins
    requires forall b :: 0 <= b < numBins ==> run.slots[b] == Slots(ideals, InBin(send, binOf, b))
    ensures e in Kept(ideals.bot, run) <==> binOf(e) < numBins && e in Shown(InBin(send, binOf, binOf(e)))
    ensures e in Kept(ideals.bot, run) ==> e in send
  {
    if e in Kept(ideals.bot, run) {
      var b, i :| 0 <= b < |run.slots| && 0 <= i < |run.slots[b]| && run.slots[b][i] == e;
      SlotsAre(ideals, InBin(send, binOf, b), e);
      InBinHas(send, binOf, b, e);
    } else if binOf(e) < numBins {
      SlotsAre(ideals, InBin(send, binOf, binOf(e)), e);
    }
  }

  /** The union is complete exactly when the receiver holds every element that its sender's bin
      had no room for. */
  lemma UnionIsCompleteIff<E(!new), K(!new)>(ideals: Ideals<E, K>, send: seq<E>, recv: seq<E>, binOf: E -> nat,
      numBins: nat, seeds: seq<K>, fill: seq<seq<K>>)
    requires ideals.Good() && ideals.bot !in send && forall e :: e in send ==> binOf(e) < numBins
    ensures var kept := Kept(ideals.bot, RunOf(ideals, send, recv, binOf, numBins, seeds, fill));
      Elements(recv) + kept == Elements(recv) + Elements(send) <==>
      forall e :: e in send ==> e in recv || e in Shown(InBin(send, binOf, binOf(e)))
  {
    var run := RunOf(ideals, send, recv, binOf, numBins, seeds, fill);
    var kept := Kept(ideals.bot, run);
    forall e | e != ideals.bot
      ensures e in kept <==> binOf(e) < numBins && e in Shown(InBin(send, binOf, binOf(e)))
      ensures e in kept ==> e in send
    {
      KeptIfShown(ideals, send, binOf, numBins, run, e);
    }
    assert forall e :: e in Elements(recv) + kept ==> e in Elements(recv) + Elements(send);
    if forall e :: e in send ==> e in recv || e in Shown(InBin(send, binOf, binOf(e))) {
      assert forall e :: e in Elements(send) ==> e in Elements(recv) + kept;
    } else {
      var e :| e in send && e !in recv && e !in Shown(InBin(send, binOf, binOf(e)));
      assert e in Elements(send) && e !in Elements(recv) + kept;
    }
  }

  /** Bins of at most 64 lose nothing. */
  lemma SmallBinsComplete<E(!new), K(!new)>(ideals: Ideals<E, K>, send: seq<E>, recv: seq<E>, binOf: E -> nat,
      numBins: nat, seeds: seq<K>, fill: seq<seq<K>>)
    requires ideals.Good() && ideals.bot !in send && forall e :: e in send ==> binOf(e) < numBins
    requires forall b :: 0 <= b < numBins ==> |InBin(send, binOf, b)| <= 64
    ensures Elements(recv) + Kept(ideals.bot, RunOf(ideals, send, recv, binOf, numBins, seeds, fill)) ==
        Elements(recv) + Elements(send)
  {
    forall e | e in send ensures e in Shown(InBin(send, binOf, binOf(e))) {
      InBinHas(send, binOf, binOf(e), e);
    }
    UnionIsCompleteIff(ideals, send, recv, binOf, numBins, seeds, fill);
  }

  lemma {:induction false} OneBin<E>(elems: seq<E>)
    ensures InBin(elems, _ => 0, 0) == elems
  {
    if elems != [] {
      OneBin(elems[..|elems| - 1]);
      assert elems == elems[..|elems| - 1] + [elems[|elems| - 1]];
    }
  }

  /** A full bin: 64 elements of one bin all reach a receiver that has none. */
  lemma FullBinReaches<K(!new)>(ideals: Ideals<nat, K>, seeds: seq<K>, fill: seq<seq<K>>)
    requires ideals.Good() && ideals.bot == 0
    ensures var send := seq(64, i => i + 1);
      Elements([]) + Kept(ideals.bot, RunOf(ideals, send, [], _ => 0, 1, seeds, fill)) == Elements([]) + Elements(send)
  {
    var send: seq<nat> := seq(64, i => i + 1);
    var binOf: nat -> nat := _ => 0;
    OneBin(send);
    SmallBinsComplete(ideals, send, [], binOf, 1, seeds, fill);
  }

  /** An overfull bin does lose an element: 65 elements of one bin, and a receiver that has none. */
  lemma OverfullBinLoses<K(!new)>(ideals: Ideals<nat, K>, seeds: seq<K>, fill: seq<seq<K>>)
    requires ideals.Good() && ideals.bot == 0
    ensures var send := seq(65, i => i + 1);
      Elements([]) + Kept(ideals.bot, RunOf(ideals, send, [], _ => 0, 1, seeds, fill)) != Elements([]) + Elements(send)
  {
    var send: seq<nat> := seq(65, i => i + 1);
    var binOf: nat -> nat := _ => 0;
    OneBin(send);
    var e: nat := send[64];
    assert e in send && e !in send[..BIN];
    UnionIsCompleteIff(ideals, send, [], binOf, 1, seeds, fill);
  }
}
