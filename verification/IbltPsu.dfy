/** The two parties of the IBLT-based union and their peeling rounds (psu.cc, psu.h). Messages
    are values handed from one party's step to the other's. */
module IbltPsu {
  import opened Lists
  import opened Algebra
  import opened PeelingSpec
  import opened IbltTable
  import opened PsuSlots

  // psu.h: round 0 probes the whole table, and each peeled item can add all its bins.
  function MaxNumBinProbes(tabLen: nat, numHashes: nat, senderSize: nat, recvrSize: nat): nat
  {
    tabLen + (senderSize + recvrSize) * numHashes
  }

  class Sender<V(!new, ==)> {
    const sp: Space<bool, V>
    const id: Ideal<V>
    const h: Hashing<V>
    const iblt: Iblt<V>
    const items: seq<V>
    const recvChoices: seq<bool>
    const recvMsgs: seq<V>
    const sendPairs: seq<(V, V)>
    var pld: set<V>
    var marked: seq<bool>
    var roundPld: seq<V>
    var roundOwned: seq<V>
    var consumedRecv: nat
    var consumedSend: nat
    var drawn: nat

    constructor (sp: Space<bool, V>, id: Ideal<V>, h: Hashing<V>, items: seq<V>, recvChoices: seq<bool>,
        recvMsgs: seq<V>, sendPairs: seq<(V, V)>)
      requires sp.IsSpace() && h.Ok() && Distinct(items)
      ensures this.sp == sp && this.id == id && this.h == h && this.items == items
      ensures this.recvChoices == recvChoices && this.recvMsgs == recvMsgs && this.sendPairs == sendPairs
      ensures pld == {} && marked == seq(h.tabLen, _ => false) && consumedRecv == 0 && consumedSend == 0
      ensures fresh(iblt) && fresh(iblt.cnt) && fresh(iblt.sum) && fresh(iblt.seedSum)
      ensures iblt.Valid() && iblt.h == h && iblt.sp == sp && iblt.Holds(items, {})
    {
      this.sp, this.id, this.h, this.items := sp, id, h, items;
      this.recvChoices, this.recvMsgs, this.sendPairs := recvChoices, recvMsgs, sendPairs;
      pld, marked, roundPld, roundOwned := {}, seq(h.tabLen, _ => false), [], [];
      consumedRecv, consumedSend, drawn := 0, 0, 0;
      var table := new Iblt(h, sp);
      table.AddAll(items, [], false, id.oprf);
      iblt := table;
    }

    ghost predicate Base()
      reads this
    {
      && iblt.Valid() && iblt.h == h && iblt.sp == sp && h.Ok() && sp.IsSpace() && Distinct(items)
      && |marked| == h.tabLen
      && |recvChoices| == |recvMsgs|
    }

    // msk_cnt0_choice_bits: whether each probed bin is empty here, masked.
    method MaskChoices(probes: seq<nat>) returns (masked: seq<bool>)
      requires Base() && InTable(h, probes) && consumedRecv + |probes| <= |recvChoices|
      ensures |masked| == |probes|
      ensures forall i :: 0 <= i < |probes| ==>
        masked[i] == ((iblt.cnt[probes[i]] == 0) != recvChoices[i + consumedRecv])
    {
      masked := seq(|probes|, i requires 0 <= i < |probes| && InTable(h, probes) && Base() &&
          consumedRecv + |probes| <= |recvChoices| reads this, iblt.cnt =>
        (iblt.cnt[probes[i]] == 0) != recvChoices[i + consumedRecv]);
    }

    // Unmasks the receiver's answers.
    method Unmask(probes: seq<nat>, answers: seq<(V, V)>) returns (first: seq<V>)
      requires Base() && InTable(h, probes) && consumedRecv + |probes| <= |recvChoices| && |answers| == |probes|
      modifies this`consumedRecv
      ensures consumedRecv == old(consumedRecv) + |probes|
      ensures |first| == |probes|
      ensures forall i :: 0 <= i < |probes| ==>
        first[i] == sp.Plus(recvMsgs[i + old(consumedRecv)], Pick(answers[i], iblt.cnt[probes[i]] == 0))
    {
      first := [];
      for i := 0 to |probes|
        invariant |first| == i
        invariant forall q :: 0 <= q < i ==>
          first[q] == sp.Plus(recvMsgs[q + consumedRecv], Pick(answers[q], iblt.cnt[probes[q]] == 0))
      {
        first := first + [sp.Plus(recvMsgs[i + consumedRecv], Pick(answers[i], iblt.cnt[probes[i]] == 0))];
      }
      consumedRecv := consumedRecv + |probes|;
    }

    /** comp_u_vector_peel_round: every slot without a nameable item takes the next block of the
        random stream. */
    method CompUVector(probes: seq<nat>, first: seq<V>, round: nat) returns (uv: seq<V>, ghost noise: seq<nat>)
      requires Base() && InTable(h, probes) && |first| == |probes|
      modifies this`drawn
      ensures |uv| == |probes| == |noise|
      ensures drawn <= old(drawn) + |probes| && forall i :: 0 <= i < |noise| ==> noise[i] < old(drawn) + |probes|
      ensures forall i :: 0 <= i < |probes| ==>
        uv[i] == UEntry(sp, id, iblt.cnt[probes[i]], iblt.sum[probes[i]], first[i], round, probes[i],
            id.Random(noise[i]))
    {
      uv, noise := [], [];
      for i := 0 to |probes|
        invariant |uv| == i == |noise| && drawn <= old(drawn) + i
        invariant forall q :: 0 <= q < i ==> noise[q] < old(drawn) + |probes|
        invariant forall q :: 0 <= q < i ==>
          uv[q] == UEntry(sp, id, iblt.cnt[probes[q]], iblt.sum[probes[q]], first[q], round, probes[q],
              id.Random(noise[q]))
      {
        var idx := probes[i];
        noise := noise + [drawn];
        if iblt.cnt[idx] == 1 {
          uv := uv + [id.Enc(id.Oprf(iblt.sum[idx]), round, idx)];
        } else if first[i] != sp.nil {
          uv := uv + [id.Enc(id.Oprf(first[i]), round, idx)];
        } else {
          uv := uv + [id.Random(drawn)];
          drawn := drawn + 1;
        }
      }
    }

    // The sender's half of the second transfer.
    method MaskMessages(probes: seq<nat>, uv: seq<V>, choices: seq<bool>) returns (answers: seq<(V, V)>)
      requires Base() && InTable(h, probes) && |uv| == |probes| && |choices| == 2 * |probes|
      requires consumedSend + 2 * |probes| <= |sendPairs|
      modifies this`consumedSend
      ensures consumedSend == old(consumedSend) + 2 * |probes|
      ensures |answers| == |probes|
      ensures forall i :: 0 <= i < |probes| ==>
        answers[i] == MaskedAnswer(sp, CondSum(sp, iblt.cnt[probes[i]], iblt.sum[probes[i]]), uv[i],
                                   sendPairs[2 * i + old(consumedSend)], sendPairs[2 * i + 1 + old(consumedSend)],
                                   choices[2 * i], choices[2 * i + 1])
    {
      answers := [];
      for i := 0 to |probes|
        invariant |answers| == i
        invariant forall q :: 0 <= q < i ==>
          answers[q] == MaskedAnswer(sp, CondSum(sp, iblt.cnt[probes[q]], iblt.sum[probes[q]]), uv[q],
                                     sendPairs[2 * q + consumedSend], sendPairs[2 * q + 1 + consumedSend],
                                     choices[2 * q], choices[2 * q + 1])
      {
        var cond := if iblt.cnt[probes[i]] == 1 then iblt.sum[probes[i]] else sp.nil;
        answers := answers + [MaskedAnswer(sp, cond, uv[i],
                                           sendPairs[2 * i + consumedSend], sendPairs[2 * i + 1 + consumedSend],
                                           choices[2 * i], choices[2 * i + 1])];
      }
      consumedSend := consumedSend + 2 * |probes|;
    }

    // Takes over the bins the receiver found pure ...
    method AcceptBins(newBins: seq<nat>)
      requires Base() && InTable(h, newBins)
      modifies this`marked
      ensures |marked| == h.tabLen
      ensures forall b :: 0 <= b < h.tabLen ==> (marked[b] <==> old(marked[b]) || b in newBins)
    {
      for k := 0 to |newBins|
        invariant |marked| == h.tabLen
        invariant forall b :: 0 <= b < h.tabLen ==> (marked[b] <==> old(marked[b]) || b in newBins[..k])
      {
        marked := marked[newBins[k] := true];
        assert newBins[..k + 1] == newBins[..k] + [newBins[k]];
      }
      assert newBins[..|newBins|] == newBins;
    }

    // ... and the items it peeled.
    method AcceptItems(newItems: seq<V>)
      modifies this`pld, this`roundPld, this`roundOwned
      ensures pld == old(pld) + Elements(newItems) && roundPld == newItems
      ensures roundOwned == Common(newItems, items)
    {
      roundPld, roundOwned := newItems, [];
      assert Elements(newItems[..0]) == {};
      for k := 0 to |newItems|
        invariant pld == old(pld) + Elements(newItems[..k])
        invariant roundOwned == Common(newItems[..k], items)
        invariant roundPld == newItems
      {
        pld := pld + {newItems[k]};
        if newItems[k] in items {
          roundOwned := roundOwned + [newItems[k]];
        }
        assert newItems[..k + 1][..k] == newItems[..k];
        assert Elements(newItems[..k + 1]) == Elements(newItems[..k]) + {newItems[k]};
      }
      assert newItems[..|newItems|] == newItems;
    }
  }

  class Receiver<V(!new, ==)> {
    const sp: Space<bool, V>
    const id: Ideal<V>
    const h: Hashing<V>
    const iblt: Iblt<V>
    const items: seq<V>
    const sendPairs: seq<(V, V)>
    const recvChoices: seq<bool>
    const recvMsgs: seq<V>
    var pld: set<V>
    var marked: seq<bool>
    var roundPld: seq<V>
    var roundBins: seq<nat>
    var roundOwned: seq<V>
    var roundSeeds: seq<V>
    var consumedSend: nat
    var consumedRecv: nat

    constructor (sp: Space<bool, V>, id: Ideal<V>, h: Hashing<V>, items: seq<V>, sendPairs: seq<(V, V)>,
        recvChoices: seq<bool>, recvMsgs: seq<V>)
      requires sp.IsSpace() && h.Ok() && Distinct(items)
      ensures this.sp == sp && this.id == id && this.h == h && this.items == items
      ensures this.sendPairs == sendPairs && this.recvChoices == recvChoices && this.recvMsgs == recvMsgs
      ensures pld == {} && marked == seq(h.tabLen, _ => false) && consumedSend == 0 && consumedRecv == 0
      ensures fresh(iblt) && fresh(iblt.cnt) && fresh(iblt.sum) && fresh(iblt.seedSum)
      ensures iblt.Valid() && iblt.h == h && iblt.sp == sp
      ensures iblt.Holds(items, {}) && iblt.HoldsSeeds(items, id.oprf, {})
    {
      this.sp, this.id, this.h, this.items := sp, id, h, items;
      this.sendPairs, this.recvChoices, this.recvMsgs := sendPairs, recvChoices, recvMsgs;
      pld, marked, roundPld, roundBins, roundOwned, roundSeeds := {}, seq(h.tabLen, _ => false), [], [], [], [];
      consumedSend, consumedRecv := 0, 0;
      var table := new Iblt(h, sp);
      table.AddAll(items, SeedsOf(id.oprf, items), true, id.oprf);
      iblt := table;
    }

    ghost predicate Base()
      reads this
    {
      && iblt.Valid() && iblt.h == h && iblt.sp == sp && h.Ok() && sp.IsSpace() && Distinct(items)
      && |marked| == h.tabLen
      && |recvChoices| == |recvMsgs|
    }

    // Offers the only item of each probed bin under the sender's masked choices.
    method AnswerChoices(probes: seq<nat>, masked: seq<bool>) returns (answers: seq<(V, V)>)
      requires Base() && InTable(h, probes) && |masked| == |probes| && consumedSend + |probes| <= |sendPairs|
      modifies this`consumedSend
      ensures consumedSend == old(consumedSend) + |probes|
      ensures |answers| == |probes|
      ensures forall i :: 0 <= i < |probes| ==>
        answers[i] == OfferAnswer(sp, iblt.cnt[probes[i]], iblt.sum[probes[i]], sendPairs[i + old(consumedSend)],
            masked[i])
    {
      answers := [];
      for i := 0 to |probes|
        invariant |answers| == i
        invariant forall q :: 0 <= q < i ==>
          answers[q] == OfferAnswer(sp, iblt.cnt[probes[q]], iblt.sum[probes[q]], sendPairs[q + consumedSend],
              masked[q])
      {
        answers := answers + [OfferAnswer(sp, iblt.cnt[probes[i]], iblt.sum[probes[i]], sendPairs[i + consumedSend],
            masked[i])];
      }
      consumedSend := consumedSend + |probes|;
    }

    // Whether each probed bin holds one item here, and whether it holds more, masked.
    method MaskCounts(probes: seq<nat>) returns (choices: seq<bool>)
      requires Base() && InTable(h, probes) && consumedRecv + 2 * |probes| <= |recvChoices|
      ensures |choices| == 2 * |probes|
      ensures forall i :: 0 <= i < |probes| ==>
        && choices[2 * i] == ((iblt.cnt[probes[i]] == 1) != recvChoices[2 * i + consumedRecv])
        && choices[2 * i + 1] == ((iblt.cnt[probes[i]] > 1) != recvChoices[2 * i + 1 + consumedRecv])
    {
      choices := [];
      for i := 0 to |probes|
        invariant |choices| == 2 * i
        invariant forall q :: 0 <= q < i ==>
          && choices[2 * q] == ((iblt.cnt[probes[q]] == 1) != recvChoices[2 * q + consumedRecv])
          && choices[2 * q + 1] == ((iblt.cnt[probes[q]] > 1) != recvChoices[2 * q + 1 + consumedRecv])
      {
        choices := choices + [(iblt.cnt[probes[i]] == 1) != recvChoices[2 * i + consumedRecv],
                              (iblt.cnt[probes[i]] > 1) != recvChoices[2 * i + 1 + consumedRecv]];
      }
    }

    // The value delivered for probe i.
    ghost function Delivered(probes: seq<nat>, answers: seq<(V, V)>, i: nat): V
      requires Base() && InTable(h, probes) && |answers| == |probes| && i < |probes|
      requires consumedRecv + 2 * |probes| <= |recvChoices|
      reads this, iblt.cnt
    {
      sp.Plus(sp.Plus(Pick(answers[i], iblt.cnt[probes[i]] == 1), recvMsgs[2 * i + consumedRecv]),
          recvMsgs[2 * i + 1 + consumedRecv])
    }

    // What the receiver concludes from it.
    ghost function Conclusion(probes: seq<nat>, answers: seq<(V, V)>, round: nat, i: nat): Option<V>
      requires Base() && InTable(h, probes) && |answers| == |probes| && i < |probes|
      requires consumedRecv + 2 * |probes| <= |recvChoices|
      reads this, iblt.cnt, iblt.sum, iblt.seedSum
    {
      Verdict(sp, id, iblt.cnt[probes[i]], iblt.sum[probes[i]], iblt.seedSum[probes[i]], Delivered(probes, answers,
          i), round, probes[i])
    }

    // What the receiver has found after some probes of a round that began with union u, peeled
    // items pld0 and marked bins marked0.
    ghost predicate Found(u: set<V>, pld0: set<V>, marked0: seq<bool>, probed: seq<nat>)
      reads this
    {
      && FoundItems(u, pld0, probed) && FoundBins(u, marked0, probed) && FoundOwned()
      && InProbeOrder(h, u, roundPld, probed)
    }

    ghost predicate FoundItems(u: set<V>, pld0: set<V>, probed: seq<nat>)
      reads this
    {
      && pld == pld0 + Elements(roundPld) && Distinct(roundPld)
      && forall x :: x in roundPld <==> h.IsPeeled(u, probed, x)
    }

    ghost predicate FoundBins(u: set<V>, marked0: seq<bool>, probed: seq<nat>)
      reads this
    {
      && |marked| == |marked0| == h.tabLen
      && (forall b :: 0 <= b < h.tabLen ==> (marked[b] <==> marked0[b] || (b in probed && exists x :: h.Alone(u, b,
          x))))
      && forall b :: b in roundBins <==> 0 <= b < h.tabLen && marked[b] && !marked0[b]
    }

    ghost predicate FoundOwned()
      reads this
    {
      && Distinct(roundOwned) && Elements(roundOwned) == Elements(roundPld) * Elements(items)
      && roundSeeds == SeedsOf(id.oprf, roundOwned)
    }

    method MarkBin(b: nat, ghost u: set<V>, ghost marked0: seq<bool>, ghost probed: seq<nat>)
      requires b < h.tabLen && FoundBins(u, marked0, probed) && exists x :: h.Alone(u, b, x)
      modifies this`marked, this`roundBins
      ensures FoundBins(u, marked0, probed + [b])
    {
      if !marked[b] {
        marked := marked[b := true];
        roundBins := roundBins + [b];
      }
    }

    method PeelItem(x: V, owned: bool, seed: V, b: nat, ghost u: set<V>, ghost pld0: set<V>, ghost probed: seq<nat>)
      requires FoundItems(u, pld0, probed) && FoundOwned() && h.Alone(u, b, x) && x !in pld0
      requires InProbeOrder(h, u, roundPld, probed)
      requires (owned <==> x in items) && (owned ==> seed == id.Oprf(x))
      modifies this`pld, this`roundPld, this`roundOwned, this`roundSeeds
      ensures FoundItems(u, pld0, probed + [b]) && FoundOwned()
      ensures InProbeOrder(h, u, roundPld, probed + [b])
    {
      hide InProbeOrder;
      PeeledStep(h, u, probed, b, Some(x));
      OrderKept(h, u, roundPld, probed, b);
      if x !in pld {
        assert x !in roundPld;
        OrderGrows(h, u, roundPld, x, probed, b);
        pld := pld + {x};
        roundPld := roundPld + [x];
        assert Elements(roundPld) == Elements(old(roundPld)) + {x};
        if owned {
          assert x !in Elements(roundOwned);
          roundOwned := roundOwned + [x];
          roundSeeds := roundSeeds + [seed];
          assert Elements(roundOwned) == Elements(old(roundOwned)) + {x};
        }
      }
    }

    // The body of the loop over the probes.
    method ProcessProbe(b: nat, out: V, round: nat, ghost u: set<V>, ghost pld0: set<V>, ghost marked0: seq<bool>,
        ghost probed: seq<nat>)
      requires Base() && b < h.tabLen && Found(u, pld0, marked0, probed) && u !! pld0
      requires BinView(h, Elements(items) - pld0, b, iblt.cnt[b], iblt.sum[b])
      requires iblt.cnt[b] == 1 ==> iblt.seedSum[b] == id.Oprf(iblt.sum[b])
      requires forall x ::
        Verdict(sp, id, iblt.cnt[b], iblt.sum[b], iblt.seedSum[b], out, round, b) == Some(x) <==> h.Alone(u, b, x)
      modifies this`pld, this`marked, this`roundPld, this`roundBins, this`roundOwned, this`roundSeeds
      ensures Found(u, pld0, marked0, probed + [b])
    {
      hide InProbeOrder;
      var cnt := iblt.cnt[b];
      if cnt == 0 && out != sp.nil {
        assert h.Alone(u, b, out);
        MarkBin(b, u, marked0, probed);
        PeelItem(out, false, sp.nil, b, u, pld0, probed);
      } else if cnt == 1 && out == id.Enc(iblt.seedSum[b], round, b) {
        assert h.Alone(u, b, iblt.sum[b]);
        MarkBin(b, u, marked0, probed);
        PeelItem(iblt.sum[b], true, iblt.seedSum[b], b, u, pld0, probed);
      } else {
        PeeledStep(h, u, probed, b, None);
        OrderKept(h, u, roundPld, probed, b);
        assert FoundBins(u, marked0, probed + [b]);
      }
    }

    /** The receiver's part of a round: it finds exactly the items alone in a probed bin. */
    method Process(probes: seq<nat>, answers: seq<(V, V)>, round: nat, ghost u: set<V>)
      requires Base() && InTable(h, probes) && |answers| == |probes| && u !! pld
      requires consumedRecv + 2 * |probes| <= |recvChoices|
      requires forall i :: 0 <= i < |probes| ==> BinView(h, Elements(items) - pld, probes[i], iblt.cnt[probes[i]],
          iblt.sum[probes[i]])
      requires forall i :: 0 <= i < |probes| && iblt.cnt[probes[i]] == 1 ==>
          iblt.seedSum[probes[i]] == id.Oprf(iblt.sum[probes[i]])
      requires forall i, x :: 0 <= i < |probes| ==> (Conclusion(probes, answers, round, i) == Some(x) <==> h.Alone(u,
          probes[i], x))
      modifies this`pld, this`marked, this`roundPld, this`roundBins, this`roundOwned, this`roundSeeds, this`consumedRecv
      ensures Found(u, old(pld), old(marked), probes)
      ensures consumedRecv == old(consumedRecv) + 2 * |probes|
    {
      roundPld, roundBins, roundOwned, roundSeeds := [], [], [], [];
      ghost var pld0, marked0 := pld, marked;
      var i := 0;
      while i < |probes|
        invariant 0 <= i <= |probes| && Base() && consumedRecv == old(consumedRecv)
        invariant Found(u, pld0, marked0, probes[..i])
      {
        var b := probes[i];
        var out := sp.Plus(sp.Plus(Pick(answers[i], iblt.cnt[b] == 1), recvMsgs[2 * i + consumedRecv]),
            recvMsgs[2 * i + 1 + consumedRecv]);
        ProcessProbe(b, out, round, u, pld0, marked0, probes[..i]);
        assert probes[..i + 1] == probes[..i] + [b];
        i := i + 1;
      }
      assert probes[..i] == probes;
      consumedRecv := consumedRecv + 2 * |probes|;
    }
  }

  // The items are listed in the order in which the probes find them.
  ghost predicate InProbeOrder<V(!new)>(h: Hashing<V>, u: set<V>, items: seq<V>, probed: seq<nat>)
  {
    forall i, j :: 0 <= i < j < |items| ==> FoundBefore(h, u, items[i], items[j], probed)
  }

  // Some probe finds x, and none up to it finds y.
  ghost predicate FoundBefore<V(!new)>(h: Hashing<V>, u: set<V>, x: V, y: V, probed: seq<nat>)
  {
    exists k :: 0 <= k < |probed| && h.Alone(u, probed[k], x) && !h.IsPeeled(u, probed[..k + 1], y)
  }

  lemma BeforeKept<V(!new)>(h: Hashing<V>, u: set<V>, x: V, y: V, probed: seq<nat>, b: nat)
    requires FoundBefore(h, u, x, y, probed)
    ensures FoundBefore(h, u, x, y, probed + [b])
  {
    var k :| 0 <= k < |probed| && h.Alone(u, probed[k], x) && !h.IsPeeled(u, probed[..k + 1], y);
    assert (probed + [b])[..k + 1] == probed[..k + 1] && (probed + [b])[k] == probed[k];
  }

  lemma OrderKept<V(!new)>(h: Hashing<V>, u: set<V>, items: seq<V>, probed: seq<nat>, b: nat)
    requires InProbeOrder(h, u, items, probed)
    ensures InProbeOrder(h, u, items, probed + [b])
  {
    forall i, j | 0 <= i < j < |items| ensures FoundBefore(h, u, items[i], items[j], probed + [b]) {
      BeforeKept(h, u, items[i], items[j], probed, b);
    }
  }

  lemma PeeledInPrefix<V(!new)>(h: Hashing<V>, u: set<V>, probed: seq<nat>, n: nat, x: V)
    requires n <= |probed|
    ensures h.IsPeeled(u, probed[..n], x) ==> h.IsPeeled(u, probed, x)
  {
    if h.IsPeeled(u, probed[..n], x) {
      var l :| 0 <= l < n && h.Alone(u, probed[..n][l], x);
      assert probed[l] == probed[..n][l];
    }
  }

  lemma OrderGrows<V(!new)>(h: Hashing<V>, u: set<V>, items: seq<V>, x: V, probed: seq<nat>, b: nat)
    requires InProbeOrder(h, u, items, probed) && !h.IsPeeled(u, probed, x)
    requires forall y :: y in items ==> h.IsPeeled(u, probed, y)
    ensures InProbeOrder(h, u, items + [x], probed + [b])
  {
    OrderKept(h, u, items, probed, b);
    forall i | 0 <= i < |items| ensures FoundBefore(h, u, items[i], x, probed) {
      assert items[i] in items;
      var k :| 0 <= k < |probed| && h.Alone(u, probed[k], items[i]);
      PeeledInPrefix(h, u, probed, k + 1, x);
    }
    forall i, j | 0 <= i < j < |items| + 1
      ensures FoundBefore(h, u, (items + [x])[i], (items + [x])[j], probed + [b])
    {
      if j == |items| {
        BeforeKept(h, u, items[i], x, probed, b);
      }
    }
  }

  // One more probe: the only item of its bin, if any, joins the peeled items.
  lemma PeeledStep<V(!new)>(h: Hashing<V>, u: set<V>, probed: seq<nat>, b: nat, found: Option<V>)
    requires forall x :: found == Some(x) <==> h.Alone(u, b, x)
    ensures forall x :: h.IsPeeled(u, probed + [b], x) <==> h.IsPeeled(u, probed, x) || found == Some(x)
  {
    var all := probed + [b];
    forall x ensures h.IsPeeled(u, all, x) <==> h.IsPeeled(u, probed, x) || found == Some(x) {
      if h.IsPeeled(u, probed, x) {
        var k :| 0 <= k < |probed| && h.Alone(u, probed[k], x);
        assert all[k] == probed[k];
      }
      assert all[|probed|] == b;
    }
  }


  // The two messages of the first transfer for one bin.
  function OfferAnswer<V(!new)>(sp: Space<bool, V>, cnt: nat, sum: V, pair: (V, V), masked: bool): (V, V)
  {
    (Pick(pair, masked), sp.Plus(if cnt == 1 then sum else sp.nil, Pick(pair, !masked)))
  }

  ghost predicate InTable<V(!new)>(h: Hashing<V>, probes: seq<nat>)
  {
    forall i :: 0 <= i < |probes| ==> probes[i] < h.tabLen
  }

  // The two messages of the second transfer for one bin.
  function MaskedAnswer<V(!new)>(sp: Space<bool, V>, cond: V, u: V, pair: (V, V), pair': (V, V), choice: bool,
      choice': bool): (V, V)
  {
    (sp.Plus(sp.Plus(cond, Pick(pair, choice)), Pick(pair', choice')),
     sp.Plus(sp.Plus(u, Pick(pair, !choice)), Pick(pair', choice')))
  }

  // ----- Both parties together -----

  // Message i is the chosen one of pair i.
  ghost predicate Correlated<V(!new)>(pairs: seq<(V, V)>, choices: seq<bool>, msgs: seq<V>, n: nat)
  {
    |pairs| == |choices| == |msgs| == n && forall i :: 0 <= i < n ==> msgs[i] == Pick(pairs[i], choices[i])
  }

  // The sender's last message for one bin, traced back to both tables through the messages
  // before it.
  ghost predicate SlotMessages<V(!new)>(sp: Space<bool, V>, id: Ideal<V>, cntS: nat, sumS: V, cntR: nat, sumR: V,
      pair: (V, V), choice: bool, pairA: (V, V), choiceA: bool, pairB: (V, V), choiceB: bool, round: nat, b: nat,
      noise: V, answer: (V, V))
  {
    var offer := OfferAnswer(sp, cntR, sumR, pair, (cntS == 0) != choice);
    var first := sp.Plus(Pick(pair, choice), Pick(offer, cntS == 0));
    var u := UEntry(sp, id, cntS, sumS, first, round, b, noise);
    answer == MaskedAnswer(sp, CondSum(sp, cntS, sumS), u, pairA, pairB, (cntR == 1) != choiceA, (cntR > 1) != choiceB)
  }

  lemma SlotConclusion<V(!new)>(sp: Space<bool, V>, id: Ideal<V>, cntS: nat, sumS: V, cntR: nat, sumR: V, seedR: V,
      pair: (V, V), choice: bool, pairA: (V, V), choiceA: bool, pairB: (V, V), choiceB: bool, round: nat, b: nat,
      noise: V, answer: (V, V))
    requires sp.IsSpace() && (cntR == 1 ==> seedR == id.Oprf(sumR))
    requires SlotMessages(sp, id, cntS, sumS, cntR, sumR, pair, choice, pairA, choiceA, pairB, choiceB, round, b,
        noise, answer)
    ensures
      var out := sp.Plus(sp.Plus(Pick(answer, cntR == 1), Pick(pairA, choiceA)), Pick(pairB, choiceB));
      Verdict(sp, id, cntR, sumR, seedR, out, round, b)
        == ProbeOutcome(sp, id, cntS, sumS, cntR, sumR, if cntR == 1 then id.Oprf(sumR) else sp.nil, round, b, noise)
  {
    TransferOne(sp, pair, choice, cntS == 0, if cntR == 1 then sumR else sp.nil);
    var first := FirstOut(sp, cntS, cntR, sumR);
    var u := UEntry(sp, id, cntS, sumS, first, round, b, noise);
    TransferTwo(sp, pairA, pairB, choiceA, choiceB, cntR == 1, CondSum(sp, cntS, sumS), u);
  }

  // How many random blocks a run may draw: one for every probe.
  ghost function Draws<V(!new)>(h: Hashing<V>, all: set<V>): nat
  {
    h.tabLen + NUM_HASHES * |all|
  }

  // No accidental matches within the rounds, bins and random blocks of a run.
  ghost predicate Unambiguous<V(!new)>(id: Ideal<V>, h: Hashing<V>, all: set<V>)
  {
    id.NoAccidents(all, |all| + 1, h.tabLen, Draws(h, all))
  }

  lemma FewerItems<V(!new)>(id: Ideal<V>, h: Hashing<V>, all: set<V>, left: set<V>)
    requires Unambiguous(id, h, all) && left <= all
    ensures id.NoAccidents(left, |all| + 1, h.tabLen, Draws(h, all))
  {
  }

  // What both parties agree on between rounds.
  ghost predicate InSync<V(!new)>(s: Sender<V>, r: Receiver<V>, all: set<V>)
    reads s, r, s.iblt.cnt, s.iblt.sum, r.iblt.cnt, r.iblt.sum, r.iblt.seedSum
  {
    && s.Base() && r.Base() && s.sp == r.sp && s.id == r.id && s.h == r.h
    && all == Elements(s.items) + Elements(r.items) && s.sp.nil !in all && Unambiguous(s.id, s.h, all)
    && s.iblt.Holds(s.items, s.pld) && r.iblt.Holds(r.items, r.pld) && r.iblt.HoldsSeeds(r.items, r.id.oprf, r.pld)
    && s.pld == r.pld && s.pld <= all && s.marked == r.marked
  }

  // The random correlations match and both sides have used the same part of them.
  ghost predicate Supplied<V(!new)>(s: Sender<V>, r: Receiver<V>, budget: nat, used: nat)
    reads s, r
  {
    && Correlated(r.sendPairs, s.recvChoices, s.recvMsgs, budget)
    && Correlated(s.sendPairs, r.recvChoices, r.recvMsgs, 2 * budget)
    && s.consumedRecv == used == r.consumedSend && s.consumedSend == 2 * used == r.consumedRecv && s.drawn <= used
  }

  // No array of one party is an array of the other.
  ghost predicate Apart<V(!new)>(s: Sender<V>, r: Receiver<V>)
  {
    {s.iblt.cnt as object, s.iblt.sum as object, s.iblt.seedSum as object}
      !! {r.iblt.cnt as object, r.iblt.sum as object, r.iblt.seedSum as object}
  }

  // The answers to the probes are the result of an honest exchange.
  ghost predicate Answered<V(!new)>(s: Sender<V>, r: Receiver<V>, probes: seq<nat>, round: nat, used: nat,
      noise: seq<nat>, answers: seq<(V, V)>)
    requires s.Base() && r.Base() && s.h == r.h && InTable(s.h, probes) && |noise| == |probes| == |answers|
    requires used + |probes| <= |r.sendPairs| && used + |probes| <= |s.recvChoices|
    requires 2 * used + 2 * |probes| <= |s.sendPairs| && 2 * used + 2 * |probes| <= |r.recvChoices|
    reads s, r, s.iblt.cnt, s.iblt.sum, r.iblt.cnt, r.iblt.sum
  {
    forall i :: 0 <= i < |probes| ==>
      SlotMessages(s.sp, s.id, s.iblt.cnt[probes[i]], s.iblt.sum[probes[i]], r.iblt.cnt[probes[i]],
          r.iblt.sum[probes[i]],
        r.sendPairs[i + used], s.recvChoices[i + used],
        s.sendPairs[2 * i + 2 * used], r.recvChoices[2 * i + 2 * used],
        s.sendPairs[2 * i + 1 + 2 * used], r.recvChoices[2 * i + 1 + 2 * used], round, probes[i],
        s.id.Random(noise[i]), answers[i])
  }

  // What the sender has unmasked after the first transfer.
  ghost predicate FirstUnmasked<V(!new)>(s: Sender<V>, r: Receiver<V>, probes: seq<nat>, used: nat, first: seq<V>)
    requires s.Base() && r.Base() && s.h == r.h && InTable(s.h, probes) && |first| == |probes|
    requires used + |probes| <= |r.sendPairs| && used + |probes| <= |s.recvChoices|
    reads s, r, s.iblt.cnt, r.iblt.cnt, r.iblt.sum
  {
    forall i :: 0 <= i < |probes| ==>
      var empty := s.iblt.cnt[probes[i]] == 0;
      var offer := OfferAnswer(s.sp, r.iblt.cnt[probes[i]], r.iblt.sum[probes[i]], r.sendPairs[i + used],
          empty != s.recvChoices[i + used]);
      first[i] == s.sp.Plus(Pick(r.sendPairs[i + used], s.recvChoices[i + used]), Pick(offer, empty))
  }

  method FirstTransfer<V(!new, ==)>(s: Sender<V>, r: Receiver<V>, probes: seq<nat>, ghost budget: nat, ghost used: nat)
    returns (first: seq<V>)
    requires s.Base() && r.Base() && s.sp == r.sp && s.h == r.h && InTable(s.h, probes)
    requires Supplied(s, r, budget, used) && used + |probes| <= budget
    modifies s`consumedRecv, r`consumedSend
    ensures s.consumedRecv == used + |probes| == r.consumedSend
    ensures |first| == |probes| && FirstUnmasked(s, r, probes, used, first)
  {
    var masked := s.MaskChoices(probes);
    var offers := r.AnswerChoices(probes, masked);
    first := s.Unmask(probes, offers);
    forall i | 0 <= i < |probes|
      ensures s.recvMsgs[i + used] == Pick(r.sendPairs[i + used], s.recvChoices[i + used])
      ensures offers[i] == OfferAnswer(s.sp, r.iblt.cnt[probes[i]], r.iblt.sum[probes[i]], r.sendPairs[i + used],
        (s.iblt.cnt[probes[i]] == 0) != s.recvChoices[i + used])
    {
    }
  }

  method SecondTransfer<V(!new, ==)>(s: Sender<V>, r: Receiver<V>, probes: seq<nat>, round: nat, first: seq<V>,
      ghost used: nat)
    returns (answers: seq<(V, V)>, ghost noise: seq<nat>)
    requires s.Base() && r.Base() && s.sp == r.sp && s.h == r.h && InTable(s.h, probes) && |first| == |probes|
    requires used + |probes| <= |r.sendPairs| && used + |probes| <= |s.recvChoices|
    requires 2 * used + 2 * |probes| <= |s.sendPairs| && 2 * used + 2 * |probes| <= |r.recvChoices|
    requires FirstUnmasked(s, r, probes, used, first) && s.consumedSend == 2 * used == r.consumedRecv
    requires s.drawn <= used
    modifies s`consumedSend, s`drawn
    ensures s.consumedSend == 2 * (used + |probes|) && s.drawn <= used + |probes|
    ensures |noise| == |probes| == |answers| && forall i :: 0 <= i < |noise| ==> noise[i] < used + |probes|
    ensures Answered(s, r, probes, round, used, noise, answers)
  {
    hide UEntry, MaskedAnswer, OfferAnswer, CondSum;
    var uv;
    uv, noise := s.CompUVector(probes, first, round);
    var choices := r.MaskCounts(probes);
    answers := s.MaskMessages(probes, uv, choices);
    forall i | 0 <= i < |probes|
      ensures SlotMessages(s.sp, s.id, s.iblt.cnt[probes[i]], s.iblt.sum[probes[i]], r.iblt.cnt[probes[i]],
          r.iblt.sum[probes[i]],
        r.sendPairs[i + used], s.recvChoices[i + used],
        s.sendPairs[2 * i + 2 * used], r.recvChoices[2 * i + 2 * used],
        s.sendPairs[2 * i + 1 + 2 * used], r.recvChoices[2 * i + 1 + 2 * used], round, probes[i],
        s.id.Random(noise[i]), answers[i])
    {
      assert choices[2 * i] == ((r.iblt.cnt[probes[i]] == 1) != r.recvChoices[2 * i + 2 * used]);
      assert choices[2 * i + 1] == ((r.iblt.cnt[probes[i]] > 1) != r.recvChoices[2 * i + 1 + 2 * used]);
    }
  }

  // The messages up to the sender's last one.
  method SendMessages<V(!new, ==)>(s: Sender<V>, r: Receiver<V>, probes: seq<nat>, round: nat, ghost budget: nat,
      ghost used: nat)
    returns (answers: seq<(V, V)>, ghost noise: seq<nat>)
    requires s.Base() && r.Base() && s.sp == r.sp && s.h == r.h && InTable(s.h, probes)
    requires Supplied(s, r, budget, used) && used + |probes| <= budget
    modifies s`consumedRecv, s`consumedSend, s`drawn, r`consumedSend
    ensures s.consumedRecv == used + |probes| == r.consumedSend && s.consumedSend == 2 * (used + |probes|)
    ensures s.drawn <= used + |probes|
    ensures |noise| == |probes| == |answers| && forall i :: 0 <= i < |noise| ==> noise[i] < used + |probes|
    ensures Answered(s, r, probes, round, used, noise, answers)
  {
    var first := FirstTransfer(s, r, probes, budget, used);
    answers, noise := SecondTransfer(s, r, probes, round, first, used);
  }

  // What the receiver concludes from an honest answer.
  lemma ConclusionIsPure<V(!new)>(s: Sender<V>, r: Receiver<V>, probes: seq<nat>, round: nat, used: nat,
      noise: seq<nat>, answers: seq<(V, V)>, all: set<V>, i: nat, x: V)
    requires InSync(s, r, all) && InTable(s.h, probes) && |noise| == |probes| == |answers| && i < |probes|
    requires round <= |all| && noise[i] < Draws(s.h, all)
    requires used + |probes| <= |r.sendPairs| && used + |probes| <= |s.recvChoices|
    requires 2 * used + 2 * |probes| <= |s.sendPairs| && 2 * used + 2 * |probes| <= |r.recvChoices|
    requires Answered(s, r, probes, round, used, noise, answers) && r.consumedRecv == 2 * used
    requires r.recvMsgs[2 * i + 2 * used] == Pick(s.sendPairs[2 * i + 2 * used], r.recvChoices[2 * i + 2 * used])
    requires r.recvMsgs[2 * i + 1 + 2 * used] == Pick(s.sendPairs[2 * i + 1 + 2 * used],
        r.recvChoices[2 * i + 1 + 2 * used])
    ensures r.Conclusion(probes, answers, round, i) == Some(x) <==> r.h.Alone(all - r.pld, probes[i], x)
  {
    var b := probes[i];
    TableView(s.sp, s.h, s.items, s.id.oprf, s.pld, b);
    TableView(r.sp, r.h, r.items, r.id.oprf, r.pld, b);
    SlotConclusion(s.sp, s.id, s.iblt.cnt[b], s.iblt.sum[b], r.iblt.cnt[b], r.iblt.sum[b], r.iblt.seedSum[b],
      r.sendPairs[i + used], s.recvChoices[i + used],
      s.sendPairs[2 * i + 2 * used], r.recvChoices[2 * i + 2 * used],
      s.sendPairs[2 * i + 1 + 2 * used], r.recvChoices[2 * i + 1 + 2 * used], round, b,
      s.id.Random(noise[i]), answers[i]);
    assert all - r.pld == (Elements(s.items) - s.pld) + (Elements(r.items) - r.pld);
    FewerItems(s.id, s.h, all, all - r.pld);
    OutcomeIsPure(s.sp, s.id, s.h, Elements(s.items) - s.pld, Elements(r.items) - r.pld,
      s.iblt.cnt[b], s.iblt.sum[b], r.iblt.cnt[b], r.iblt.sum[b], round, b, noise[i], x, |all| + 1, Draws(s.h, all));
  }

  /** The messages of a round. Afterwards the receiver has found exactly the items alone in a
      probed bin of the remaining union. */
  method Exchange<V(!new, ==)>(s: Sender<V>, r: Receiver<V>, probes: seq<nat>, round: nat, ghost all: set<V>,
      ghost budget: nat, ghost used: nat)
    requires InSync(s, r, all) && Supplied(s, r, budget, used) && InTable(s.h, probes) && used + |probes| <= budget
    requires round <= |all| && used + |probes| <= Draws(s.h, all)
    modifies s`consumedRecv, s`consumedSend, s`drawn
    modifies r`consumedSend, r`consumedRecv, r`pld, r`marked, r`roundPld, r`roundBins, r`roundOwned, r`roundSeeds
    ensures Supplied(s, r, budget, used + |probes|)
    ensures r.Found(all - old(r.pld), old(r.pld), old(r.marked), probes)
  {
    var answers;
    ghost var noise;
    answers, noise := SendMessages(s, r, probes, round, budget, used);
    assert InSync(s, r, all);
    forall i | 0 <= i < |probes|
      ensures BinView(r.h, Elements(r.items) - r.pld, probes[i], r.iblt.cnt[probes[i]], r.iblt.sum[probes[i]])
      ensures r.iblt.cnt[probes[i]] == 1 ==> r.iblt.seedSum[probes[i]] == r.id.Oprf(r.iblt.sum[probes[i]])
    {
      TableView(r.sp, r.h, r.items, r.id.oprf, r.pld, probes[i]);
    }
    forall i, x | 0 <= i < |probes|
      ensures r.Conclusion(probes, answers, round, i) == Some(x) <==> r.h.Alone(all - r.pld, probes[i], x)
    {
      ConclusionIsPure(s, r, probes, round, used, noise, answers, all, i, x);
    }
    r.Process(probes, answers, round, all - r.pld);
  }

  // ----- The end of a round -----

  lemma {:induction false} SameTable<V(!new)>(sp: Space<bool, V>, h: Hashing<V>, items: seq<V>, vals: seq<V>,
      out: set<V>, out': set<V>, b: nat, n: nat)
    requires n <= |items| == |vals| && forall x :: x in items ==> (x in out <==> x in out')
    ensures Cnt(h, items, out, b, n) == Cnt(h, items, out', b, n)
    ensures Sum(sp, h, items, vals, out, b, n) == Sum(sp, h, items, vals, out', b, n)
  {
    if n > 0 {
      SameTable(sp, h, items, vals, out, out', b, n - 1);
      assert items[n - 1] in items;
    }
  }

  // Taking a party's own peeled items out leaves the table of its unpeeled items.
  method TakeOut<V(!new, ==)>(table: Iblt<V>, owned: seq<V>, seeds: seq<V>, withSeed: bool, ghost items: seq<V>,
      ghost seedOf: V -> V, ghost pld: set<V>, ghost newItems: seq<V>)
    requires table.Valid() && table.Holds(items, pld) && (withSeed ==> table.HoldsSeeds(items, seedOf, pld))
    requires Distinct(owned) && Elements(owned) == Elements(items) * Elements(newItems) && Elements(newItems) !! pld
    requires withSeed ==> seeds == SeedsOf(seedOf, owned)
    modifies table.cnt, table.sum, table.seedSum
    ensures table.Holds(items, pld + Elements(newItems))
    ensures withSeed ==> table.HoldsSeeds(items, seedOf, pld + Elements(newItems))
  {
    forall x | x in owned ensures x in items && x !in pld {
      assert x in Elements(owned);
    }
    table.RemoveAll(owned, seeds, withSeed, items, seedOf, pld);
    forall x | x in items ensures x in pld + Elements(owned) <==> x in pld + Elements(newItems) {
      assert x in Elements(items);
      assert x in Elements(newItems) <==> x in Elements(owned);
    }
    forall b | 0 <= b < table.h.tabLen
      ensures Cnt(table.h, items, pld + Elements(owned), b, |items|) == Cnt(table.h, items, pld + Elements(newItems),
          b, |items|)
      ensures Sum(table.sp, table.h, items, items, pld + Elements(owned), b, |items|) == Sum(table.sp, table.h, items,
          items, pld + Elements(newItems), b, |items|)
      ensures Sum(table.sp, table.h, items, SeedsOf(seedOf, items), pld + Elements(owned), b, |items|)
           == Sum(table.sp, table.h, items, SeedsOf(seedOf, items), pld + Elements(newItems), b, |items|)
    {
      SameTable(table.sp, table.h, items, items, pld + Elements(owned), pld + Elements(newItems), b, |items|);
      SameTable(table.sp, table.h, items, SeedsOf(seedOf, items), pld + Elements(owned), pld + Elements(newItems), b,
          |items|);
    }
  }

  // The receiver has found the round's items; the sender takes them over and both update
  // their tables.
  method Settle<V(!new, ==)>(s: Sender<V>, r: Receiver<V>, ghost probes: seq<nat>, ghost all: set<V>,
      ghost pld0: set<V>, ghost marked0: seq<bool>)
    requires s.Base() && r.Base() && s.sp == r.sp && s.id == r.id && s.h == r.h && Apart(s, r)
    requires all == Elements(s.items) + Elements(r.items) && s.sp.nil !in all && Unambiguous(s.id, s.h, all)
    requires s.iblt.Holds(s.items, pld0) && r.iblt.Holds(r.items, pld0) && r.iblt.HoldsSeeds(r.items, r.id.oprf, pld0)
    requires s.pld == pld0 <= all && s.marked == marked0
    requires r.Found(all - pld0, pld0, marked0, probes)
    modifies s`pld, s`marked, s`roundPld, s`roundOwned, s.iblt.cnt, s.iblt.sum, s.iblt.seedSum
    modifies r.iblt.cnt, r.iblt.sum, r.iblt.seedSum
    ensures InSync(s, r, all) && s.roundPld == r.roundPld
    ensures r.Found(all - pld0, pld0, marked0, probes)
  {
    PeeledInUnion(r.h, all - pld0, probes, r.roundPld);
    forall i | 0 <= i < |r.roundBins| ensures r.roundBins[i] < s.h.tabLen {
      assert r.roundBins[i] in r.roundBins;
    }
    s.AcceptBins(r.roundBins);
    s.AcceptItems(r.roundPld);
    assert s.marked == r.marked;
    CommonMeaning(r.roundPld, s.items);
    TakeOut(s.iblt, s.roundOwned, [], false, s.items, s.id.oprf, pld0, r.roundPld);
    assert Elements(r.roundOwned) == Elements(r.items) * Elements(r.roundPld);
    TakeOut(r.iblt, r.roundOwned, r.roundSeeds, true, r.items, r.id.oprf, pld0, r.roundPld);
  }

  lemma PeeledInUnion<V(!new)>(h: Hashing<V>, u: set<V>, probes: seq<nat>, list: seq<V>)
    requires forall x :: x in list <==> h.IsPeeled(u, probes, x)
    ensures Elements(list) <= u
  {
    forall x | x in list ensures x in u {
      var k :| 0 <= k < |probes| && h.Alone(u, probes[k], x);
    }
  }

  // The messages of a round, and both tables brought up to date.
  method Meet<V(!new, ==)>(s: Sender<V>, r: Receiver<V>, probes: seq<nat>, round: nat, ghost all: set<V>,
      ghost budget: nat, ghost used: nat)
    requires InSync(s, r, all) && Supplied(s, r, budget, used) && Apart(s, r)
    requires InTable(s.h, probes) && used + |probes| <= budget
    requires round <= |all| && used + |probes| <= Draws(s.h, all)
    modifies s, r, s.iblt.cnt, s.iblt.sum, s.iblt.seedSum, r.iblt.cnt, r.iblt.sum, r.iblt.seedSum
    ensures InSync(s, r, all) && Supplied(s, r, budget, used + |probes|) && s.roundPld == r.roundPld
    ensures r.Found(all - old(s.pld), old(s.pld), old(s.marked), probes)
  {
    hide Correlated, Iblt.Holds, Iblt.HoldsSeeds;
    ghost var pld0, marked0 := s.pld, s.marked;
    Exchange(s, r, probes, round, all, budget, used);
    Settle(s, r, probes, all, pld0, marked0);
  }

  /** One whole round. Both parties end it with the same items, the same marked bins and the
      same probes for the next round. */
  method Round<V(!new, ==)>(s: Sender<V>, r: Receiver<V>, probes: seq<nat>, round: nat, ghost all: set<V>,
      ghost budget: nat, ghost used: nat)
    returns (probes': seq<nat>)
    requires InSync(s, r, all) && Supplied(s, r, budget, used) && Apart(s, r)
    requires InTable(s.h, probes) && used + |probes| <= budget
    requires round <= |all| && used + |probes| <= Draws(s.h, all)
    requires s.h.RoundInv(all, all - s.pld, probes, s.marked)
    modifies s, r, s.iblt.cnt, s.iblt.sum, s.iblt.seedSum, r.iblt.cnt, r.iblt.sum, r.iblt.seedSum
    ensures InSync(s, r, all) && Supplied(s, r, budget, used + |probes|) && InTable(s.h, probes')
    ensures s.h.RoundInv(all, all - s.pld, probes', s.marked)
    ensures old(s.pld) <= s.pld && |s.pld| == |old(s.pld)| + |r.roundPld| && |probes'| <= NUM_HASHES * |r.roundPld|
  {
    SyncBase(s, r, all);
    hide InSync, Supplied, Apart, Receiver.Found;
    ghost var pld0, marked0 := s.pld, s.marked;
    Meet(s, r, probes, round, all, budget, used);
    SyncBase(s, r, all);
    probes' := ChooseProbes(s, r);
    RoundAdvances(s, r, all, pld0, marked0, probes, probes');
  }

  lemma SyncBase<V(!new)>(s: Sender<V>, r: Receiver<V>, all: set<V>)
    requires InSync(s, r, all)
    ensures s.Base() && r.Base() && s.h == r.h && s.marked == r.marked
  {
  }

  lemma RoundAdvances<V(!new)>(s: Sender<V>, r: Receiver<V>, all: set<V>, pld0: set<V>, marked0: seq<bool>,
      probes: seq<nat>, probes': seq<nat>)
    requires InSync(s, r, all) && r.Found(all - pld0, pld0, marked0, probes)
    requires s.h.RoundInv(all, all - pld0, probes, marked0)
    requires forall i :: 0 <= i < |r.roundPld| ==> s.h.OkFor(r.roundPld[i])
    requires probes' == UniqueEvals(s.h, s.marked, r.roundPld)
    ensures InTable(s.h, probes') && s.h.RoundInv(all, all - s.pld, probes', s.marked)
    ensures pld0 <= s.pld && |s.pld| == |pld0| + |r.roundPld| && |probes'| <= NUM_HASHES * |r.roundPld|
  {
    hide Iblt.Holds, Iblt.HoldsSeeds;
    Advance(s.h, all, pld0, s.pld, probes, marked0, s.marked, r.roundPld, probes');
  }

  // Both parties compute the next probes from what they agreed on.
  method ChooseProbes<V(!new, ==)>(s: Sender<V>, r: Receiver<V>) returns (probes: seq<nat>)
    requires s.Base() && r.Base() && s.h == r.h && s.roundPld == r.roundPld && s.marked == r.marked
    ensures (forall i :: 0 <= i < |r.roundPld| ==> s.h.OkFor(r.roundPld[i])) && probes == UniqueEvals(s.h, s.marked,
        r.roundPld)
  {
    probes := s.iblt.UniqueHashEvals(s.roundPld, s.marked);
    var probesR := r.iblt.UniqueHashEvals(r.roundPld, r.marked);
    assert probes == probesR;
  }

  // The round as plain set peeling.
  lemma Advance<V(!new)>(h: Hashing<V>, all: set<V>, pld0: set<V>, pld: set<V>, probes: seq<nat>, marked0: seq<bool>,
      marked: seq<bool>, list: seq<V>, probes': seq<nat>)
    requires h.Ok() && h.RoundInv(all, all - pld0, probes, marked0) && |marked| == h.tabLen
    requires pld == pld0 + Elements(list) && Distinct(list)
    requires forall x :: x in list <==> h.IsPeeled(all - pld0, probes, x)
    requires forall b :: 0 <= b < h.tabLen ==>
        (marked[b] <==> marked0[b] || (b in probes && exists x :: h.Alone(all - pld0, b, x)))
    requires (forall i :: 0 <= i < |list| ==> h.OkFor(list[i])) && probes' == UniqueEvals(h, marked, list)
    ensures InTable(h, probes') && h.RoundInv(all, all - pld, probes', marked)
    ensures |pld| == |pld0| + |list| && |probes'| <= NUM_HASHES * |list|
  {
    UniqueEvalsMeaning(h, marked, list);
    PeeledInUnion(h, all - pld0, probes, list);
    ElementsSize(list);
    assert all - pld == (all - pld0) - Elements(list);
    NextProbes(h, list, marked, probes');
    h.RoundStep(all, all - pld0, probes, marked0, Elements(list), probes', marked);
  }

  lemma NextProbes<V(!new)>(h: Hashing<V>, items: seq<V>, marked: seq<bool>, probes: seq<nat>)
    requires |marked| == h.tabLen
    requires forall b :: b in probes <==>
      0 <= b < h.tabLen && !marked[b] && exists i :: 0 <= i < |items| && b in h.Bins(items[i])
    ensures InTable(h, probes)
    ensures forall b: nat, x :: x in Elements(items) && b in h.Bins(x) && b < h.tabLen && !marked[b] ==> b in probes
  {
    forall i | 0 <= i < |probes| ensures probes[i] < h.tabLen {
      assert probes[i] in probes;
    }
    forall b: nat, x | x in Elements(items) && b in h.Bins(x) && b < h.tabLen && !marked[b] ensures b in probes {
      var i :| 0 <= i < |items| && items[i] == x;
    }
  }

  // ----- A whole run -----

  // What holds before every round.
  ghost predicate Running<V(!new)>(s: Sender<V>, r: Receiver<V>, all: set<V>, budget: nat, used: nat, probes: seq<nat>)
    reads s, r, s.iblt.cnt, s.iblt.sum, r.iblt.cnt, r.iblt.sum, r.iblt.seedSum
  {
    && InSync(s, r, all) && Supplied(s, r, budget, used) && Apart(s, r) && InTable(s.h, probes)
    && s.h.RoundInv(all, all - s.pld, probes, s.marked)
    && used + |probes| <= s.h.tabLen + NUM_HASHES * |s.pld|
  }

  // What both sides prepare is enough.
  lemma PreparedSuffices(tabLen: nat, m: nat, n: nat)
    ensures MaxNumBinProbes(tabLen, NUM_HASHES, m, n) == tabLen + 5 * (m + n)
  {
  }

  lemma WithinBudget<V(!new)>(s: Sender<V>, r: Receiver<V>, all: set<V>, budget: nat, used: nat, probes: seq<nat>)
    requires Running(s, r, all, budget, used, probes)
    requires s.h.tabLen + 5 * (|s.items| + |r.items|) <= budget
    ensures used + |probes| <= budget
  {
    ElementsSize(s.items);
    ElementsSize(r.items);
    assert |all| <= |s.items| + |r.items|;
    SubsetSize(s.pld, all);
  }

  /** Sender::send and Receiver::recv in lockstep: both parties end with the same peeled items,
      and what they could not peel is the largest subset of the union without a pure bin. The
      probes of all rounds stay within the correlations both sides prepared, and every round
      but the last peels something. */
  method Run<V(!new, ==)>(s: Sender<V>, r: Receiver<V>, ghost all: set<V>, ghost budget: nat)
    returns (rounds: nat, ghost used: nat)
    requires InSync(s, r, all) && Supplied(s, r, budget, 0) && Apart(s, r)
    requires s.pld == {} && s.marked == seq(s.h.tabLen, _ => false)
    requires s.h.tabLen + 5 * (|s.items| + |r.items|) <= budget
    modifies s, r, s.iblt.cnt, s.iblt.sum, s.iblt.seedSum, r.iblt.cnt, r.iblt.sum, r.iblt.seedSum
    ensures s.pld == r.pld && s.pld <= all && s.h.IsCore(all, all - s.pld)
    ensures InSync(s, r, all) && Supplied(s, r, budget, used)
    ensures used <= s.h.tabLen + NUM_HASHES * |s.pld| <= budget
    ensures rounds <= |s.pld| + 1
  {
    var probes: seq<nat> := seq(s.h.tabLen, i => i);
    used := 0;
    StartRun(s, r, all, budget, probes);
    rounds := 0;
    while |probes| > 0
      invariant Running(s, r, all, budget, used, probes)
      invariant rounds <= |s.pld| + if |probes| > 0 then 0 else 1
      decreases |all - s.pld|, |probes|
    {
      probes, used := NextRound(s, r, probes, rounds, all, budget, used);
      rounds := rounds + 1;
    }
    EndRun(s, r, all, budget, used, probes);
  }

  method NextRound<V(!new, ==)>(s: Sender<V>, r: Receiver<V>, probes: seq<nat>, round: nat, ghost all: set<V>,
      ghost budget: nat, ghost used: nat)
    returns (probes': seq<nat>, ghost used': nat)
    requires Running(s, r, all, budget, used, probes) && round <= |s.pld|
    requires s.h.tabLen + 5 * (|s.items| + |r.items|) <= budget
    modifies s, r, s.iblt.cnt, s.iblt.sum, s.iblt.seedSum, r.iblt.cnt, r.iblt.sum, r.iblt.seedSum
    ensures Running(s, r, all, budget, used', probes')
    ensures if |probes'| > 0
      then |old(s.pld)| < |s.pld| && |all - s.pld| < |all - old(s.pld)|
      else |old(s.pld)| <= |s.pld| && |all - s.pld| <= |all - old(s.pld)|
  {
    ghost var before := s.pld;
    SubsetSize(s.pld, all);
    WithinBudget(s, r, all, budget, used, probes);
    probes' := Round(s, r, probes, round, all, budget, used);
    used' := used + |probes|;
    Shrinks(all, before, s.pld);
  }

  lemma EndRun<V(!new)>(s: Sender<V>, r: Receiver<V>, all: set<V>, budget: nat, used: nat, probes: seq<nat>)
    requires Running(s, r, all, budget, used, probes) && |probes| == 0
    requires s.h.tabLen + 5 * (|s.items| + |r.items|) <= budget
    ensures s.h.IsCore(all, all - s.pld)
    ensures used <= s.h.tabLen + NUM_HASHES * |s.pld| <= budget
  {
    assert probes == [];
    s.h.RoundsEnd(all, all - s.pld, s.marked);
    ElementsSize(s.items);
    ElementsSize(r.items);
    assert |all| <= |s.items| + |r.items|;
    SubsetSize(s.pld, all);
  }

  lemma StartRun<V(!new)>(s: Sender<V>, r: Receiver<V>, all: set<V>, budget: nat, probes: seq<nat>)
    requires InSync(s, r, all) && Supplied(s, r, budget, 0) && Apart(s, r)
    requires s.pld == {} && s.marked == seq(s.h.tabLen, _ => false)
    requires probes == seq(s.h.tabLen, i => i)
    ensures Running(s, r, all, budget, 0, probes)
  {
    forall b: nat | b < s.h.tabLen ensures b in probes {
      assert probes[b] == b;
    }
    s.h.RoundInvInitially(all, probes, s.marked);
    assert all - s.pld == all;
  }

  lemma Shrinks<V(!new)>(all: set<V>, a: set<V>, b: set<V>)
    requires a <= b <= all
    ensures |all - b| + |b| == |all| == |all - a| + |a|
  {
    assert all == (all - b) + b && all == (all - a) + a;
  }
}
