/** One probed bin in one round: the two masked transfers and what they reveal (psu.cc). */
module PsuSlots {
  import opened Lists
  import opened Algebra
  import opened PeelingSpec
  import opened IbltTable

  // The ideal building blocks: the oblivious PRF that gives an item its seed, the block cipher
  // keyed by a seed on (round, bin), and the n-th block of the sender's random stream.
  datatype Ideal<!V(!new)> = Ideal(oprf: V -> V, enc: (V, nat, nat) -> V, random: nat -> V)
  {
    function Oprf(x: V): V { oprf(x) }

    function Enc(k: V, round: nat, b: nat): V { enc(k, round, b) }

    function Random(n: nat): V { random(n) }

    // No accidental matches among these items, in the given numbers of rounds, bins and random
    // blocks.
    ghost predicate NoAccidents(all: set<V>, rounds: nat, bins: nat, draws: nat)
    {
      && (forall x, y, round: nat, b: nat ::
            x in all && y in all && x != y && round < rounds && b < bins ==>
              Enc(Oprf(x), round, b) != Enc(Oprf(y), round, b))
      && (forall x, round: nat, b: nat, n: nat ::
            x in all && round < rounds && b < bins && n < draws ==> Enc(Oprf(x), round, b) != Random(n))
    }
  }

  // ----- Oblivious transfer from a random correlation -----

  function Pick<T>(pair: (T, T), choice: bool): T
  {
    if choice then pair.1 else pair.0
  }

  // The chooser masks its wish with a random choice bit; the other side answers under the
  // random pair; the chooser unmasks with the message it holds.
  lemma TransferOne<V(!new)>(sp: Space<bool, V>, pair: (V, V), choice: bool, wish: bool, v: V)
    requires sp.IsSpace()
    ensures var masked := wish != choice;
            var answer := (Pick(pair, masked), sp.Plus(v, Pick(pair, !masked)));
            sp.Plus(Pick(pair, choice), Pick(answer, wish)) == if wish then v else sp.nil
  {
    var r := Pick(pair, choice);
    assert sp.ValueLaws(v, r, r) && sp.ValueLaws(r, sp.Plus(v, r), r) && sp.ValueLaws(v, sp.nil, v) &&
        sp.ValueLaws(r, r, r);
  }

  // The second transfer uses two correlations per bin: one for the choice, and one whose mask
  // only cancels when the count is at most one.
  lemma TransferTwo<V(!new)>(sp: Space<bool, V>, pair: (V, V), pair': (V, V), choice: bool, choice': bool, wish: bool,
      v0: V, v1: V)
    requires sp.IsSpace()
    ensures var masked := wish != choice;
            var answer := (sp.Plus(sp.Plus(v0, Pick(pair, masked)), Pick(pair', choice')),
                           sp.Plus(sp.Plus(v1, Pick(pair, !masked)), Pick(pair', choice')));
            sp.Plus(sp.Plus(Pick(answer, wish), Pick(pair, choice)), Pick(pair', choice')) == if wish then v1 else v0
  {
    var r, s, v := Pick(pair, choice), Pick(pair', choice'), if wish then v1 else v0;
    var x := sp.Plus(v, r);
    assert sp.ValueLaws(x, s, r) && sp.ValueLaws(s, r, s) && sp.ValueLaws(x, r, s) && sp.ValueLaws(sp.Plus(x, r), s, s);
    assert sp.ValueLaws(v, r, r) && sp.ValueLaws(v, sp.nil, v) && sp.ValueLaws(s, s, s) && sp.ValueLaws(r, r, r);
  }

  // ----- What the transfers carry -----

  // What the sender learns first: the receiver's only item, if the sender has none in the bin.
  function FirstOut<V(!new)>(sp: Space<bool, V>, cntS: nat, cntR: nat, sumR: V): V
  {
    if cntS == 0 && cntR == 1 then sumR else sp.nil
  }

  // The sender's u-vector entry: an encryption under the seed of the item it can name, or noise.
  function UEntry<V(!new, ==)>(sp: Space<bool, V>, id: Ideal<V>, cntS: nat, sumS: V, first: V, round: nat, b: nat,
      noise: V): V
  {
    if cntS == 1 then id.Enc(id.Oprf(sumS), round, b)
    else if first != sp.nil then id.Enc(id.Oprf(first), round, b)
    else noise
  }

  function CondSum<V(!new)>(sp: Space<bool, V>, cntS: nat, sumS: V): V
  {
    if cntS == 1 then sumS else sp.nil
  }

  // What the receiver concludes about a bin from the transferred value.
  function Verdict<V(!new, ==)>(sp: Space<bool, V>, id: Ideal<V>, cntR: nat, sumR: V, seedR: V, out: V, round: nat,
      b: nat): Option<V>
  {
    if cntR == 0 && out != sp.nil then Some(out)
    else if cntR == 1 && out == id.Enc(seedR, round, b) then Some(sumR)
    else None
  }

  // The value the second transfer delivers when the receiver's count is at most one.
  function SecondOut<V(!new)>(sp: Space<bool, V>, cntR: nat, cond: V, u: V): V
  {
    if cntR == 0 then cond else u
  }

  // ----- Counting in the union -----

  // What a count and a sum say about the elements of a set in a bin.
  ghost predicate BinView<V(!new)>(h: Hashing<V>, left: set<V>, b: nat, cnt: nat, sum: V)
  {
    if cnt == 0 then forall x :: x in left ==> b !in h.Bins(x)
    else if cnt == 1 then h.Alone(left, b, sum)
    else exists x, y :: x in left && y in left && x != y && b in h.Bins(x) && b in h.Bins(y)
  }

  // The table of one side describes what is left on that side; its seed sum is the seed of a
  // single item.
  lemma TableView<V(!new)>(sp: Space<bool, V>, h: Hashing<V>, items: seq<V>, seedOf: V -> V, pld: set<V>, b: nat)
    requires sp.IsSpace() && Distinct(items)
    ensures BinView(h, Elements(items) - pld, b, Cnt(h, items, pld, b, |items|), Sum(sp, h, items, items, pld, b,
        |items|))
    ensures Cnt(h, items, pld, b, |items|) == 1 ==>
      Sum(sp, h, items, SeedsOf(seedOf, items), pld, b, |items|) == seedOf(Sum(sp, h, items, items, pld, b, |items|))
  {
    var cnt := Cnt(h, items, pld, b, |items|);
    var left := Elements(items) - pld;
    if cnt == 0 {
      CntZero(sp, h, items, items, pld, b, |items|);
      forall x | x in left ensures b !in h.Bins(x) {
        var i :| 0 <= i < |items| && items[i] == x;
        assert !InBin(h, items, pld, b, i);
      }
    } else if cnt == 1 {
      var i := CntOne(sp, h, items, items, pld, b, |items|);
      var i' := CntOne(sp, h, items, SeedsOf(seedOf, items), pld, b, |items|);
      forall y | y in left && b in h.Bins(y) ensures y == items[i] {
        var j :| 0 <= j < |items| && items[j] == y;
        assert InBin(h, items, pld, b, j);
      }
    } else {
      var i, j := CntMany(h, items, pld, b, |items|);
      assert items[i] in left && items[j] in left;
    }
  }

  // The outcome of a probe, as a function of both tables.
  function ProbeOutcome<V(!new, ==)>(sp: Space<bool, V>, id: Ideal<V>, cntS: nat, sumS: V, cntR: nat, sumR: V,
      seedR: V, round: nat, b: nat, noise: V): Option<V>
  {
    var first := FirstOut(sp, cntS, cntR, sumR);
    var out := SecondOut(sp, cntR, CondSum(sp, cntS, sumS), UEntry(sp, id, cntS, sumS, first, round, b, noise));
    Verdict(sp, id, cntR, sumR, seedR, out, round, b)
  }

  /** The verdict on a bin is exactly whether, and by which item, the bin is pure in the union
      of what is left on both sides. */
  lemma OutcomeIsPure<V(!new)>(sp: Space<bool, V>, id: Ideal<V>, h: Hashing<V>, leftS: set<V>, leftR: set<V>,
      cntS: nat, sumS: V, cntR: nat, sumR: V, round: nat, b: nat, n: nat, x: V,
      rounds: nat, draws: nat)
    requires id.NoAccidents(leftS + leftR, rounds, h.tabLen, draws) && sp.nil !in leftS + leftR
    requires round < rounds && b < h.tabLen && n < draws
    requires BinView(h, leftS, b, cntS, sumS) && BinView(h, leftR, b, cntR, sumR)
    ensures ProbeOutcome(sp, id, cntS, sumS, cntR, sumR, if cntR == 1 then id.Oprf(sumR) else sp.nil, round, b,
        id.Random(n)) == Some(x)
      <==> h.Alone(leftS + leftR, b, x)
  {
    var u := leftS + leftR;
    if cntR > 1 {
      TwoInBin(h, leftR, u, b, x);
    } else if cntS > 1 {
      TwoInBin(h, leftS, u, b, x);
    } else if cntS == 1 && cntR == 1 {
      assert sumS in u && sumR in u;
    } else {
      assert cntS == 1 ==> sumS in u;
      assert cntR == 1 ==> sumR in u;
    }
  }

  lemma TwoInBin<V(!new)>(h: Hashing<V>, left: set<V>, u: set<V>, b: nat, x: V)
    requires left <= u
    requires exists y, z :: y in left && z in left && y != z && b in h.Bins(y) && b in h.Bins(z)
    ensures !h.Alone(u, b, x)
  {
    var y, z :| y in left && z in left && y != z && b in h.Bins(y) && b in h.Bins(z);
    assert y in u && z in u;
  }
}
