/** Peeling the union of two sets in plain sight: what the two-party protocol has to compute. */
module PeelingSpec {
  import opened Lists

  // Every item is hashed into NUM_HASHES distinct bins of a table.
  const NUM_HASHES := 5

  datatype Hashing<!V(!new)> = Hashing(tabLen: nat, hash: V -> seq<nat>)
  {
    function Bins(x: V): seq<nat> { hash(x) }

    ghost predicate Ok()
    {
      forall x :: OkFor(x)
    }

    ghost predicate OkFor(x: V)
    {
      |Bins(x)| == NUM_HASHES && Distinct(Bins(x)) && forall j :: 0 <= j < NUM_HASHES ==> Bins(x)[j] < tabLen
    }

    // x is the only element of u in bin b.
    ghost predicate Alone(u: set<V>, b: nat, x: V)
    {
      x in u && b in Bins(x) && forall y :: y in u && b in Bins(y) ==> y == x
    }

    // No bin holds exactly one element of w.
    ghost predicate NoPureBin(w: set<V>)
    {
      forall b: nat, x :: !Alone(w, b, x)
    }

    // The largest subset of u without a pure bin.
    ghost predicate IsCore(u: set<V>, core: set<V>)
    {
      && core <= u && NoPureBin(core)
      && forall w :: w <= u && NoPureBin(w) ==> w <= core
    }

    // Peeling may remove exactly the elements alone in some probed bin.
    ghost predicate IsPeeled(u: set<V>, probes: seq<nat>, x: V)
    {
      exists k :: 0 <= k < |probes| && Alone(u, probes[k], x)
    }

    // What holds between rounds: bins outside `probes` are not pure, bins marked as peeled
    // are empty, and every subset without pure bins is still there.
    ghost predicate RoundInv(all: set<V>, u: set<V>, probes: seq<nat>, marked: seq<bool>)
    {
      && u <= all && |marked| == tabLen
      && (forall b: nat, x :: Alone(u, b, x) ==> b in probes)
      && (forall b, x :: 0 <= b < tabLen && marked[b] && x in u ==> b !in Bins(x))
      && forall w :: w <= all && NoPureBin(w) ==> w <= u
    }

    lemma RoundInvInitially(all: set<V>, probes: seq<nat>, marked: seq<bool>)
      requires Ok() && |marked| == tabLen && (forall b :: 0 <= b < tabLen ==> !marked[b])
      requires forall b: nat :: b < tabLen ==> b in probes
      ensures RoundInv(all, all, probes, marked)
    {
      forall b: nat, x | Alone(all, b, x) ensures b in probes {
        assert OkFor(x);
        var j :| 0 <= j < |Bins(x)| && Bins(x)[j] == b;
      }
    }

    // A bin that is pure after a round but was not before lost an element in it.
    lemma NewlyPure(all: set<V>, u: set<V>, probes: seq<nat>, marked: seq<bool>, peeled: set<V>, b: nat, x: V)
      returns (z: V)
      requires RoundInv(all, u, probes, marked)
      requires forall x :: x in peeled <==> IsPeeled(u, probes, x)
      requires Alone(u - peeled, b, x)
      ensures z in peeled && b in Bins(z)
    {
      PureUnlessHit(u, peeled, b, x);
      ProbedIsPeeled(u, probes, b, x);
      z :| z in peeled && b in Bins(z);
    }

    lemma PureUnlessHit(u: set<V>, peeled: set<V>, b: nat, x: V)
      requires Alone(u - peeled, b, x)
      ensures Alone(u, b, x) || exists z :: z in peeled && b in Bins(z)
    {
      if !Alone(u, b, x) {
        var y :| y in u && b in Bins(y) && y != x;
        assert y !in u - peeled;
      }
    }

    lemma ProbedIsPeeled(u: set<V>, probes: seq<nat>, b: nat, x: V)
      ensures Alone(u, b, x) && b in probes ==> IsPeeled(u, probes, x)
    {
      if Alone(u, b, x) && b in probes {
        var k :| 0 <= k < |probes| && probes[k] == b;
      }
    }

    /** When nothing is left to probe, what remains is the core of the union. */
    lemma RoundsEnd(all: set<V>, u: set<V>, marked: seq<bool>)
      requires RoundInv(all, u, [], marked)
      ensures IsCore(all, u)
    {
    }

    /** One round: removing the elements alone in a probed bin, marking the probed pure bins,
        and probing next the unmarked bins of the removed elements, keeps the invariant. */
    lemma RoundStep(all: set<V>, u: set<V>, probes: seq<nat>, marked: seq<bool>, peeled: set<V>, probes': seq<nat>,
        marked': seq<bool>)
      requires Ok() && RoundInv(all, u, probes, marked) && |marked'| == tabLen
      requires forall x :: x in peeled <==> IsPeeled(u, probes, x)
      requires forall b :: 0 <= b < tabLen ==>
        (marked'[b] <==> marked[b] || (b in probes && exists x :: Alone(u, b, x)))
      requires forall b: nat, x :: x in peeled && b in Bins(x) && b < tabLen && !marked'[b] ==> b in probes'
      ensures RoundInv(all, u - peeled, probes', marked')
    {
      var u' := u - peeled;
      forall b, x | 0 <= b < tabLen && marked'[b] && x in u' ensures b !in Bins(x) {
        if !marked[b] {
          var y :| Alone(u, b, y);
          var k :| 0 <= k < |probes| && probes[k] == b;
          assert IsPeeled(u, probes, y);
        }
      }
      forall b: nat, x | Alone(u', b, x) ensures b in probes' {
        assert OkFor(x);
        var j :| 0 <= j < |Bins(x)| && Bins(x)[j] == b;
        var z := NewlyPure(all, u, probes, marked, peeled, b, x);
      }
      forall w | w <= all && NoPureBin(w) ensures w <= u' {
        forall x | x in w ensures x !in peeled {
          if x in peeled {
            var k :| 0 <= k < |probes| && Alone(u, probes[k], x);
            assert Alone(w, probes[k], x);
          }
        }
      }
    }
  }
}
