/** The set intersection of rr22/rr22.cc: the receiver encodes its elements under themselves,
    and compares masks. */
module Rr22 {
  import opened Lists
  import opened Algebra
  import opened PaxosState
  import opened Triangulation
  import opened Backfill
  import opened MaskedDecoding

  // ----- Finding the matches -----

  // The positions of the elements of y that are in x, in increasing order.
  function Matching<K(==)>(x: seq<K>, y: seq<K>): (z: seq<nat>)
    ensures forall i :: 0 <= i < |z| ==> z[i] < |y|
  {
    if y == [] then [] else
      var z := Matching(x, y[..|y| - 1]);
      if y[|y| - 1] in x then z + [|y| - 1] else z
  }

  lemma {:induction false} MatchingMeaning<K>(x: seq<K>, y: seq<K>)
    ensures var z := Matching(x, y);
      && (forall i, j :: 0 <= i < j < |z| ==> z[i] < z[j])
      && forall k: nat :: k in z <==> k < |y| && y[k] in x
    decreases |y|
  {
    if y != [] {
      MatchingMeaning(x, y[..|y| - 1]);
    }
  }

  // Entries start as -1, are set where a match is found, and what stays -1 is removed.
  method GetIntersectionIdx<K(==)>(x: seq<K>, y: seq<K>) returns (z: seq<nat>)
    ensures z == Matching(x, y)
    ensures forall i, j :: 0 <= i < j < |z| ==> z[i] < z[j]
    ensures forall k: nat :: k in z <==> k < |y| && y[k] in x
  {
    MatchingMeaning(x, y);
    var set' := set e | e in x;
    var ret: seq<int> := seq(|y|, _ => -1);
    for i := 0 to |y|
      invariant |ret| == |y|
      invariant forall j :: 0 <= j < |y| ==> ret[j] == if j < i && y[j] in x then j else -1
    {
      if y[i] in set' {
        ret := ret[i := i];
      }
    }
    z := [];
    for i := 0 to |y|
      invariant z == Matching(x, y[..i])
    {
      assert y[..i + 1][..i] == y[..i];
      if ret[i] != -1 {
        z := z + [ret[i]];
      }
    }
    assert y[..|y|] == y;
  }

  method GetIntersection<K>(z: seq<nat>, y: seq<K>) returns (elements: seq<K>)
    requires forall i :: 0 <= i < |z| ==> z[i] < |y|
    ensures elements == At(z, y)
  {
    elements := [];
    for i := 0 to |z|
      invariant |elements| == i && elements == At(z[..i], y)
    {
      elements := elements + [y[z[i]]];
    }
    assert z[..|z|] == z;
  }

  function At<K>(z: seq<nat>, y: seq<K>): (s: seq<K>)
    requires forall i :: 0 <= i < |z| ==> z[i] < |y|
    ensures |s| == |z|
  {
    seq(|z|, i requires 0 <= i < |z| => y[z[i]])
  }

  /** If masks match exactly where elements are shared, the selected elements are the shared
      ones, in order. */
  lemma {:induction false} SelectedAreCommon<K, M>(recv: seq<K>, masks: seq<M>, others: seq<M>, send: seq<K>)
    requires |recv| == |masks| && forall i :: 0 <= i < |recv| ==> (masks[i] in others <==> recv[i] in send)
    ensures At(Matching(others, masks), recv) == Common(recv, send)
  {
    if recv != [] {
      var n := |recv| - 1;
      SelectedAreCommon(recv[..n], masks[..n], others, send);
      assert masks[n] in others <==> recv[n] in send;
    }
  }

  lemma {:induction false} NothingMissed<K, M>(recv: seq<K>, masks: seq<M>, others: seq<M>, i: nat)
    requires |recv| == |masks| && i < |recv| && masks[i] in others
    ensures recv[i] in At(Matching(others, masks), recv)
    decreases |recv|
  {
    var n := |recv| - 1;
    var z := Matching(others, masks[..n]);
    if i < n {
      NothingMissed(recv[..n], masks[..n], others, i);
      var j :| 0 <= j < |z| && At(z, recv[..n])[j] == recv[i];
      assert At(Matching(others, masks), recv)[j] == recv[i];
    } else {
      assert At(Matching(others, masks), recv)[|z|] == recv[n];
    }
  }

  // ----- The two parties -----

  // The sender's vector from what the receiver sent.
  method SenderVector<K(!new)>(sp: Space<K, K>, delta: K, b: seq<K>, aprime: seq<K>) returns (k: seq<K>)
    requires |b| == |aprime|
    ensures |k| == |b| && forall i :: 0 <= i < |b| ==> k[i] == sp.Plus(b[i], sp.Act(delta, aprime[i]))
  {
    k := [];
    for i := 0 to |b|
      invariant |k| == i && forall j :: 0 <= j < i ==> k[j] == sp.Plus(b[j], sp.Act(delta, aprime[j]))
    {
      k := k + [sp.Plus(b[i], sp.Act(delta, aprime[i]))];
    }
  }

  ghost function SenderMask<K(!new)>(sp: Space<K, K>, o: Okvs<K>, delta: K, k: seq<K>, x: K): K
    requires o.Good() && |k| == o.Size()
  {
    sp.Plus(MaskedDecoding.At(sp, o, k, x), sp.Act(delta, x))
  }

  method SenderMasks<K(!new)>(sp: Space<K, K>, o: Okvs<K>, delta: K, k: seq<K>, send: seq<K>) returns (masks: seq<K>)
    requires sp.IsSpace() && o.Good() && |k| == o.Size()
    ensures |masks| == |send| && forall i :: 0 <= i < |send| ==> masks[i] == SenderMask(sp, o, delta, k, send[i])
  {
    masks := DecodeAll(sp, o, send, k);
    ghost var decoded := masks;
    for i := 0 to |send|
      invariant |masks| == |send|
      invariant forall j :: 0 <= j < |send| ==>
        masks[j] == if j < i then SenderMask(sp, o, delta, k, send[j]) else decoded[j]
    {
      masks := masks[i := sp.Plus(masks[i], sp.Act(delta, send[i]))];
    }
  }

  // No element of the sender has by accident the mask of an element it does not hold.
  ghost predicate NoFalseMatch<K(!new)>(sp: Space<K, K>, o: Okvs<K>, delta: K, c: seq<K>, k: seq<K>, recv: seq<K>,
      send: seq<K>)
    requires o.Good() && |c| == |k| == o.Size()
  {
    forall x, y :: x in send && y in recv && SenderMask(sp, o, delta, k, x) == MaskedDecoding.At(sp, o, c, y) ==>
        y in send
  }

  /** The intersection: every shared element is reported, and nothing else is unless two masks
      agree by accident. Both parties end with the same list. It succeeds exactly if both sets
      have the same size and the receiver's elements are solved for. */
  method Psi<K(==, !new)>(sp: Space<K, K>, o: Okvs<K>, delta: K, a: seq<K>, b: seq<K>, c: seq<K>, recv: seq<K>,
      send: seq<K>)
    returns (res: Result<seq<K>>, ghost k: seq<K>, ghost tr: Trace)
    requires sp.IsSpace() && sp.one != sp.zero && o.Good() && |recv| + 2 <= o.sparseSize
    requires |a| == o.Size() && Correlated(sp, delta, a, b, c)
    ensures SolveEnds(sp, o, recv, recv, tr, if res == Err(SizeMismatch) then None else ErrorOf(res))
    ensures res == Err(SizeMismatch) ==> |recv| != |send|
    ensures Peelable(o, recv) && |recv| == |send| ==> res.Ok?
    ensures !HasCore(KeyRows(o, recv)) && |recv| == |send| && res.Err? ==> res.error == TooManyInColumn
    ensures res == Err(TooManyInColumn) <==>
      exists col: nat :: col < o.sparseSize && 200 <= |RowSet(KeyRows(o, recv), col)|
    ensures res.Ok? ==> Distinct(recv)
    ensures res.Ok? ==> |recv| == |send| && |k| == o.Size()
    ensures res.Ok? ==> forall y :: y in recv && y in send ==> y in res.value
    ensures res.Ok? && NoFalseMatch(sp, o, delta, c, k, recv, send) ==> res.value == Common(recv, send)
  {
    hide SolveEnds, Peelable;
    k := [];
    var p;
    p, tr := Solve(sp, o, recv, recv);
    if p.Err? {
      return Err(p.error), k, tr;
    }
    var aprime := [];
    for i := 0 to |a|
      invariant |aprime| == i && forall j :: 0 <= j < i ==> aprime[j] == sp.Plus(a[j], p.value[j])
    {
      aprime := aprime + [sp.Plus(a[i], p.value[i])];
    }
    var sent := SenderVector(sp, delta, b, aprime);
    k := sent;
    var senderMasks := SenderMasks(sp, o, delta, sent, send);
    var masks := DecodeAll(sp, o, recv, c);
    if |senderMasks| != |recv| {
      return Err(SizeMismatch), k, tr;
    }
    var z := GetIntersectionIdx(senderMasks, masks);
    var elements := GetIntersection(z, recv);
    SharedMatch(sp, o, delta, a, b, c, p.value, k, recv, send, senderMasks, masks);
    res := Ok(elements);
  }

  lemma SharedMatch<K(!new)>(sp: Space<K, K>, o: Okvs<K>, delta: K, a: seq<K>, b: seq<K>, c: seq<K>, p: seq<K>,
      k: seq<K>, recv: seq<K>, send: seq<K>, senderMasks: seq<K>, masks: seq<K>)
    requires sp.IsSpace() && o.Good() && |a| == o.Size() && Correlated(sp, delta, a, b, c) && Shifted(sp, delta, a, b,
        p, k)
    requires Encodes(sp, o, p, recv, recv) && |masks| == |recv| && Encodes(sp, o, c, recv, masks)
    requires |senderMasks| == |send| && forall i :: 0 <= i < |send| ==> senderMasks[i] == SenderMask(sp, o, delta, k,
        send[i])
    ensures forall y :: y in recv && y in send ==> y in At(Matching(senderMasks, masks), recv)
    ensures NoFalseMatch(sp, o, delta, c, k, recv, send) ==> At(Matching(senderMasks, masks), recv) == Common(recv,
        send)
  {
    forall i | 0 <= i < |recv| && recv[i] in send ensures masks[i] in senderMasks {
      var j :| 0 <= j < |send| && send[j] == recv[i];
      MasksAgree(sp, o, delta, a, b, c, p, k, recv[i]);
      assert MaskedDecoding.At(sp, o, p, recv[i]) == recv[i];
      assert senderMasks[j] == masks[i];
    }
    forall y | y in recv && y in send ensures y in At(Matching(senderMasks, masks), recv) {
      var i :| 0 <= i < |recv| && recv[i] == y;
      NothingMissed(recv, masks, senderMasks, i);
    }
    if NoFalseMatch(sp, o, delta, c, k, recv, send) {
      forall i | 0 <= i < |recv| ensures masks[i] in senderMasks <==> recv[i] in send {
        if masks[i] in senderMasks {
          var j :| 0 <= j < |senderMasks| && senderMasks[j] == masks[i];
          assert send[j] in send && recv[i] in recv;
        }
      }
      SelectedAreCommon(recv, masks, senderMasks, send);
    }
  }
}
