/** The updatable set intersection: how both parties keep the stored intersection up to date
    (upsi.cc, and the order of updates in main.cc). */
module Upsi {
  import opened Lists
  import opened UpsuRound

  // The keyword databases delete before they insert; the ECDH databases insert before they
  // delete.
  datatype Order = DeleteFirst | InsertFirst

  ghost function Updated<E(!new)>(order: Order, own: set<E>, req: Request<E>): set<E>
  {
    match order
    case DeleteFirst => (own - Elements(req.minus)) + Elements(req.plus)
    case InsertFirst => (own + Elements(req.plus)) - Elements(req.minus)
  }

  // UpdatePRFs and DeletePRFs, or insertItems and deleteItems.
  method UpdateDatabase<E(!new, ==)>(order: Order, own: set<E>, req: Request<E>) returns (db: set<E>)
    ensures db == Updated(order, own, req)
  {
    var plus, minus := set e | e in req.plus, set e | e in req.minus;
    db := if order == DeleteFirst then (own - minus) + plus else (own + plus) - minus;
  }

  // The ideal intersection of a list with the peer's database.
  method Lookup<E(!new, ==)>(list: seq<E>, db: set<E>) returns (t: seq<E>)
    ensures Elements(t) == Elements(list) * db
  {
    t := [];
    for i := 0 to |list|
      invariant Elements(t) == Elements(list[..i]) * db
    {
      assert list[..i + 1] == list[..i] + [list[i]];
      ElementsConcat(list[..i], [list[i]]);
      if list[i] in db {
        ElementsConcat(t, [list[i]]);
        t := t + [list[i]];
      }
    }
    assert list[..|list|] == list;
  }

  // The stored set without the deleted and with the new elements.
  method EraseInsert<E(!new, ==)>(stored: set<E>, w: set<E>, u: set<E>) returns (s: set<E>)
    ensures s == (stored - w) + u
  {
    s := stored;
    var rest := w;
    while rest != {}
      invariant rest <= w && s == stored - (w - rest)
      decreases |rest|
    {
      var e :| e in rest;
      s, rest := s - {e}, rest - {e};
    }
    rest := u;
    while rest != {}
      invariant rest <= u && s == (stored - w) + (u - rest)
      decreases |rest|
    {
      var e :| e in rest;
      s, rest := s + {e}, rest - {e};
    }
  }

  // No addition that is deleted in the same round is found by the peer.
  ghost predicate NoStale<E(!new)>(order: Order, x: set<E>, y: set<E>, reqX: Request<E>, reqY: Request<E>)
  {
    order.InsertFirst? ==>
      && Elements(reqX.plus) * Elements(reqX.minus) * Updated(order, y, reqY) == {}
      && Elements(reqY.plus) * Elements(reqY.minus) * Updated(order, x, reqX) == {}
  }

  /** One round of both parties from the stored intersection: the result is the intersection of
      the updated sets always with deletions first, and exactly without stale additions with
      insertions first. */
  method Round<E(!new, ==)>(order: Order, x: set<E>, y: set<E>, storedX: set<E>, storedY: set<E>, reqX: Request<E>,
      reqY: Request<E>)
    returns (x': set<E>, y': set<E>, resultX: set<E>, resultY: set<E>)
    requires storedX == storedY == x * y
    ensures x' == Updated(order, x, reqX) && y' == Updated(order, y, reqY) && resultX == resultY
    ensures resultX == x' * y' <==> NoStale(order, x, y, reqX, reqY)
    ensures x' * y' <= resultX
  {
    x' := UpdateDatabase(order, x, reqX);
    y' := UpdateDatabase(order, y, reqY);
    var t := Lookup(reqX.plus, y');
    var v := Lookup(reqY.plus, x');
    var u := (set e | e in t) + (set e | e in v);
    var subX := (set e | e in reqX.minus) * storedX;
    var subY := (set e | e in reqY.minus) * storedY;
    var w := subX + subY;
    resultX := EraseInsert(storedX, w, u);
    resultY := EraseInsert(storedY, w, u);
    assert u == Elements(t) + Elements(v);
    assert subX == Elements(reqX.minus) * storedX && subY == Elements(reqY.minus) * storedY;
    UpdateIsExactIff(order, x, y, reqX, reqY);
  }

  // What the update leaves in the stored intersection.
  ghost function Refreshed<E(!new)>(order: Order, x: set<E>, y: set<E>, reqX: Request<E>, reqY: Request<E>): set<E>
  {
    var x', y' := Updated(order, x, reqX), Updated(order, y, reqY);
    (x * y - (Elements(reqX.minus) + Elements(reqY.minus))) + Elements(reqX.plus) * y' + Elements(reqY.plus) * x'
  }

  lemma UpdateIsExactIff<E(!new)>(order: Order, x: set<E>, y: set<E>, reqX: Request<E>, reqY: Request<E>)
    ensures var x', y' := Updated(order, x, reqX), Updated(order, y, reqY);
      (Refreshed(order, x, y, reqX, reqY) == x' * y' <==> NoStale(order, x, y, reqX, reqY)) &&
          x' * y' <= Refreshed(order, x, y, reqX, reqY)
  {
    var x', y', r := Updated(order, x, reqX), Updated(order, y, reqY), Refreshed(order, x, y, reqX, reqY);
    if NoStale(order, x, y, reqX, reqY) {
      forall e | e in r ensures e in x' * y' {
        assert e !in Elements(reqX.plus) * Elements(reqX.minus) * y' || order.DeleteFirst?;
        assert e !in Elements(reqY.plus) * Elements(reqY.minus) * x' || order.DeleteFirst?;
      }
    } else {
      var e :| e in Elements(reqX.plus) * Elements(reqX.minus) * y' ||
          e in Elements(reqY.plus) * Elements(reqY.minus) * x';
      assert e in r && e !in x' * y';
    }
  }

  // Both sets after some rounds.
  ghost function SetsAfter<E(!new)>(order: Order, x: set<E>, y: set<E>, reqs: seq<(Request<E>, Request<E>)>): (set<E>,
      set<E>)
  {
    if reqs == [] then (x, y) else
      var n := |reqs| - 1;
      var (x', y') := SetsAfter(order, x, y, reqs[..n]);
      (Updated(order, x', reqs[n].0), Updated(order, y', reqs[n].1))
  }

  /** Any number of rounds from the intersection. */
  method Rounds<E(!new, ==)>(order: Order, x0: set<E>, y0: set<E>, reqs: seq<(Request<E>, Request<E>)>)
    returns (x: set<E>, y: set<E>, storedX: set<E>, storedY: set<E>)
    requires order.DeleteFirst? || forall i :: 0 <= i < |reqs| ==>
      var (x', y') := SetsAfter(order, x0, y0, reqs[..i]);
      NoStale(order, x', y', reqs[i].0, reqs[i].1)
    ensures (x, y) == SetsAfter(order, x0, y0, reqs) && storedX == storedY == x * y
  {
    hide NoStale, Updated;
    x, y, storedX, storedY := x0, y0, x0 * y0, x0 * y0;
    for i := 0 to |reqs|
      invariant (x, y) == SetsAfter(order, x0, y0, reqs[..i]) && storedX == storedY == x * y
    {
      assert reqs[..i + 1][..i] == reqs[..i];
      DeleteFirstIsNeverStale(order, x, y, reqs[i].0, reqs[i].1);
      x, y, storedX, storedY := Round(order, x, y, storedX, storedY, reqs[i].0, reqs[i].1);
    }
    assert reqs[..|reqs|] == reqs;
  }

  lemma DeleteFirstIsNeverStale<E(!new)>(order: Order, x: set<E>, y: set<E>, reqX: Request<E>, reqY: Request<E>)
    ensures order.DeleteFirst? ==> NoStale(order, x, y, reqX, reqY)
  {
  }

  /** A stale addition: what x adds and deletes in one round stays in the stored intersection. */
  lemma StaleAdditionStays<E(!new)>(e: E)
    ensures Refreshed(InsertFirst, {}, {e}, Request([e], [e]), Request([], [])) == {e}
    ensures Updated(InsertFirst, {}, Request([e], [e])) == {}
  {
    var reqX, reqY := Request([e], [e]), Request([], []);
    assert Elements(reqX.plus) == {e} == Elements(reqX.minus);
    assert Elements(reqY.plus) == {} == Elements(reqY.minus);
    assert Updated(InsertFirst, {e}, reqY) == {e};
  }
}
