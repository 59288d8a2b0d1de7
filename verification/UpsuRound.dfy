/** One round of updates by two parties, and any number of rounds (examples/upsu/upsu.cc). */
module UpsuRound {
  import opened Lists
  import opened Upsu
  import opened UpsuSteps

  // ----- The sets behind a round -----

  datatype Request<E> = Request(plus: seq<E>, minus: seq<E>)

  // The fixed public caps on additions and deletions.
  predicate WithinCaps<E(==)>(req: Request<E>, addMax: nat, subMax: nat)
  {
    Distinct(req.plus) && Distinct(req.minus) && |req.plus| <= addMax && |req.minus| <= subMax
  }

  // A party's set after its updates: deletions first.
  ghost function After<E(!new)>(own: set<E>, req: Request<E>): set<E>
  {
    (own - Elements(req.minus)) + Elements(req.plus)
  }

  // What a party enters into the intersection: elements only the peer holds and that it does
  // not add itself, and its own deletions.
  ghost function Offered<E(!new)>(own: set<E>, u: set<E>, req: Request<E>): set<E>
  {
    ((u - own) - Elements(req.plus)) + Elements(req.minus)
  }

  /** The two offers meet in what leaves the union. Together with both additions the rest is the
      new union, also when one party adds what the other deletes, when a party adds what it
      has, or deletes what only the peer has. */
  lemma OffersMeetInDeleted<E(!new)>(x: set<E>, y: set<E>, reqX: Request<E>, reqY: Request<E>)
    ensures ((x + y) - Offered(x, x + y, reqX) * Offered(y, x + y, reqY)) + Elements(reqY.plus) + Elements(reqX.plus)
         == After(x, reqX) + After(y, reqY)
  {
  }

  // What a party keeps between rounds about both sets.
  ghost predicate Agreed<E(!new)>(own: set<E>, peer: set<E>, u: seq<E>, peerExcl: seq<E>)
  {
    Distinct(u) && Elements(u) == own + peer && Distinct(peerExcl) && Elements(peerExcl) == Elements(u) - own
  }

  // How many dummies the first query leaves room for, and whether they last for the padding.
  ghost function PoolSize<E(!new)>(own: set<E>, u: set<E>, req: Request<E>, addMax: nat, subMax: nat): int
  {
    |u| + addMax + subMax - |(u - own) - Elements(req.plus)| - |req.plus| - |req.minus|
  }

  ghost predicate PoolLasts<E(!new)>(own: set<E>, u: set<E>, req: Request<E>, addMax: nat, subMax: nat)
  {
    |u| + subMax - |Offered(own, u, req)| <= 2 * PoolSize(own, u, req, addMax, subMax)
  }

  /** Deleting only own elements never exhausts the dummies. */
  lemma OwnDeletionsLast<E(!new)>(own: set<E>, u: set<E>, req: Request<E>, addMax: nat, subMax: nat)
    requires WithinCaps(req, addMax, subMax) && own <= u && Elements(req.minus) <= own
    ensures PoolLasts(own, u, req, addMax, subMax)
  {
    var excl, del := (u - own) - Elements(req.plus), Elements(req.minus);
    ElementsSize(req.minus);
    assert excl !! del;
    assert |excl + del| == |excl| + |del|;
    SubsetSize(excl, u);
  }

  /** The exact condition in numbers a caller has: each deletion of an element that only the peer
      holds costs one dummy, and the pool has as many to spare as the party has elements, or adds
      of the peer's, and what the caps on additions and deletions leave free, the former twice. */
  lemma PoolLastsIff<E(!new)>(own: set<E>, u: set<E>, req: Request<E>, addMax: nat, subMax: nat)
    requires WithinCaps(req, addMax, subMax) && own <= u
    ensures PoolLasts(own, u, req, addMax, subMax) <==>
      |((u - own) - Elements(req.plus)) * Elements(req.minus)|
        <= |own| + |(u - own) * Elements(req.plus)| + 2 * (addMax - |req.plus|) + (subMax - |req.minus|)
  {
    hide Elements;
    var peer, plus := u - own, Elements(req.plus);
    ElementsSize(req.minus);
    UnionSize(peer - plus, Elements(req.minus));
    PartsSize(own, u);
    PartsSize(peer * plus, peer);
    assert peer - peer * plus == peer - plus;
  }

  lemma UnionSize<E(!new)>(a: set<E>, b: set<E>)
    ensures |a + b| == |a| + |b| - |a * b|
  {
    assert a + b == a + (b - a) && b == a * b + (b - a);
  }

  lemma PartsSize<E(!new)>(a: set<E>, b: set<E>)
    requires a <= b
    ensures |b| == |a| + |b - a|
  {
    assert b == a + (b - a);
  }

  /** Deletions of elements that only the peer holds do go through while the dummies last: here as
      many as the party holds elements itself. */
  lemma PeerDeletionsLast<E(!new)>(own: set<E>, u: set<E>, req: Request<E>, addMax: nat, subMax: nat)
    requires WithinCaps(req, addMax, subMax) && own <= u && |(u - own) * Elements(req.minus)| <= |own|
    ensures PoolLasts(own, u, req, addMax, subMax)
  {
    var all, left := (u - own) * Elements(req.minus), ((u - own) - Elements(req.plus)) * Elements(req.minus);
    assert left <= all;
    SubsetSize(left, all);
    PoolLastsIff(own, u, req, addMax, subMax);
  }

  /** A deletion of an element only the peer holds can exhaust them: a party without elements of
      its own that deletes the peer's element, at caps of no additions and one deletion. */
  lemma PeerDeletionExhausts<E(!new)>(e: E)
    ensures WithinCaps(Request([], [e]), 0, 1) && !PoolLasts({}, {e}, Request([], [e]), 0, 1)
  {
    var req := Request([], [e]);
    assert Elements(req.minus) == {e} && Elements(req.plus) == {};
    assert ({e} - {}) - Elements(req.plus) == {e};
    assert Offered({}, {e}, req) == {e};
  }

  // When a round passes all its checks.
  ghost predicate Succeeds<E(!new)>(x: set<E>, y: set<E>, reqX: Request<E>, reqY: Request<E>, addMax: nat, subMax: nat)
  {
    && PoolLasts(x, x + y, reqX, addMax, subMax) && PoolLasts(y, x + y, reqY, addMax, subMax)
    && Elements(reqX.minus) * Elements(reqY.minus) <= x + y
  }

  /** When a round succeeds, in the numbers of the two sets and requests. */
  lemma SucceedsIff<E(!new)>(x: set<E>, y: set<E>, reqX: Request<E>, reqY: Request<E>, addMax: nat, subMax: nat)
    requires WithinCaps(reqX, addMax, subMax) && WithinCaps(reqY, addMax, subMax)
    ensures Succeeds(x, y, reqX, reqY, addMax, subMax) <==>
      && |((y - x) - Elements(reqX.plus)) * Elements(reqX.minus)|
           <= |x| + |(y - x) * Elements(reqX.plus)| + 2 * (addMax - |reqX.plus|) + (subMax - |reqX.minus|)
      && |((x - y) - Elements(reqY.plus)) * Elements(reqY.minus)|
           <= |y| + |(x - y) * Elements(reqY.plus)| + 2 * (addMax - |reqY.plus|) + (subMax - |reqY.minus|)
      && Elements(reqX.minus) * Elements(reqY.minus) <= x + y
  {
    PoolLastsIff(x, x + y, reqX, addMax, subMax);
    PoolLastsIff(y, x + y, reqY, addMax, subMax);
    assert (x + y) - x == y - x && (x + y) - y == x - y;
  }

  /** A round in which one party deletes elements that only its peer holds, and the peer deletes
      nothing, succeeds as long as these are no more than the elements of the party. */
  lemma PeerDeletionSucceeds<E(!new)>(x: set<E>, y: set<E>, reqX: Request<E>, reqY: Request<E>, addMax: nat,
      subMax: nat)
    requires WithinCaps(reqX, addMax, subMax) && WithinCaps(reqY, addMax, subMax)
    requires Elements(reqX.minus) <= y - x && |reqX.minus| <= |x| && reqY.minus == []
    ensures Succeeds(x, y, reqX, reqY, addMax, subMax)
  {
    ElementsSize(reqX.minus);
    assert (x + y - x) * Elements(reqX.minus) == Elements(reqX.minus);
    PeerDeletionsLast(x, x + y, reqX, addMax, subMax);
    OwnDeletionsLast(y, x + y, reqY, addMax, subMax);
  }

  // ----- The parties -----

  // The elements of a list outside a set, in order.
  method Outside<E(!new, ==)>(s: seq<E>, t: set<E>, ghost ts: seq<E>) returns (out: seq<E>)
    requires Elements(ts) == t
    ensures out == Without(s, ts)
  {
    out := [];
    for i := 0 to |s|
      invariant out == Without(s[..i], ts)
    {
      assert s[..i + 1][..i] == s[..i];
      assert s[i] in ts <==> s[i] in Elements(ts);
      if s[i] !in t {
        out := out + [s[i]];
      }
    }
    assert s[..|s|] == s;
  }

  lemma ApartFrom<E(!new)>(dummies: seq<E>, b: seq<E>, all: set<E>)
    requires Elements(dummies) !! all && Elements(b) <= all
    ensures forall x :: x in b ==> x !in dummies
  {
    forall x | x in b ensures x !in dummies {
      assert x in Elements(b);
    }
  }

  // The elements a party enters into the intersection, in the order of its lists.
  ghost function Base<E>(peerExcl: seq<E>, req: Request<E>): seq<E>
  {
    var excl := Without(peerExcl, req.plus);
    excl + Without(req.minus, excl)
  }

  lemma BaseIsOffered<E(!new)>(own: set<E>, u: set<E>, peerExcl: seq<E>, req: Request<E>)
    requires Distinct(peerExcl) && Elements(peerExcl) == u - own && Distinct(req.minus)
    ensures Distinct(Base(peerExcl, req)) && Elements(Base(peerExcl, req)) == Offered(own, u, req)
  {
    var excl := Without(peerExcl, req.plus);
    WithoutMeaning(peerExcl, req.plus);
    WithoutMeaning(req.minus, excl);
    ElementsConcat(excl, Without(req.minus, excl));
  }

  // The sizes behind a query.
  lemma QuerySizes<E(!new)>(own: set<E>, u: seq<E>, peerExcl: seq<E>, req: Request<E>, addMax: nat, subMax: nat)
    requires Distinct(u) && Distinct(peerExcl) && Elements(peerExcl) == Elements(u) - own &&
        WithinCaps(req, addMax, subMax)
    ensures var excl := Without(peerExcl, req.plus);
      Distinct(excl) && |u| + addMax + subMax == |excl| + |req.plus| + |req.minus| + PoolSize(own, Elements(u), req,
          addMax, subMax)
    ensures |Elements(u)| == |u| && |Base(peerExcl, req)| == |Offered(own, Elements(u), req)| <= |u| + subMax
  {
    var excl := Without(peerExcl, req.plus);
    WithoutMeaning(peerExcl, req.plus);
    WithoutMeaning(req.minus, excl);
    ElementsSize(u);
    ElementsSize(excl);
    SubsetSize(Elements(excl), Elements(u));
    BaseIsOffered(own, Elements(u), peerExcl, req);
    ElementsSize(Base(peerExcl, req));
  }

  class Party<E(!new, ==)> {
    const q: nat
    const sk: nat
    const skinv: nat
    var held: set<E>
    var union: seq<E>
    var peerExcl: seq<E>
    var prfPeerExcl: seq<Point<E>>
    var prfOwnAdd: seq<Point<E>>
    var prfOwnDel: seq<Point<E>>

    ghost predicate Keyed() { IsKey(q, sk, skinv) }

    /** InitP0 and InitP1, with u the result of the first union. */
    constructor (q: nat, sk: nat, skinv: nat, x: set<E>, u: seq<E>, ghost peer: set<E>)
      requires IsKey(q, sk, skinv) && Distinct(u) && Elements(u) == x + peer
      ensures Keyed() && this.q == q && this.sk == sk && held == x && union == u && Agreed(held, peer, union, peerExcl)
    {
      this.q, this.sk, this.skinv, held, union := q, sk, skinv, x, u;
      new;
      SetPeerExcl();
    }

    // peer_excl is rebuilt from the union and the own set.
    method SetPeerExcl()
      requires Distinct(union)
      modifies this`peerExcl
      ensures Distinct(peerExcl) && Elements(peerExcl) == Elements(union) - held
    {
      var out := [];
      for i := 0 to |union|
        invariant Distinct(out) && Elements(out) == Elements(union[..i]) - held
      {
        assert Elements(union[..i + 1]) == Elements(union[..i]) + {union[i]};
        assert union[i] !in Elements(union[..i]);
        if union[i] !in held {
          assert Elements(out + [union[i]]) == Elements(out) + {union[i]};
          assert union[i] !in Elements(out);
          out := out + [union[i]];
        }
      }
      assert union[..|union|] == union;
      peerExcl := out;
    }

    // The common exponent of both keys.
    function Both(peerSk: nat): nat
      requires 0 < q
    {
      peerSk * sk % q
    }

    // The query of a round: it is padded to its size with dummies.
    method Query(req: Request<E>, dummies: seq<E>) returns (nExcl: nat, query: seq<E>)
      ensures query == Without(peerExcl, req.plus) + req.plus + req.minus + dummies
      ensures nExcl == |Without(peerExcl, req.plus)|
    {
      var plus := set e | e in req.plus;
      var excl := Outside(peerExcl, plus, req.plus);
      nExcl, query := |excl|, excl + req.plus + req.minus + dummies;
    }

    // The answers, raised to the own key and split by what they stand for.
    method Parse(vals: seq<Point<E>>, nExcl: nat, req: Request<E>, ghost dummies: seq<E>, ghost peerSk: nat)
      requires 0 < q && nExcl == |Without(peerExcl, req.plus)|
      requires vals == Under(Without(peerExcl, req.plus) + req.plus + req.minus + dummies, peerSk)
      modifies this`prfPeerExcl, this`prfOwnAdd, this`prfOwnDel
      ensures prfPeerExcl == Under(Without(peerExcl, req.plus), Both(peerSk))
      ensures prfOwnAdd == Under(req.plus, Both(peerSk))
      ensures prfOwnDel == Under(req.minus, Both(peerSk))
      ensures vals[nExcl + |req.plus| + |req.minus|..] == Under(dummies, peerSk)
    {
      var n2, n3 := |req.plus|, |req.minus|;
      ghost var excl := Without(peerExcl, req.plus);
      prfPeerExcl := RaiseAll(q, vals[..nExcl], sk, excl, peerSk);
      prfOwnAdd := RaiseAll(q, vals[nExcl..nExcl + n2], sk, req.plus, peerSk);
      prfOwnDel := RaiseAll(q, vals[nExcl + n2..nExcl + n2 + n3], sk, req.minus, peerSk);
    }

    /** The preprocessing of one party: its additions under both keys, and its padded list for
        the intersection. The list is complete exactly when the dummies last. */
    method Preprocess(req: Request<E>, addMax: nat, subMax: nat, dummies: seq<E>, r: nat, rinv: nat, peerSk: nat,
        ghost peer: set<E>)
      returns (inRange: bool, queried: nat, psi: seq<Point<E>>)
      requires Keyed() && peerSk < q && Agreed(held, peer, union, peerExcl) && WithinCaps(req, addMax, subMax)
      requires PoolOk(dummies, r, rinv, q, PoolSize(held, Elements(union), req, addMax, subMax),
          Elements(union) + Elements(req.minus))
      requires Both(peerSk) * sk % q != Both(peerSk)
      modifies this`prfPeerExcl, this`prfOwnAdd, this`prfOwnDel
      ensures inRange <==> PoolLasts(held, Elements(union), req, addMax, subMax)
      ensures inRange <==> |union| + subMax - |Base(peerExcl, req)| <= 2 * |dummies|
      ensures queried == |union| + addMax + subMax
      ensures inRange ==>
        PsiList(psi, Base(peerExcl, req), Both(peerSk), Both(peerSk) * sk % q, dummies, |union| + subMax)
      ensures prfOwnAdd == Under(req.plus, Both(peerSk))
    {
      QuerySizes(held, union, peerExcl, req, addMax, subMax);
      BaseIsOffered(held, Elements(union), peerExcl, req);
      ApartFrom(dummies, Base(peerExcl, req), Elements(union) + Elements(req.minus));
      var nExcl, query := Query(req, dummies);
      var request, vals := Mroprf(q, query, r, rinv, peerSk);
      queried := |request|;
      Parse(vals, nExcl, req, dummies, peerSk);
      ghost var excl := Without(peerExcl, req.plus);
      var start := Dedupe(prfPeerExcl, prfOwnDel, excl, req.minus, Both(peerSk));
      inRange, psi := Pad(q, start, vals, nExcl + |req.plus| + |req.minus|, |union| + subMax, sk, Base(peerExcl, req),
          dummies, peerSk);
    }

    // ----- The addition phase -----

    // P1's answer: the peer's points without what leaves the union, its own additions blinded
    // by rp, and blanks up to a public size.
    method BuildS1(fk0: seq<Point<E>>, blanks: seq<Point<E>>, uMinus: seq<Point<E>>, rp: nat, ghost u: seq<E>,
        ghost d: seq<E>, ghost plus: seq<E>, ghost b: seq<E>, ghost k0: nat)
      returns (masked: seq<Point<E>>, s1: seq<Point<E>>)
      requires Keyed() && k0 < q && fk0 == Under(u, k0) && uMinus == Under(d, Both(k0))
      requires prfOwnAdd == Under(plus, Both(k0)) && |plus| <= |blanks| && blanks == Under(b, k0)
      ensures masked == Under(plus, k0 * rp % q)
      ensures s1 == Under(Without(u, d), k0) + Under(plus, k0 * rp % q) + Under(b[..|b| - |plus|], k0)
    {
      StripRaised(q, k0, sk, skinv);
      var stripped := RaiseAll(q, uMinus, skinv, d, Both(k0));
      var uMinusK0 := set p | p in stripped;
      var kept := Outside(fk0, uMinusK0, stripped);
      WithoutUnder(u, d, k0);
      var own := RaiseAll(q, prfOwnAdd, skinv, plus, Both(k0));
      masked := RaiseAll(q, own, rp, plus, k0);
      assert blanks[..|b| - |plus|] == Under(b[..|b| - |plus|], k0);
      s1 := kept + masked + blanks[..|blanks| - |prfOwnAdd|];
    }

    // BuildHashLookup of the union.
    method BuildHashLookup() returns (htab: map<Point<E>, E>)
      ensures forall p :: p in htab <==> p.exp == 1 && p.base in union
      ensures forall p :: p in htab ==> htab[p] == p.base
    {
      htab := map[];
      for i := 0 to |union|
        invariant forall p :: p in htab <==> p.exp == 1 && p.base in union[..i]
        invariant forall p :: p in htab ==> htab[p] == p.base
      {
        assert union[..i + 1] == union[..i] + [union[i]];
        htab := htab[HashToCurve(union[i]) := union[i]];
      }
      assert union[..|union|] == union;
    }

    // Whether a received point is one of the old union under the own key.
    ghost predicate Known(v: Point<E>)
      requires 0 < q
      reads this
    {
      v.exp * skinv % q == 1 && v.base in union
    }

    // Received points are mapped through the old union; the rest become keys to decode.
    method MapKnown<H(!new)>(ideals: Ideals<E, H>, s1: seq<Point<E>>, ghost goal: set<E>, ghost good: set<H>)
      returns (ui: seq<E>, qkeys: seq<H>)
      requires 1 < q
      requires forall v :: v in s1 ==> if Known(v) then v.base in goal else ideals.Hash(v) in good
      ensures Elements(ui) <= goal && Elements(qkeys) <= good
      ensures forall v :: v in s1 ==> if Known(v) then v.base in ui else ideals.Hash(v) in qkeys
    {
      var htab := BuildHashLookup();
      ui, qkeys := [], [];
      for i := 0 to |s1|
        invariant Elements(ui) <= goal && Elements(qkeys) <= good
        invariant forall j :: 0 <= j < i ==> if Known(s1[j]) then s1[j].base in ui else ideals.Hash(s1[j]) in qkeys
      {
        assert s1[i] in s1;
        var h := Raise(q, s1[i], skinv);
        if h in htab {
          ElementsConcat(ui, [htab[h]]);
          ui := ui + [htab[h]];
        } else {
          ElementsConcat(qkeys, [ideals.Hash(s1[i])]);
          qkeys := qkeys + [ideals.Hash(s1[i])];
        }
      }
    }

    // Keys are decoded in both OKVS instances; a pair is accepted if the tag fits the element.
    method DecodeRest<H(!new, ==)>(ideals: Ideals<E, H>, qkeys: seq<H>, ys: H -> E, tags: H -> H, ui: seq<E>,
        ghost goal: set<E>) returns (all: seq<E>)
      requires Keyed() && Elements(ui) <= goal
      requires forall key :: key in qkeys && Accepts(ideals, sk, ys, tags, key) ==> ys(key) in goal
      ensures Elements(all) <= goal && Elements(ui) <= Elements(all)
      ensures forall key :: key in qkeys && Accepts(ideals, sk, ys, tags, key) ==> ys(key) in all
      ensures forall y :: y in all <==>
        y in ui || exists key :: key in qkeys && ys(key) == y && tags(key) == ideals.Hash(Point(y, sk))
    {
      all := ui;
      for i := 0 to |qkeys|
        invariant Elements(all) <= goal && Elements(ui) <= Elements(all)
        invariant forall j :: 0 <= j < i && Accepts(ideals, sk, ys, tags, qkeys[j]) ==> ys(qkeys[j]) in all
        invariant forall y :: y in ui ==> y in all
        invariant forall y :: y in all ==>
          y in ui || exists key :: key in qkeys && ys(key) == y && tags(key) == ideals.Hash(Point(y, sk))
      {
        assert qkeys[i] in qkeys;
        var y := ys(qkeys[i]);
        var fk0 := PrfAll(q, [y], sk);
        if tags(qkeys[i]) == ideals.Hash(fk0[0]) {
          ElementsConcat(all, [y]);
          all := all + [y];
        }
      }
    }

    /** P0 turns the answer into the survivors and the peer's additions, whatever the blanks
        decode to. */
    method Merge<H(!new, ==)>(ideals: Ideals<E, H>, s1: seq<Point<E>>, ys: H -> E, tags: H -> H, ghost w: seq<E>,
        ghost plus: seq<E>, ghost e: nat, ghost b: seq<E>)
      returns (all: seq<E>)
      requires Keyed() && s1 == Under(w, sk) + Under(plus, e) + Under(b, sk)
      requires Elements(w) <= Elements(union) && Elements(b) !! Elements(union)
      requires AdditionsDecode(ideals, sk, ys, tags, plus, e) && BlanksRejected(ideals, sk, ys, tags, b, plus)
      ensures Elements(all) == Elements(w) + Elements(plus)
    {
      ghost var goal := Elements(w) + Elements(plus);
      ghost var good := set v | v in s1 && !Known(v) :: ideals.Hash(v);
      InUnder(w, sk);
      InUnder(plus, e);
      InUnder(b, sk);
      forall v | v in s1
        ensures if Known(v) then v.base in goal else
          ideals.Hash(v) in good && (Accepts(ideals, sk, ys, tags, ideals.Hash(v)) ==> ys(ideals.Hash(v)) in goal)
      {
        if v in Under(b, sk) {
          assert v == Point(v.base, sk) && v.base in b && v.base in Elements(b);
        } else if v in Under(plus, e) {
          assert v == Point(v.base, e) && v.base in plus;
        } else {
          assert v.base in Elements(w) && v.base in Elements(union);
        }
      }
      var ui, qkeys := MapKnown(ideals, s1, goal, good);
      forall key | key in qkeys && Accepts(ideals, sk, ys, tags, key) ensures ys(key) in goal {
        assert key in Elements(qkeys);
      }
      all := DecodeRest(ideals, qkeys, ys, tags, ui, goal);
      forall x | x in w ensures x in Elements(all) {
        assert x in Elements(w) && x in Elements(union);
        assert Point(x, sk) in s1 && Known(Point(x, sk));
        assert x in Elements(ui);
      }
      forall y | y in plus ensures y in Elements(all) {
        assert Point(y, e) in s1;
        if Known(Point(y, e)) {
          assert y in Elements(ui);
        }
      }
    }

    // The own updates and the new union enter the state.
    method Adopt(req: Request<E>, u: seq<E>, ghost peer: set<E>)
      requires Distinct(u) && Elements(u) == After(held, req) + peer
      modifies this
      ensures held == After(old(held), req) && union == u && Agreed(held, peer, union, peerExcl)
    {
      var minus, plus := set e | e in req.minus, set e | e in req.plus;
      held := (held - minus) + plus;
      assert held == After(old(held), req);
      union := u;
      SetPeerExcl();
    }
  }

  ghost predicate Accepts<E(!new), H(!new)>(ideals: Ideals<E, H>, k0: nat, ys: H -> E, tags: H -> H, key: H)
  {
    tags(key) == ideals.Hash(Point(ys(key), k0))
  }

  // Both instances decode an addition's blinded point to the addition and its tag.
  ghost predicate AdditionsDecode<E(!new), H(!new)>(ideals: Ideals<E, H>, k0: nat, ys: H -> E, tags: H -> H,
      plus: seq<E>, e: nat)
  {
    forall y :: y in plus ==>
      var key := ideals.Hash(Point(y, e));
      ys(key) == y && Accepts(ideals, k0, ys, tags, key)
  }

  // No blank decodes to a fitting pair of an element and a tag by accident.
  ghost predicate BlanksRejected<E(!new), H(!new)>(ideals: Ideals<E, H>, k0: nat, ys: H -> E, tags: H -> H, b: seq<E>,
      plus: seq<E>)
  {
    forall x :: x in b ==>
      var key := ideals.Hash(Point(x, k0));
      Accepts(ideals, k0, ys, tags, key) ==> ys(key) in plus
  }

  // ----- A round -----

  // The random choices of P0 and P1 in one round.
  datatype Coins0<E> = Coins0(dummies: seq<E>, r: nat, rinv: nat, blanks: seq<E>)

  datatype Coins1<E, H> = Coins1(dummies: seq<E>, r: nat, rinv: nat, rp: nat, fillKeys: seq<H>, fillYs: seq<E>,
      fillTags: seq<H>)

  // One round's requests, public caps and coins.
  datatype Step<E, H> = Step(reqX: Request<E>, reqY: Request<E>, addMax: nat, subMax: nat, coins0: Coins0<E>,
      coins1: Coins1<E, H>)
  {
    function Keys(hashed: seq<H>): seq<H> { hashed + coins1.fillKeys }
    function Ys(): seq<E> { reqY.plus + coins1.fillYs }
    function Tags(hashed: seq<H>): seq<H> { hashed + coins1.fillTags }

    // The blanks that P1 sends back.
    function Returned(): seq<E>
      requires |reqY.plus| <= |coins0.blanks|
    {
      coins0.blanks[..|coins0.blanks| - |reqY.plus|]
    }
  }

  ghost predicate PoolOk<E(!new)>(dummies: seq<E>, r: nat, rinv: nat, q: nat, size: int, all: set<E>)
  {
    IsKey(q, r, rinv) && |dummies| == size && Distinct(dummies) && Elements(dummies) !! all
  }

  ghost function PointsAt<E(!new)>(s: set<E>, e: nat): set<Point<E>>
  {
    set x | x in s :: Point(x, e)
  }

  // The points that the two parties may enter into the intersection: what they offer and their
  // dummies under both keys, and each party's dummies under one more of its key.
  ghost function Entered<E(!new), H>(q: nat, k0: nat, k1: nat, x: set<E>, y: set<E>, t: Step<E, H>): set<Point<E>>
    requires 0 < q
  {
    var kk, d0, d1 := k0 * k1 % q, Elements(t.coins0.dummies), Elements(t.coins1.dummies);
    PointsAt(Offered(x, x + y, t.reqX) + Offered(y, x + y, t.reqY) + d0 + d1, kk)
    + PointsAt(d0, kk * k0 % q) + PointsAt(d1, kk * k1 % q)
  }

  // Dummies, blanks and fillers are drawn outside what they must avoid, and no accident of
  // negligible probability happens.
  ghost predicate Lucky<E(!new), H(!new)>(ideals: Ideals<E, H>, k0: nat, k1: nat, x: set<E>, y: set<E>, t: Step<E, H>)
  {
    var c0, c1, u := t.coins0, t.coins1, x + y;
    var all := u + Elements(t.reqX.minus) + Elements(t.reqY.minus) + Elements(t.reqY.plus);
    && PoolOk(c0.dummies, c0.r, c0.rinv, ideals.q, PoolSize(x, u, t.reqX, t.addMax, t.subMax), all)
    && PoolOk(c1.dummies, c1.r, c1.rinv, ideals.q, PoolSize(y, u, t.reqY, t.addMax, t.subMax),
        all + Elements(c0.dummies))
    && |c0.blanks| == t.addMax && Elements(c0.blanks) !! u
    && |c1.fillKeys| == |c1.fillYs| == |c1.fillTags| == t.addMax - |t.reqY.plus|
    && 0 < ideals.q && |t.reqY.plus| <= t.addMax
    && ideals.CollisionFree(Entered(ideals.q, k0, k1, x, y, t))
    && PairDecodes(ideals, k0, t, t.Keys(Hashes(ideals, Under(t.reqY.plus, k0 * c1.rp % ideals.q))),
        t.Tags(Hashes(ideals, Under(t.reqY.plus, k0))))
  }

  // The OKVS pair of the round decodes what is encoded in it, and no blank by accident.
  ghost predicate PairDecodes<E(!new), H(!new)>(ideals: Ideals<E, H>, k0: nat, t: Step<E, H>, keys: seq<H>,
      tags: seq<H>)
    requires |t.reqY.plus| <= |t.coins0.blanks|
  {
    && ideals.Decodes(keys, t.Ys(), tags)
    && BlanksRejected(ideals, k0, ideals.Additions(keys, t.Ys()), ideals.Tags(keys, tags), t.Returned(), t.reqY.plus)
  }

  // The OKVS pair holds every addition.
  lemma AdditionsAreHeld<E(!new), H(!new)>(ideals: Ideals<E, H>, k0: nat, t: Step<E, H>, e: nat, keys: seq<H>,
      tags: seq<H>)
    requires keys == t.Keys(Hashes(ideals, Under(t.reqY.plus, e)))
    requires tags == t.Tags(Hashes(ideals, Under(t.reqY.plus, k0)))
    requires ideals.Decodes(keys, t.Ys(), tags)
    ensures AdditionsDecode(ideals, k0, ideals.Additions(keys, t.Ys()), ideals.Tags(keys, tags), t.reqY.plus, e)
  {
    var plus := t.reqY.plus;
    forall y | y in plus
      ensures var key := ideals.Hash(Point(y, e));
        ideals.Additions(keys, t.Ys())(key) == y && Accepts(ideals, k0, ideals.Additions(keys, t.Ys()),
            ideals.Tags(keys, tags), key)
    {
      var i :| 0 <= i < |plus| && plus[i] == y;
      assert keys[i] == ideals.Hash(Point(y, e)) && t.Ys()[i] == y && tags[i] == ideals.Hash(Point(y, k0));
    }
  }

  /** The deletion phase: both parties learn the points of what leaves the union. */
  method Deletion<E(!new, ==), H(!new, ==)>(ideals: Ideals<E, H>, psi0: seq<Point<E>>, psi1: seq<Point<E>>,
      ghost b0: seq<E>, ghost d0: seq<E>, ghost b1: seq<E>, ghost d1: seq<E>, ghost kk: nat, ghost m0: nat,
      ghost m1: nat, ghost size: nat, ghost pts: set<Point<E>>)
    returns (u0: seq<Point<E>>, u1: seq<Point<E>>)
    requires PsiList(psi0, b0, kk, m0, d0, size) && PsiList(psi1, b1, kk, m1, d1, size)
    requires forall x :: x in d0 ==> x !in b1 && x !in d1
    requires forall x :: x in d1 ==> x !in b0
    requires ideals.CollisionFree(pts) && Elements(psi0) <= pts && Elements(psi1) <= pts
    ensures u0 == u1 == Under(Common(b0, b1), kk)
  {
    var h0 := HashPRFSet(ideals, psi0);
    var h1 := HashPRFSet(ideals, psi1);
    u0, u1 := [], [];
    ghost var c := Common(psi0, psi1);
    PsiCommon(psi0, b0, d0, psi1, b1, d1, kk, m0, m1, size);
    CommonMeaning(psi0, psi1);
    forall p | p in c ensures p in psi0 && p in psi1 {
      assert p in Elements(c);
    }
    if 0 < |psi0| {
      var z := IntersectHashes(ideals, h0, h1, psi0, psi1, pts);
      u0 := UnhashPRFSet(ideals, z, psi0, c, pts);
      u1 := UnhashPRFSet(ideals, z, psi1, c, pts);
    }
  }

  // The ideal intersection of two lists of the same size; the receiver encodes its list in an
  // OKVS, so it must not repeat a hash.
  method IntersectHashes<E(!new), H(!new, ==)>(ideals: Ideals<E, H>, h0: seq<H>, h1: seq<H>,
      ghost psi0: seq<Point<E>>, ghost psi1: seq<Point<E>>, ghost pts: set<Point<E>>)
    returns (z: seq<H>)
    requires ideals.CollisionFree(pts) && Elements(psi0) <= pts && Elements(psi1) <= pts
    requires h0 == Hashes(ideals, psi0) && h1 == Hashes(ideals, psi1) && Distinct(psi0) && |h0| == |h1|
    ensures Distinct(h0) && z == Hashes(ideals, Common(psi0, psi1))
  {
    HashesDistinct(ideals, psi0, pts);
    CommonHashes(ideals, psi0, psi1, pts);
    z := Common(h0, h1);
  }

  // ----- Two parties -----

  ghost predicate Ready<E(!new), H(!new)>(ideals: Ideals<E, H>, p0: Party<E>, p1: Party<E>)
    reads p0, p1
  {
    && p0 != p1 && p0.q == p1.q == ideals.q && p0.Keyed() && p1.Keyed() && p0.sk != 1 && p1.sk != 1
    && Agreed(p0.held, p1.held, p0.union, p0.peerExcl)
    && Agreed(p1.held, p0.held, p1.union, p1.peerExcl)
  }

  // What both parties know of the round before it ends well.
  ghost predicate StepOk<E(!new), H(!new)>(ideals: Ideals<E, H>, k0: nat, k1: nat, x: set<E>, y: set<E>, t: Step<E, H>)
  {
    WithinCaps(t.reqX, t.addMax, t.subMax) && WithinCaps(t.reqY, t.addMax, t.subMax) && Lucky(ideals, k0, k1, x, y, t)
  }

  // The lists of both parties for the intersection.
  ghost predicate Prepared<E(!new)>(psi0: seq<Point<E>>, b0: seq<E>, d0: seq<E>, psi1: seq<Point<E>>, b1: seq<E>,
      d1: seq<E>, kk: nat, m0: nat, m1: nat, size: nat, x: set<E>, y: set<E>, reqX: Request<E>, reqY: Request<E>)
  {
    && PsiList(psi0, b0, kk, m0, d0, size) && PsiList(psi1, b1, kk, m1, d1, size)
    && Distinct(b0) && Elements(b0) == Offered(x, x + y, reqX) && Elements(b1) == Offered(y, x + y, reqY)
  }

  /** Preprocessing and deletion: it goes through exactly when both pools of dummies last. */
  method Delete<E(!new, ==), H(!new, ==)>(ideals: Ideals<E, H>, p0: Party<E>, p1: Party<E>, t: Step<E, H>)
    returns (ok: bool, queried: (nat, nat), entered: (nat, nat), u0: seq<Point<E>>, u1: seq<Point<E>>, ghost d: seq<E>)
    requires Ready(ideals, p0, p1) && StepOk(ideals, p0.sk, p1.sk, p0.held, p1.held, t)
    modifies p0`prfPeerExcl, p0`prfOwnAdd, p0`prfOwnDel, p1`prfPeerExcl, p1`prfOwnAdd, p1`prfOwnDel
    ensures ok <==>
      PoolLasts(p0.held, p0.held + p1.held, t.reqX, t.addMax, t.subMax)
      && PoolLasts(p1.held, p0.held + p1.held, t.reqY, t.addMax, t.subMax)
    ensures ok ==> u0 == u1 == Under(d, p1.Both(p0.sk)) && Distinct(d)
    ensures ok ==>
      Elements(d) == Offered(p0.held, p0.held + p1.held, t.reqX) * Offered(p1.held, p0.held + p1.held, t.reqY)
    ensures ok ==> queried.0 == queried.1 == |p0.union| + t.addMax + t.subMax
    ensures ok ==> entered.0 == entered.1 == |p0.union| + t.subMax
    ensures ok ==> p1.prfOwnAdd == Under(t.reqY.plus, p1.Both(p0.sk))
  {
    hide PoolLasts, Lucky, PsiList, PoolOk, PoolSize, Offered, IsKey, Base, Agreed, Distinct, Common;
    u0, u1, d, queried, entered := [], [], [], (0, 0), (0, 0);
    KeysMeet(p0, p1);
    PoolsFit(ideals, p0.sk, p1.sk, p0.held, p1.held, t);
    SameUnion(p0.held, p1.held, p0.union, p1.union, p0.peerExcl, p1.peerExcl);
    ghost var kk, b0, b1 := p1.Both(p0.sk), Base(p0.peerExcl, t.reqX), Base(p1.peerExcl, t.reqY);
    BaseIsOffered(p0.held, p0.held + p1.held, p0.peerExcl, t.reqX);
    BaseIsOffered(p1.held, p0.held + p1.held, p1.peerExcl, t.reqY);
    var ok0, n0, psi0 := p0.Preprocess(t.reqX, t.addMax, t.subMax, t.coins0.dummies, t.coins0.r, t.coins0.rinv, p1.sk,
        p1.held);
    var ok1, n1, psi1 := p1.Preprocess(t.reqY, t.addMax, t.subMax, t.coins1.dummies, t.coins1.r, t.coins1.rinv, p0.sk,
        p0.held);
    ok := ok0 && ok1;
    if ok {
      d := Common(b0, b1);
      CommonMeaning(b0, b1);
      u0, u1 := DeleteWith(ideals, psi0, psi1, b0, b1, |p0.union| + t.subMax, p0.sk, p1.sk, p0.held, p1.held, t);
      queried, entered := (n0, n1), (|psi0|, |psi1|);
    }
  }

  lemma SameUnion<E(!new)>(x: set<E>, y: set<E>, u0: seq<E>, u1: seq<E>, excl0: seq<E>, excl1: seq<E>)
    requires Agreed(x, y, u0, excl0) && Agreed(y, x, u1, excl1)
    ensures Elements(u0) == Elements(u1) == x + y && |u0| == |u1| == |x + y|
    ensures Distinct(u0) && Distinct(excl0) && Elements(excl0) == x + y - x
    ensures Distinct(u1) && Distinct(excl1) && Elements(excl1) == x + y - y
  {
    ElementsSize(u0);
    ElementsSize(u1);
  }

  lemma KeysMeet<E(!new)>(p0: Party<E>, p1: Party<E>)
    requires p0.q == p1.q && p0.Keyed() && p1.Keyed() && p0.sk != 1 && p1.sk != 1
    ensures p0.sk < p0.q && p1.sk < p0.q && p0.Both(p1.sk) == p1.Both(p0.sk)
    ensures p0.Both(p1.sk) * p0.sk % p0.q != p0.Both(p1.sk) && p1.Both(p0.sk) * p1.sk % p1.q != p1.Both(p0.sk)
  {
    RaisedAgainMoves(p0.q, p0.sk, p0.skinv, p1.sk, p1.skinv);
    RaisedAgainMoves(p0.q, p1.sk, p1.skinv, p0.sk, p0.skinv);
    assert p1.sk * p0.sk == p0.sk * p1.sk;
  }

  lemma PoolsFit<E(!new), H(!new)>(ideals: Ideals<E, H>, k0: nat, k1: nat, x: set<E>, y: set<E>, t: Step<E, H>)
    requires StepOk(ideals, k0, k1, x, y, t)
    ensures PoolOk(t.coins0.dummies, t.coins0.r, t.coins0.rinv, ideals.q, PoolSize(x, x + y, t.reqX, t.addMax,
        t.subMax), x + y + Elements(t.reqX.minus))
    ensures PoolOk(t.coins1.dummies, t.coins1.r, t.coins1.rinv, ideals.q, PoolSize(y, x + y, t.reqY, t.addMax,
        t.subMax), x + y + Elements(t.reqY.minus))
  {
  }

  method DeleteWith<E(!new, ==), H(!new, ==)>(ideals: Ideals<E, H>, psi0: seq<Point<E>>, psi1: seq<Point<E>>,
      ghost b0: seq<E>, ghost b1: seq<E>, ghost size: nat, ghost k0: nat, ghost k1: nat, ghost x: set<E>,
      ghost y: set<E>, ghost t: Step<E, H>)
    returns (u0: seq<Point<E>>, u1: seq<Point<E>>)
    requires StepOk(ideals, k0, k1, x, y, t)
    requires var kk := k0 * k1 % ideals.q;
      Prepared(psi0, b0, t.coins0.dummies, psi1, b1, t.coins1.dummies, kk, kk * k0 % ideals.q, kk * k1 % ideals.q,
          size, x, y, t.reqX, t.reqY)
    ensures u0 == u1 == Under(Common(b0, b1), k0 * k1 % ideals.q) && |psi0| == |psi1| == size
  {
    ghost var d0, d1, kk := t.coins0.dummies, t.coins1.dummies, k0 * k1 % ideals.q;
    ghost var m0, m1 := kk * k0 % ideals.q, kk * k1 % ideals.q;
    ghost var all := x + y + Elements(t.reqX.minus) + Elements(t.reqY.minus) + Elements(t.reqY.plus);
    ApartFrom(d1, b0, all + Elements(d0));
    ApartFrom(d0, b1, all);
    ApartFrom(d1, d0, all + Elements(d0));
    PsiPoints(psi0, b0, d0, kk, m0, size);
    PsiPoints(psi1, b1, d1, kk, m1, size);
    u0, u1 := Deletion(ideals, psi0, psi1, b0, d0, b1, d1, kk, m0, m1, size, Entered(ideals.q, k0, k1, x, y, t));
  }

  lemma PsiPoints<E(!new)>(p: seq<Point<E>>, b: seq<E>, d: seq<E>, kk: nat, more: nat, size: nat)
    requires PsiList(p, b, kk, more, d, size)
    ensures Elements(p) <= PointsAt(Elements(b) + Elements(d), kk) + PointsAt(Elements(d), more)
  {
    forall x | x in Elements(p) ensures x in PointsAt(Elements(b) + Elements(d), kk) + PointsAt(Elements(d), more) {
      var i :| 0 <= i < |p| && p[i] == x;
      if i < |b| {
        assert p[i] == p[..|b|][i] == Point(b[i], kk);
        assert b[i] in Elements(b);
      } else {
        assert p[i].base in Elements(d) && p[i] == Point(p[i].base, p[i].exp);
      }
    }
  }

  // The receiver's size check on P1's answer.
  lemma SizeCheck<E(!new)>(u: seq<E>, d: seq<E>)
    requires Distinct(u) && Distinct(d)
    ensures |Without(u, d)| + |d| == |u| <==> Elements(d) <= Elements(u)
  {
    var both := Elements(u) * Elements(d);
    WithoutSize(u, d);
    ElementsSize(d);
    SubsetSize(both, Elements(d));
    if Elements(d) <= Elements(u) {
      assert both == Elements(d);
    }
  }

  lemma DeletedInside<E(!new)>(x: set<E>, y: set<E>, reqX: Request<E>, reqY: Request<E>)
    ensures Offered(x, x + y, reqX) * Offered(y, x + y, reqY) <= x + y <==>
        Elements(reqX.minus) * Elements(reqY.minus) <= x + y
  {
  }

  // What luck means for the addition phase.
  lemma LuckyAdditions<E(!new), H(!new)>(ideals: Ideals<E, H>, k0: nat, k1: nat, x: set<E>, y: set<E>, t: Step<E, H>)
    requires StepOk(ideals, k0, k1, x, y, t)
    ensures |t.coins0.blanks| == t.addMax && |t.reqY.plus| <= t.addMax && Elements(t.Returned()) !! x + y
    ensures |t.coins1.fillKeys| == |t.coins1.fillYs| == |t.coins1.fillTags| == t.addMax - |t.reqY.plus|
    ensures 0 < ideals.q
    ensures var e := k0 * t.coins1.rp % ideals.q;
      PairDecodes(ideals, k0, t, t.Keys(Hashes(ideals, Under(t.reqY.plus, e))),
          t.Tags(Hashes(ideals, Under(t.reqY.plus, k0))))
  {
    assert Elements(t.Returned()) <= Elements(t.coins0.blanks);
  }

  // The OKVS pair of P1: keys, elements and tags.
  method EncodeAdditions<E(!new), H(!new)>(ideals: Ideals<E, H>, p1: Party<E>, masked: seq<Point<E>>, t: Step<E, H>,
      ghost e: nat, ghost k0: nat)
    returns (keys: seq<H>, ys: H -> E, tags: H -> H)
    requires p1.Keyed() && p1.q == ideals.q && k0 < p1.q && masked == Under(t.reqY.plus, e) &&
        p1.prfOwnAdd == Under(t.reqY.plus, p1.Both(k0))
    ensures keys == t.Keys(Hashes(ideals, Under(t.reqY.plus, e)))
    ensures ys == ideals.Additions(keys, t.Ys()) && tags == ideals.Tags(keys, t.Tags(Hashes(ideals, Under(t.reqY.plus,
        k0))))
  {
    var hashed := HashPRFSet(ideals, masked);
    StripRaised(p1.q, k0, p1.sk, p1.skinv);
    var own := RaiseAll(p1.q, p1.prfOwnAdd, p1.skinv, t.reqY.plus, p1.Both(k0));
    var hashedTags := HashPRFSet(ideals, own);
    keys := t.Keys(hashed);
    ys, tags := ideals.Additions(keys, t.Ys()), ideals.Tags(keys, t.Tags(hashedTags));
  }

  // What may be read off the channel in a successful round.
  datatype Wire = Wire(queries: (nat, nat), entered: (nat, nat), known: nat, blanks: nat, answer: int, pairs: nat,
      union: nat)

  /** The addition phase: P0 accepts P1's answer exactly when nothing outside the union was
      deleted by both, and then holds the survivors and P1's additions. */
  method Add<E(!new, ==), H(!new, ==)>(ideals: Ideals<E, H>, p0: Party<E>, p1: Party<E>, t: Step<E, H>,
      u0: seq<Point<E>>, u1: seq<Point<E>>, ghost d: seq<E>)
    returns (ok: bool, all: seq<E>, known: nat, blanks: nat, answer: nat, pairs: nat)
    requires Ready(ideals, p0, p1) && StepOk(ideals, p0.sk, p1.sk, p0.held, p1.held, t)
    requires u0 == u1 == Under(d, p1.Both(p0.sk)) && Distinct(d) && p1.prfOwnAdd == Under(t.reqY.plus, p1.Both(p0.sk))
    requires Elements(d) == Offered(p0.held, p0.held + p1.held, t.reqX) * Offered(p1.held, p0.held + p1.held, t.reqY)
    ensures ok <==> Elements(t.reqX.minus) * Elements(t.reqY.minus) <= p0.held + p1.held
    ensures ok ==> Elements(all) == (p0.held + p1.held - Elements(d)) + Elements(t.reqY.plus)
    ensures ok ==> known == |p0.union| && blanks == pairs == t.addMax && answer + |d| == |p0.union| + t.addMax
  {
    hide Offered, Lucky, Agreed, Distinct, Without, WithinCaps, Hashes, BlanksRejected, AdditionsDecode;
    SameUnion(p0.held, p1.held, p0.union, p1.union, p0.peerExcl, p1.peerExcl);
    SizeCheck(p0.union, d);
    DeletedInside(p0.held, p1.held, t.reqX, t.reqY);
    LuckyAdditions(ideals, p0.sk, p1.sk, p0.held, p1.held, t);
    WithoutMeaning(p0.union, d);
    var fk0 := PrfAll(p0.q, p0.union, p0.sk);
    var blankPoints := PrfAll(p0.q, t.coins0.blanks, p0.sk);
    known, blanks, pairs := |fk0|, |blankPoints|, 0;
    var masked, s1 := p1.BuildS1(fk0, blankPoints, u1, t.coins1.rp, p0.union, d, t.reqY.plus, t.coins0.blanks, p0.sk);
    answer, all := |s1|, [];
    ghost var e := p0.sk * t.coins1.rp % p0.q;
    var keys, ys, tags := EncodeAdditions(ideals, p1, masked, t, e, p0.sk);
    pairs := |keys|;
    ok := |s1| + |u0| == |p0.union| + t.addMax;
    if ok {
      AdditionsAreHeld(ideals, p0.sk, t, e, keys, t.Tags(Hashes(ideals, Under(t.reqY.plus, p0.sk))));
      all := p0.Merge(ideals, s1, ys, tags, Without(p0.union, d), t.reqY.plus, e, t.Returned());
    }
  }

  // A set laid out as a list.
  method Listed<E(!new, ==)>(s: set<E>) returns (l: seq<E>)
    ensures Distinct(l) && Elements(l) == s
  {
    l := [];
    var rest := s;
    while rest != {}
      invariant Distinct(l) && Elements(l) == s - rest && rest <= s
      decreases |rest|
    {
      var x :| x in rest;
      assert x !in Elements(l);
      assert Elements(l + [x]) == Elements(l) + {x};
      l, rest := l + [x], rest - {x};
    }
  }

  /** One round: it passes all its checks exactly when the dummies last and nothing outside the
      union is deleted by both. Then both parties hold the union of the updated sets, and the
      sizes on the channel depend on public counts only. */
  method Round<E(!new, ==), H(!new, ==)>(ideals: Ideals<E, H>, p0: Party<E>, p1: Party<E>, t: Step<E, H>)
    returns (ok: bool, wire: Wire)
    requires Ready(ideals, p0, p1) && StepOk(ideals, p0.sk, p1.sk, p0.held, p1.held, t)
    modifies p0, p1
    ensures Ready(ideals, p0, p1)
    ensures ok <==> Succeeds(old(p0.held), old(p1.held), t.reqX, t.reqY, t.addMax, t.subMax)
    ensures !ok ==> p0.held == old(p0.held) && p1.held == old(p1.held)
    ensures !ok ==> p0.union == old(p0.union) && p1.union == old(p1.union)
    ensures ok ==> p0.held == After(old(p0.held), t.reqX) && p1.held == After(old(p1.held), t.reqY)
    ensures ok ==> p0.union == p1.union
    ensures ok ==>
      wire == PublicWire(|old(p0.union)|, Gone(old(p0.held), old(p1.held), t), |p0.union|, t.addMax, t.subMax)
  {
    hide Offered, PoolLasts, PoolOk, PoolSize, Lucky, Agreed;
    wire := Wire((0, 0), (0, 0), 0, 0, 0, 0, 0);
    var queried, entered, u0, u1;
    ghost var d;
    ok, queried, entered, u0, u1, d := Delete(ideals, p0, p1, t);
    if ok {
      var all, known, blanks, answer, pairs;
      ok, all, known, blanks, answer, pairs := Add(ideals, p0, p1, t, u0, u1, d);
      if ok {
        OffersMeetInDeleted(p0.held, p1.held, t.reqX, t.reqY);
        ElementsSize(d);
        Finish(ideals, p0, p1, t, all);
        wire := Wire(queried, entered, known, blanks, answer, pairs, |p1.union|);
      }
    }
  }

  // How many elements leave the union.
  ghost function Gone<E(!new), H>(x: set<E>, y: set<E>, t: Step<E, H>): nat
  {
    |Offered(x, x + y, t.reqX) * Offered(y, x + y, t.reqY)|
  }

  ghost function PublicWire(u: nat, gone: nat, u': nat, addMax: nat, subMax: nat): Wire
  {
    Wire((u + addMax + subMax, u + addMax + subMax), (u + subMax, u + subMax), u, addMax, u + addMax - gone, addMax, u')
  }

  // P0 adds its own additions, sends the union, and both parties adopt it.
  method Finish<E(!new, ==), H(!new)>(ghost ideals: Ideals<E, H>, p0: Party<E>, p1: Party<E>, t: Step<E, H>,
      all: seq<E>)
    requires Ready(ideals, p0, p1)
    requires Elements(all) + Elements(t.reqX.plus) == After(p0.held, t.reqX) + After(p1.held, t.reqY)
    modifies p0, p1
    ensures Ready(ideals, p0, p1)
    ensures p0.held == After(old(p0.held), t.reqX) && p1.held == After(old(p1.held), t.reqY) && p0.union == p1.union
  {
    var set' := (set x | x in all) + (set x | x in t.reqX.plus);
    var u := Listed(set');
    ghost var y := After(p1.held, t.reqY);
    p0.Adopt(t.reqX, u, y);
    p1.Adopt(t.reqY, u, p0.held);
  }

  // ----- Any number of rounds -----

  // Both sets after some rounds.
  ghost function SetsAfter<E(!new), H>(x: set<E>, y: set<E>, steps: seq<Step<E, H>>): (set<E>, set<E>)
  {
    if steps == [] then (x, y) else
      var (x', y') := SetsAfter(x, y, steps[..|steps| - 1]);
      var t := steps[|steps| - 1];
      (After(x', t.reqX), After(y', t.reqY))
  }

  ghost predicate StepOkAt<E(!new), H(!new)>(ideals: Ideals<E, H>, k0: nat, k1: nat, x: set<E>, y: set<E>,
      steps: seq<Step<E, H>>, i: nat)
    requires i < |steps|
  {
    var (x', y') := SetsAfter(x, y, steps[..i]);
    StepOk(ideals, k0, k1, x', y', steps[i])
  }

  ghost predicate SucceedsAt<E(!new), H>(x: set<E>, y: set<E>, steps: seq<Step<E, H>>, i: nat)
    requires i < |steps|
  {
    var (x', y') := SetsAfter(x, y, steps[..i]);
    Succeeds(x', y', steps[i].reqX, steps[i].reqY, steps[i].addMax, steps[i].subMax)
  }

  // Round i, from the sets that the rounds before it lead to.
  method RoundAt<E(!new, ==), H(!new, ==)>(ideals: Ideals<E, H>, p0: Party<E>, p1: Party<E>, ghost x: set<E>,
      ghost y: set<E>, steps: seq<Step<E, H>>, i: nat) returns (ok: bool)
    requires Ready(ideals, p0, p1) && i < |steps| && StepOkAt(ideals, p0.sk, p1.sk, x, y, steps, i)
    requires (p0.held, p1.held) == SetsAfter(x, y, steps[..i])
    modifies p0, p1
    ensures Ready(ideals, p0, p1)
    ensures ok <==> SucceedsAt(x, y, steps, i)
    ensures (p0.held, p1.held) == SetsAfter(x, y, if ok then steps[..i + 1] else steps[..i])
  {
    hide StepOk, Succeeds, SetsAfter, After, Ready;
    NextSets(x, y, steps, i);
    var wire;
    ok, wire := Round(ideals, p0, p1, steps[i]);
  }

  /** Any number of rounds: unless a round fails its checks, both parties end with the union of
      their updated sets. */
  method Rounds<E(!new, ==), H(!new, ==)>(ideals: Ideals<E, H>, p0: Party<E>, p1: Party<E>, steps: seq<Step<E, H>>)
    returns (done: nat)
    requires Ready(ideals, p0, p1)
    requires forall i :: 0 <= i < |steps| ==> StepOkAt(ideals, p0.sk, p1.sk, p0.held, p1.held, steps, i)
    modifies p0, p1
    ensures done <= |steps| && Ready(ideals, p0, p1)
    ensures (p0.held, p1.held) == SetsAfter(old(p0.held), old(p1.held), steps[..done])
    ensures forall i :: 0 <= i < done ==> SucceedsAt(old(p0.held), old(p1.held), steps, i)
    ensures done < |steps| ==> !SucceedsAt(old(p0.held), old(p1.held), steps, done)
    ensures Elements(p0.union) == Elements(p1.union) == p0.held + p1.held
  {
    hide StepOkAt, SucceedsAt, SetsAfter, Agreed;
    done := 0;
    ghost var x, y := p0.held, p1.held;
    assert (x, y) == SetsAfter(x, y, steps[..0]) by { NoSets(x, y, steps[..0]); }
    while done < |steps|
      invariant done <= |steps| && Ready(ideals, p0, p1)
      invariant (p0.held, p1.held) == SetsAfter(x, y, steps[..done])
      invariant forall i :: 0 <= i < done ==> SucceedsAt(x, y, steps, i)
    {
      var ok := RoundAt(ideals, p0, p1, x, y, steps, done);
      if !ok {
        break;
      }
      done := done + 1;
    }
    SameUnion(p0.held, p1.held, p0.union, p1.union, p0.peerExcl, p1.peerExcl);
  }

  lemma NoSets<E(!new), H>(x: set<E>, y: set<E>, steps: seq<Step<E, H>>)
    requires steps == []
    ensures SetsAfter(x, y, steps) == (x, y)
  {
  }

  lemma NextSets<E(!new), H>(x: set<E>, y: set<E>, steps: seq<Step<E, H>>, i: nat)
    requires i < |steps|
    ensures var (x', y') := SetsAfter(x, y, steps[..i]);
      SetsAfter(x, y, steps[..i + 1]) == (After(x', steps[i].reqX), After(y', steps[i].reqY))
  {
    assert steps[..i + 1][..i] == steps[..i];
  }

  /** Parties that delete only what they hold never fail a round. */
  lemma OwnDeletionsSucceed<E(!new), H(!new)>(ideals: Ideals<E, H>, k0: nat, k1: nat, x: set<E>, y: set<E>,
      steps: seq<Step<E, H>>, i: nat)
    requires i < |steps| && StepOkAt(ideals, k0, k1, x, y, steps, i)
    requires Elements(steps[i].reqX.minus) <= SetsAfter(x, y, steps[..i]).0 &&
        Elements(steps[i].reqY.minus) <= SetsAfter(x, y, steps[..i]).1
    ensures SucceedsAt(x, y, steps, i)
  {
    var (x', y') := SetsAfter(x, y, steps[..i]);
    var t := steps[i];
    OwnDeletionsLast(x', x' + y', t.reqX, t.addMax, t.subMax);
    OwnDeletionsLast(y', x' + y', t.reqY, t.addMax, t.subMax);
  }
}
