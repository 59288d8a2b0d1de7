/** The steps of an update round that work on lists of points: blinded evaluation, the padded
    input of the intersection, and mapping hashed points back (examples/upsu/upsu.cc). */
module UpsuSteps {
  import opened Lists
  import opened Arithmetic
  import opened Upsu

  // Every point of a list raised to one key (RaiseToKey, StripKey with the inverse key).
  method RaiseAll<E>(q: nat, v: seq<Point<E>>, k: nat, ghost s: seq<E>, ghost e: nat) returns (out: seq<Point<E>>)
    requires 0 < q && v == Under(s, e)
    ensures out == Under(s, e * k % q)
  {
    out := [];
    for i := 0 to |v|
      invariant out == Under(s[..i], e * k % q)
    {
      out := out + [Raise(q, v[i], k)];
    }
    assert s[..|s|] == s;
  }

  // Elements hashed to the curve and raised to k: ComputeSinglePRF, and the blinded request.
  method PrfAll<E>(q: nat, inputs: seq<E>, k: nat) returns (out: seq<Point<E>>)
    requires 1 < q && k < q
    ensures out == Under(inputs, k)
  {
    out := [];
    for i := 0 to |inputs|
      invariant out == Under(inputs[..i], k)
    {
      var p := HashToCurve(inputs[i]);
      assert 1 * k % q == k by { assert 1 * k == k; DivModUnique(k, q, 0, k); }
      out := out + [Raise(q, p, k)];
    }
    assert inputs[..|inputs|] == inputs;
  }

  /** The blinding cancels: the receiver ends with its inputs under the sender's key. */
  method Mroprf<E>(q: nat, inputs: seq<E>, r: nat, rinv: nat, senderSk: nat)
    returns (request: seq<Point<E>>, vals: seq<Point<E>>)
    requires IsKey(q, r, rinv) && senderSk < q
    ensures |request| == |inputs| && vals == Under(inputs, senderSk)
  {
    request := PrfAll(q, inputs, r);
    var response := RaiseAll(q, request, senderSk, inputs, r);
    vals := RaiseAll(q, response, rinv, inputs, r * senderSk % q);
    assert r * senderSk == senderSk * r;
    StripRaised(q, senderSk, r, rinv);
  }

  // ----- The padded input of the intersection -----

  // Duplicates are dropped over both lists (psi_set).
  method Dedupe<E(!new, ==)>(first: seq<Point<E>>, second: seq<Point<E>>, ghost s: seq<E>, ghost t: seq<E>,
      ghost e: nat)
    returns (out: seq<Point<E>>)
    requires first == Under(s, e) && second == Under(t, e) && Distinct(s) && Distinct(t)
    ensures out == Under(s + Without(t, s), e)
  {
    var seen: set<Point<E>> := {};
    out := [];
    for i := 0 to |first|
      invariant out == first[..i] && (forall p :: p in seen <==> p in out)
    {
      assert first[i] !in first[..i];
      if first[i] !in seen {
        seen, out := seen + {first[i]}, out + [first[i]];
      }
    }
    InUnder(s, e);
    for i := 0 to |second|
      invariant out == first + Under(Without(t[..i], s), e)
      invariant forall p :: p in seen <==> p in out
    {
      WithoutMeaning(t[..i], s);
      InUnder(Without(t[..i], s), e);
      assert t[..i + 1][..i] == t[..i] && t[i] !in t[..i];
      assert t[i] in Without(t[..i], s) <==> t[i] in Elements(Without(t[..i], s));
      assert second[i] in out <==> t[i] in s;
      if second[i] !in seen {
        seen, out := seen + {second[i]}, out + [second[i]];
      }
    }
    assert t[..|t|] == t;
    assert Under(s + Without(t, s), e) == Under(s, e) + Under(Without(t, s), e);
  }

  // A list for the intersection: some elements under the common exponent kk, and padding built
  // on dummies under kk or one more exponent.
  ghost predicate PsiList<E>(p: seq<Point<E>>, b: seq<E>, kk: nat, more: nat, dummies: seq<E>, size: nat)
  {
    && |b| <= |p| == size && p[..|b|] == Under(b, kk) && Distinct(p)
    && forall i :: |b| <= i < |p| ==> p[i].base in dummies && (p[i].exp == kk || p[i].exp == more)
  }

  // Padding beyond the pool repeats dummies under one more exponent.
  function Padding<E>(q: nat, dummies: seq<E>, kk: nat, sk: nat, i: nat): (p: Point<E>)
    requires 0 < q && i < 2 * |dummies|
    ensures p.base in dummies && (p.exp == kk || p.exp == kk * sk % q)
  {
    if i < |dummies| then Point(dummies[i], kk) else Point(dummies[i - |dummies|], kk * sk % q)
  }

  /** Padding to a fixed size from the dummies at the end of vals. The pool of dummies is used
      at most twice; asking for more would read past the end of vals. */
  method Pad<E>(q: nat, start: seq<Point<E>>, vals: seq<Point<E>>, used: nat, size: nat, sk: nat,
                ghost b: seq<E>, ghost dummies: seq<E>, ghost peerSk: nat)
    returns (inRange: bool, out: seq<Point<E>>)
    requires 0 < q && used <= |vals| && vals[used..] == Under(dummies, peerSk) && |start| <= size
    requires start == Under(b, peerSk * sk % q) && Distinct(b) && Distinct(dummies)
    requires (forall x :: x in b ==> x !in dummies) && (peerSk * sk % q) * sk % q != peerSk * sk % q
    ensures inRange <==> size - |start| <= 2 * |dummies|
    ensures inRange ==> PsiList(out, b, peerSk * sk % q, (peerSk * sk % q) * sk % q, dummies, size)
  {
    ghost var kk := peerSk * sk % q;
    out := start;
    var nDummy, nPool := size - |start|, |vals| - used;
    assert nPool == |dummies|;
    var i := 0;
    while i < nDummy
      invariant 0 <= i <= nDummy && i <= 2 * nPool
      invariant |out| == |start| + i && out[..|b|] == start
      invariant forall j :: 0 <= j < i ==> out[|start| + j] == Padding(q, dummies, kk, sk, j)
    {
      var j := if i < nPool then i else i - nPool;
      if nPool <= j {
        return false, out;
      }
      assert vals[used + j] == vals[used..][j] == Point(dummies[j], peerSk);
      var d := Raise(q, vals[used + j], sk);
      if nPool <= i {
        d := Raise(q, d, sk);
      }
      out := out + [d];
      i := i + 1;
    }
    inRange := true;
    PaddedIsDistinct(q, out, b, kk, dummies, sk);
  }

  lemma PaddedIsDistinct<E>(q: nat, out: seq<Point<E>>, b: seq<E>, kk: nat, dummies: seq<E>, sk: nat)
    requires 0 < q && Distinct(b) && Distinct(dummies) && kk * sk % q != kk
    requires |b| <= |out| <= |b| + 2 * |dummies| && out[..|b|] == Under(b, kk) && forall x :: x in b ==> x !in dummies
    requires forall j :: 0 <= j < |out| - |b| ==> out[|b| + j] == Padding(q, dummies, kk, sk, j)
    ensures PsiList(out, b, kk, kk * sk % q, dummies, |out|)
  {
    forall i | |b| <= i < |out| ensures out[i] == Padding(q, dummies, kk, sk, i - |b|) {
      var j := i - |b|;
      assert out[|b| + j] == Padding(q, dummies, kk, sk, j);
    }
    forall i, j | 0 <= i < j < |out| ensures out[i] != out[j] {
      if i < |b| {
        assert out[i] == out[..|b|][i] == Point(b[i], kk);
        if j < |b| {
          assert out[j] == out[..|b|][j] == Point(b[j], kk);
        } else {
          assert b[i] in b;
        }
      }
    }
  }

  /** Only elements both lists enter meet in the intersection, never the padding. */
  lemma PsiCommon<E>(p0: seq<Point<E>>, b0: seq<E>, d0: seq<E>, p1: seq<Point<E>>, b1: seq<E>, d1: seq<E>, kk: nat,
      m0: nat, m1: nat, size: nat)
    requires PsiList(p0, b0, kk, m0, d0, size) && PsiList(p1, b1, kk, m1, d1, size)
    requires forall x :: x in d0 ==> x !in b1 && x !in d1
    requires forall x :: x in d1 ==> x !in b0
    ensures Common(p0, p1) == Under(Common(b0, b1), kk)
  {
    var first, rest := p0[..|b0|], p0[|b0|..];
    assert p0 == first + rest;
    CommonConcat(first, rest, p1);
    forall p | p in rest ensures p !in p1 {
      var i :| 0 <= i < |rest| && rest[i] == p;
      assert p == p0[|b0| + i];
      NotInPsi(p, p1, b1, d1, kk, m1, size);
    }
    CommonNone(rest, p1);
    forall x | x in b0 ensures Point(x, kk) in p1 <==> x in b1 {
      if x in b1 {
        var i :| 0 <= i < |b1| && b1[i] == x;
        assert p1[i] == p1[..|b1|][i] == Point(x, kk);
      } else {
        NotInPsi(Point(x, kk), p1, b1, d1, kk, m1, size);
      }
    }
    CommonUnder(b0, b1, kk, p1);
  }

  lemma NotInPsi<E>(p: Point<E>, p1: seq<Point<E>>, b1: seq<E>, d1: seq<E>, kk: nat, more: nat, size: nat)
    requires PsiList(p1, b1, kk, more, d1, size) && p.base !in b1 && p.base !in d1
    ensures p !in p1
  {
    forall i | 0 <= i < |p1| ensures p1[i] != p {
      if i < |b1| {
        assert p1[i] == p1[..|b1|][i] == Point(b1[i], kk);
      }
    }
  }

  // ----- Hashed points -----

  // The ideal parts of a round: a hash of points to 128 bits, and two OKVS instances.
  datatype Ideals<!E(!new), !H(!new)> = Ideals(q: nat, hash: Point<E> -> H, solveY: (seq<H>, seq<E>) -> (H -> E),
      solveTag: (seq<H>, seq<H>) -> (H -> H))
  {
    function Hash(p: Point<E>): H { hash(p) }

    function Additions(keys: seq<H>, ys: seq<E>): H -> E { solveY(keys, ys) }

    function Tags(keys: seq<H>, tags: seq<H>): H -> H { solveTag(keys, tags) }

    // Both instances decode what is encoded under these keys.
    ghost predicate Decodes(keys: seq<H>, ys: seq<E>, tags: seq<H>)
    {
      && Distinct(keys) && |keys| == |ys| == |tags|
      && (forall i :: 0 <= i < |keys| ==> Additions(keys, ys)(keys[i]) == ys[i])
      && (forall i :: 0 <= i < |keys| ==> Tags(keys, tags)(keys[i]) == tags[i])
    }

    // No two of these points share a hash.
    ghost predicate CollisionFree(pts: set<Point<E>>)
    {
      forall a, b :: a in pts && b in pts && Hash(a) == Hash(b) ==> a == b
    }
  }

  function Hashes<E(!new), H(!new)>(ideals: Ideals<E, H>, p: seq<Point<E>>): (h: seq<H>)
    ensures |h| == |p|
  {
    seq(|p|, i requires 0 <= i < |p| => ideals.Hash(p[i]))
  }

  method HashPRFSet<E(!new), H(!new)>(ideals: Ideals<E, H>, p: seq<Point<E>>) returns (h: seq<H>)
    ensures h == Hashes(ideals, p)
  {
    h := [];
    for i := 0 to |p|
      invariant h == Hashes(ideals, p[..i])
    {
      h := h + [ideals.Hash(p[i])];
    }
    assert p[..|p|] == p;
  }

  lemma HashesIn<E(!new), H(!new)>(ideals: Ideals<E, H>, x: Point<E>, p: seq<Point<E>>, pts: set<Point<E>>)
    requires ideals.CollisionFree(pts) && x in pts && Elements(p) <= pts
    ensures ideals.Hash(x) in Hashes(ideals, p) <==> x in p
  {
    if x in p {
      var i :| 0 <= i < |p| && p[i] == x;
      assert Hashes(ideals, p)[i] == ideals.Hash(x);
    }
    if ideals.Hash(x) in Hashes(ideals, p) {
      var i :| 0 <= i < |p| && Hashes(ideals, p)[i] == ideals.Hash(x);
      assert p[i] in p;
    }
  }

  lemma HashesDistinct<E(!new), H(!new)>(ideals: Ideals<E, H>, p: seq<Point<E>>, pts: set<Point<E>>)
    requires ideals.CollisionFree(pts) && Elements(p) <= pts && Distinct(p)
    ensures Distinct(Hashes(ideals, p))
  {
    forall i, j | 0 <= i < j < |p| ensures ideals.Hash(p[i]) != ideals.Hash(p[j]) {
      assert p[i] in p && p[j] in p;
    }
  }

  // Intersecting hashes is intersecting points.
  lemma {:induction false} CommonHashes<E(!new), H(!new)>(ideals: Ideals<E, H>, p0: seq<Point<E>>, p1: seq<Point<E>>,
      pts: set<Point<E>>)
    requires ideals.CollisionFree(pts) && Elements(p0) <= pts && Elements(p1) <= pts
    ensures Common(Hashes(ideals, p0), Hashes(ideals, p1)) == Hashes(ideals, Common(p0, p1))
  {
    if p0 != [] {
      var init, x := p0[..|p0| - 1], p0[|p0| - 1];
      assert Elements(init) <= pts by {
        assert forall y :: y in init ==> y in p0;
      }
      CommonHashes(ideals, init, p1, pts);
      assert Hashes(ideals, p0)[..|p0| - 1] == Hashes(ideals, init);
      assert x in p0;
      HashesIn(ideals, x, p1, pts);
    }
  }

  /** Hashes of some of the original points map back to these points. */
  method UnhashPRFSet<E(!new, ==), H(!new, ==)>(ideals: Ideals<E, H>, hashed: seq<H>, original: seq<Point<E>>,
      ghost c: seq<Point<E>>, ghost pts: set<Point<E>>)
    returns (out: seq<Point<E>>)
    requires ideals.CollisionFree(pts) && Elements(original) <= pts
    requires hashed == Hashes(ideals, c) && forall x :: x in c ==> x in original
    ensures out == c
  {
    var lookup: map<H, Point<E>> := map[];
    for i := 0 to |original|
      invariant forall j :: 0 <= j < i ==> ideals.Hash(original[j]) in lookup
      invariant forall h :: h in lookup ==> lookup[h] in pts && ideals.Hash(lookup[h]) == h
    {
      assert original[i] in original;
      lookup := lookup[ideals.Hash(original[i]) := original[i]];
    }
    out := [];
    for i := 0 to |hashed|
      invariant out == c[..i]
    {
      assert c[i] in c && c[i] in original;
      if hashed[i] in lookup {
        out := out + [lookup[hashed[i]]];
      }
    }
    assert c[..|c|] == c;
  }
}
