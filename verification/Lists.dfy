/** Lists without repetition, and the sets behind them. */
module Lists {

  predicate Distinct<T(==)>(s: seq<T>)
  {
    forall i, j :: 0 <= i < j < |s| ==> s[i] != s[j]
  }

  ghost function Elements<E(!new)>(s: seq<E>): set<E>
  {
    set x | x in s
  }

  lemma {:induction false} ElementsSize<E(!new)>(s: seq<E>)
    requires Distinct(s)
    ensures |Elements(s)| == |s|
  {
    if s != [] {
      var init, x := s[..|s| - 1], s[|s| - 1];
      ElementsSize(init);
      assert s == init + [x] && x !in init;
      assert Elements(s) == Elements(init) + {x};
      assert x !in Elements(init);
    }
  }

  lemma ElementsConcat<E(!new)>(s: seq<E>, t: seq<E>)
    ensures Elements(s + t) == Elements(s) + Elements(t)
    ensures Distinct(s) && Distinct(t) && Elements(s) !! Elements(t) ==> Distinct(s + t)
  {
    if Distinct(s) && Distinct(t) && Elements(s) !! Elements(t) {
      forall i, j | 0 <= i < j < |s + t| ensures (s + t)[i] != (s + t)[j] {
        if i < |s| <= j {
          assert s[i] in Elements(s) && t[j - |s|] in Elements(t);
        }
      }
    }
  }

  lemma SubsetSize<T(!new)>(a: set<T>, b: set<T>)
    requires a <= b
    ensures |a| <= |b| && (|a| == |b| ==> a == b)
  {
    assert b == a + (b - a);
  }

  lemma NoMembers<T(!new)>(s: set<T>)
    ensures (forall x :: x !in s) ==> s == {}
  {
    if forall x :: x !in s {
    }
  }

  lemma SomeMember<T(!new)>(s: set<T>) returns (x: T)
    requires s != {}
    ensures x in s
  {
    NoMembers(s);
    x :| x in s;
  }

  // The elements of s that are not in t, in order.
  function Without<E(==)>(s: seq<E>, t: seq<E>): seq<E>
  {
    if s == [] then [] else
      var w := Without(s[..|s| - 1], t);
      if s[|s| - 1] in t then w else w + [s[|s| - 1]]
  }

  lemma {:induction false} WithoutMeaning<E(!new)>(s: seq<E>, t: seq<E>)
    ensures Elements(Without(s, t)) == Elements(s) - Elements(t)
    ensures Distinct(s) ==> Distinct(Without(s, t))
    ensures |Without(s, t)| <= |s|
  {
    if s != [] {
      var init, x := s[..|s| - 1], s[|s| - 1];
      WithoutMeaning(init, t);
      assert s == init + [x];
      assert Elements(s) == Elements(init) + {x};
      if x !in t {
        assert Elements(Without(s, t)) == Elements(Without(init, t)) + {x};
        if Distinct(s) {
          assert x !in Elements(Without(init, t));
        }
      }
    }
  }

  // Removing one list's elements takes away as many as both lists share.
  lemma WithoutSize<E(!new)>(s: seq<E>, t: seq<E>)
    requires Distinct(s)
    ensures |Without(s, t)| == |s| - |Elements(s) * Elements(t)|
  {
    WithoutMeaning(s, t);
    ElementsSize(s);
    ElementsSize(Without(s, t));
    assert Elements(s) == (Elements(s) - Elements(t)) + (Elements(s) * Elements(t));
  }

  // The elements of s that are in t, in order.
  function Common<E(==)>(s: seq<E>, t: seq<E>): seq<E>
  {
    if s == [] then [] else
      var w := Common(s[..|s| - 1], t);
      if s[|s| - 1] in t then w + [s[|s| - 1]] else w
  }

  // What is left keeps its order.
  lemma {:induction false} WithoutConcat<E>(s: seq<E>, t: seq<E>, u: seq<E>)
    ensures Without(s + t, u) == Without(s, u) + Without(t, u)
    decreases |t|
  {
    if t == [] {
      assert s + t == s;
    } else {
      var init, x := t[..|t| - 1], t[|t| - 1];
      assert (s + t)[..|s + t| - 1] == s + init;
      WithoutConcat(s, init, u);
      assert Without(t, u) == Without(init, u) + if x in u then [] else [x];
    }
  }

  lemma WithoutOne<E>(x: E, u: seq<E>)
    ensures Without([x], u) == if x in u then [] else [x]
  {
    assert [x][..0] == [];
  }

  lemma {:induction false} CommonMeaning<E(!new)>(s: seq<E>, t: seq<E>)
    ensures Elements(Common(s, t)) == Elements(s) * Elements(t)
    ensures Distinct(s) ==> Distinct(Common(s, t))
  {
    if s != [] {
      var init, x := s[..|s| - 1], s[|s| - 1];
      CommonMeaning(init, t);
      assert s == init + [x];
      assert Elements(s) == Elements(init) + {x};
      if x in t {
        assert Elements(Common(s, t)) == Elements(Common(init, t)) + {x};
        if Distinct(s) {
          assert x !in Elements(Common(init, t));
        }
      }
    }
  }

  lemma {:induction false} CommonConcat<E>(a: seq<E>, b: seq<E>, t: seq<E>)
    ensures Common(a + b, t) == Common(a, t) + Common(b, t)
  {
    if b == [] {
      assert a + b == a;
    } else {
      var init := b[..|b| - 1];
      CommonConcat(a, init, t);
      assert (a + b)[..|a + b| - 1] == a + init;
    }
  }

  lemma {:induction false} CommonNone<E>(s: seq<E>, t: seq<E>)
    requires forall x :: x in s ==> x !in t
    ensures Common(s, t) == []
  {
    if s != [] {
      var init := s[..|s| - 1];
      forall x | x in init ensures x !in t {
        assert x in s;
      }
      CommonNone(init, t);
      assert s[|s| - 1] in s;
    }
  }
}
