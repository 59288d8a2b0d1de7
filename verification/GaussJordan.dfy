/** The two in-place Gauss-Jordan inversions: over GF(2^128) (PaxosImpl.h) and over single
    bits (DenseMtx::Invert). */
module GaussJordan {
  import opened Algebra

  // ----- Square matrices and the equations they stand for -----

  predicate IsSquare<K>(m: seq<seq<K>>, n: nat)
  {
    |m| == n && forall i :: 0 <= i < n ==> |m[i]| == n
  }

  function Identity<K(!new), V(!new)>(sp: Space<K, V>, n: nat): (m: seq<seq<K>>)
    ensures IsSquare(m, n)
  {
    seq(n, i => seq(n, j => if i == j then sp.one else sp.zero))
  }

  ghost function MatVec<K(!new), V(!new)>(sp: Space<K, V>, m: seq<seq<K>>, v: seq<V>, n: nat): (w: seq<V>)
    requires IsSquare(m, n) && |v| == n
    ensures |w| == n
  {
    seq(n, i requires 0 <= i < n => sp.Dot(m[i], v, n))
  }

  // m * v == r * w, row by row.
  ghost predicate Solves<K(!new), V(!new)>(sp: Space<K, V>, m: seq<seq<K>>, r: seq<seq<K>>, n: nat, v: seq<V>,
      w: seq<V>)
    requires IsSquare(m, n) && IsSquare(r, n) && |v| == n && |w| == n
  {
    forall i :: 0 <= i < n ==> sp.Dot(m[i], v, n) == sp.Dot(r[i], w, n)
  }

  // The systems m * v == r * w and m' * v == r' * w have the same solutions.
  ghost predicate Equivalent<K(!new), V(!new)>(sp: Space<K, V>, n: nat, m: seq<seq<K>>, r: seq<seq<K>>,
      m': seq<seq<K>>, r': seq<seq<K>>)
  {
    && IsSquare(m, n) && IsSquare(r, n) && IsSquare(m', n) && IsSquare(r', n)
    && forall v: seq<V>, w: seq<V> | |v| == n && |w| == n ::
         Solves(sp, m, r, n, v, w) <==> Solves(sp, m', r', n, v, w)
  }

  // r inverts m on both sides: m * v == w exactly when v == r * w.
  ghost predicate IsInverse<K(!new), V(!new)>(sp: Space<K, V>, n: nat, m: seq<seq<K>>, r: seq<seq<K>>)
  {
    && IsSquare(m, n) && IsSquare(r, n)
    && forall v: seq<V>, w: seq<V> | |v| == n && |w| == n ::
         MatVec(sp, m, v, n) == w <==> v == MatVec(sp, r, w, n)
  }

  // m sends some non-zero vector to zero.
  ghost predicate IsSingular<K(!new)>(sp: Space<K, K>, n: nat, m: seq<seq<K>>)
    requires IsSquare(m, n)
  {
    exists v: seq<K> | |v| == n :: v != Zeros(sp, n) && MatVec(sp, m, v, n) == Zeros(sp, n)
  }

  function Zeros<K(!new), V(!new)>(sp: Space<K, V>, n: nat): (v: seq<V>)
    ensures |v| == n
  {
    seq(n, _ => sp.nil)
  }

  // The first i columns of m are those of the identity.
  ghost predicate Reduced<K(!new), V(!new)>(sp: Space<K, V>, n: nat, m: seq<seq<K>>, i: nat)
    requires IsSquare(m, n)
  {
    forall r, c :: 0 <= r < n && 0 <= c < i <= n ==> m[r][c] == if r == c then sp.one else sp.zero
  }

  // ----- Row operations -----

  function SwapRows<K>(m: seq<seq<K>>, i: nat, j: nat): seq<seq<K>>
    requires i < |m| && j < |m|
  {
    m[i := m[j]][j := m[i]]
  }

  function ScaleRow<K(!new), V(!new)>(sp: Space<K, V>, m: seq<seq<K>>, i: nat, c: K): seq<seq<K>>
    requires i < |m|
  {
    m[i := seq(|m[i]|, k requires 0 <= k < |m[i]| => sp.Mul(m[i][k], c))]
  }

  function AddRow<K(!new), V(!new)>(sp: Space<K, V>, m: seq<seq<K>>, j: nat, i: nat, c: K): seq<seq<K>>
    requires i < |m| && j < |m| && |m[i]| == |m[j]|
  {
    m[j := seq(|m[j]|, k requires 0 <= k < |m[j]| => sp.Add(m[j][k], sp.Mul(m[i][k], c)))]
  }

  lemma SwapKeepsSolutions<K(!new), V(!new)>(sp: Space<K, V>, n: nat, m: seq<seq<K>>, r: seq<seq<K>>, i: nat, j: nat)
    requires IsSquare(m, n) && IsSquare(r, n) && i < n && j < n
    ensures Equivalent(sp, n, m, r, SwapRows(m, i, j), SwapRows(r, i, j))
  {
    var m', r' := SwapRows(m, i, j), SwapRows(r, i, j);
    forall v: seq<V>, w: seq<V> | |v| == n && |w| == n
      ensures Solves(sp, m, r, n, v, w) <==> Solves(sp, m', r', n, v, w)
    {
      assert m'[i] == m[j] && m'[j] == m[i] && r'[i] == r[j] && r'[j] == r[i];
      if Solves(sp, m', r', n, v, w) {
        forall k | 0 <= k < n ensures sp.Dot(m[k], v, n) == sp.Dot(r[k], w, n) {
          var k' := if k == i then j else if k == j then i else k;
          assert m'[k'] == m[k] && r'[k'] == r[k];
        }
      }
    }
  }

  // Scaling row i by an invertible scalar.
  lemma ScaleKeepsSolutions<K(!new), V(!new)>(sp: Space<K, V>, n: nat, m: seq<seq<K>>, r: seq<seq<K>>, i: nat, c: K,
      d: K)
    requires sp.IsSpace() && IsSquare(m, n) && IsSquare(r, n) && i < n
    requires sp.Mul(d, c) == sp.one
    ensures Equivalent(sp, n, m, r, ScaleRow(sp, m, i, c), ScaleRow(sp, r, i, c))
  {
    var m', r' := ScaleRow(sp, m, i, c), ScaleRow(sp, r, i, c);
    forall v: seq<V>, w: seq<V> | |v| == n && |w| == n
      ensures Solves(sp, m, r, n, v, w) <==> Solves(sp, m', r', n, v, w)
    {
      sp.DotScaled(m[i], m'[i], c, v, n);
      sp.DotScaled(r[i], r'[i], c, w, n);
      var x, y := sp.Dot(m[i], v, n), sp.Dot(r[i], w, n);
      assert sp.ActLaws(d, c, x, x) && sp.ActLaws(d, c, y, y);
      assert forall k :: 0 <= k < n && k != i ==> m'[k] == m[k] && r'[k] == r[k];
      if Solves(sp, m', r', n, v, w) {
        assert sp.Dot(m'[i], v, n) == sp.Dot(r'[i], w, n);
      }
    }
  }

  // Adding c times row i to another row j.
  lemma AddKeepsSolutions<K(!new), V(!new)>(sp: Space<K, V>, n: nat, m: seq<seq<K>>, r: seq<seq<K>>, j: nat, i: nat,
      c: K)
    requires sp.IsSpace() && IsSquare(m, n) && IsSquare(r, n) && i < n && j < n && i != j
    ensures Equivalent(sp, n, m, r, AddRow(sp, m, j, i, c), AddRow(sp, r, j, i, c))
  {
    var m', r' := AddRow(sp, m, j, i, c), AddRow(sp, r, j, i, c);
    forall v: seq<V>, w: seq<V> | |v| == n && |w| == n
      ensures Solves(sp, m, r, n, v, w) <==> Solves(sp, m', r', n, v, w)
    {
      sp.DotAddScaled(m[j], m[i], m'[j], c, v, n);
      sp.DotAddScaled(r[j], r[i], r'[j], c, w, n);
      assert m'[i] == m[i] && r'[i] == r[i];
      var x, y := sp.Dot(m[j], v, n), sp.Dot(r[j], w, n);
      var s := sp.Act(c, sp.Dot(m[i], v, n));
      assert sp.ValueLaws(x, s, s) && sp.ValueLaws(y, s, s) && sp.ValueLaws(x, sp.nil, x) && sp.ValueLaws(y, sp.nil, y);
      assert sp.ValueLaws(s, s, s);
      assert forall k :: 0 <= k < n && k != j ==> m'[k] == m[k] && r'[k] == r[k];
      if Solves(sp, m', r', n, v, w) {
        assert sp.Dot(m'[i], v, n) == sp.Dot(r'[i], w, n);
        assert sp.Dot(m'[j], v, n) == sp.Dot(r'[j], w, n);
      }
    }
  }

  lemma EquivalentTrans<K(!new), V(!new)>(sp: Space<K, V>, n: nat, m0: seq<seq<K>>, r0: seq<seq<K>>, m1: seq<seq<K>>,
      r1: seq<seq<K>>, m2: seq<seq<K>>, r2: seq<seq<K>>)
    requires Equivalent(sp, n, m0, r0, m1, r1) && Equivalent(sp, n, m1, r1, m2, r2)
    ensures Equivalent(sp, n, m0, r0, m2, r2)
  {
  }

  // ----- What the end of the elimination means -----

  // Solving against the identity is multiplying.
  lemma SolvesIdentity<K(!new), V(!new)>(sp: Space<K, V>, n: nat, m: seq<seq<K>>, v: seq<V>, w: seq<V>)
    requires sp.IsSpace() && IsSquare(m, n) && |v| == n && |w| == n
    ensures Solves(sp, m, Identity(sp, n), n, v, w) <==> MatVec(sp, m, v, n) == w
  {
    var id := Identity(sp, n);
    forall i | 0 <= i < n ensures sp.Dot(id[i], w, n) == w[i] {
      sp.DotUnit(id[i], i, w, n);
    }
    if MatVec(sp, m, v, n) == w {
      forall i | 0 <= i < n ensures sp.Dot(m[i], v, n) == sp.Dot(id[i], w, n) {
        assert MatVec(sp, m, v, n)[i] == w[i];
      }
    }
  }

  lemma ReducedIsInverse<K(!new), V(!new)>(sp: Space<K, V>, n: nat, m0: seq<seq<K>>, m: seq<seq<K>>, r: seq<seq<K>>)
    requires sp.IsSpace()
    requires Equivalent(sp, n, m0, Identity(sp, n), m, r)
    requires Reduced(sp, n, m, n)
    ensures IsInverse(sp, n, m0, r)
  {
    forall v: seq<V>, w: seq<V> | |v| == n && |w| == n
      ensures MatVec(sp, m0, v, n) == w <==> v == MatVec(sp, r, w, n)
    {
      SolvesIdentity(sp, n, m0, v, w);
      forall i | 0 <= i < n ensures sp.Dot(m[i], v, n) == v[i] {
        sp.DotUnit(m[i], i, v, n);
      }
      if v == MatVec(sp, r, w, n) {
        assert forall i :: 0 <= i < n ==> v[i] == sp.Dot(r[i], w, n);
      }
    }
  }

  // A reduced system whose next column is zero from the diagonal down has a kernel.
  lemma StuckIsSingular<K(!new)>(sp: Space<K, K>, n: nat, m0: seq<seq<K>>, m: seq<seq<K>>, r: seq<seq<K>>, i: nat)
    requires sp.IsSpace() && IsSelfSpace(sp) && sp.one != sp.zero
    requires Equivalent(sp, n, m0, Identity(sp, n), m, r)
    requires i < n && Reduced(sp, n, m, i)
    requires forall j :: i <= j < n ==> m[j][i] == sp.zero
    ensures IsSingular(sp, n, m0)
  {
    var v := Kernel(sp, n, m, i);
    var w := Zeros(sp, n);
    assert v[i] != w[i];
    KernelSolves(sp, n, m, r, i, v, w);
    SolvesIdentity(sp, n, m0, v, w);
  }

  // The vector that the stuck column sends to zero.
  ghost function Kernel<K(!new)>(sp: Space<K, K>, n: nat, m: seq<seq<K>>, i: nat): (v: seq<K>)
    requires IsSquare(m, n) && i < n
    ensures |v| == n
  {
    seq(n, k requires 0 <= k < n => if k < i then m[k][i] else if k == i then sp.one else sp.zero)
  }

  lemma KernelSolves<K(!new)>(sp: Space<K, K>, n: nat, m: seq<seq<K>>, r: seq<seq<K>>, i: nat, v: seq<K>, w: seq<K>)
    requires sp.IsSpace() && IsSelfSpace(sp)
    requires IsSquare(m, n) && IsSquare(r, n)
    requires i < n && Reduced(sp, n, m, i)
    requires forall j :: i <= j < n ==> m[j][i] == sp.zero
    requires v == Kernel(sp, n, m, i) && w == Zeros(sp, n)
    ensures Solves(sp, m, r, n, v, w)
  {
    forall k | 0 <= k < n ensures sp.Dot(m[k], v, n) == sp.Dot(r[k], w, n) {
      KernelRow(sp, m[k], v, k, i, n);
      sp.DotNil(r[k], w, n);
    }
  }

  // Scalars acting on themselves by multiplication.
  ghost predicate IsSelfSpace<K(!new)>(sp: Space<K, K>)
  {
    sp.nil == sp.zero && sp.plus == sp.add && sp.act == sp.mul
  }

  lemma KernelRow<K(!new)>(sp: Space<K, K>, row: seq<K>, v: seq<K>, k: nat, i: nat, n: nat)
    requires sp.IsSpace() && IsSelfSpace(sp)
    requires |row| == n && |v| == n && k < n && i < n
    requires forall c :: 0 <= c < i ==> row[c] == if c == k then sp.one else sp.zero
    requires v[i] == sp.one
    requires forall c :: i < c < n ==> v[c] == sp.zero
    requires if k < i then v[k] == row[i] else row[i] == sp.zero
    ensures sp.Dot(row, v, n) == sp.nil
  {
    sp.DotCut(row, v, i + 1, n);
    sp.DotUnit(row, k, v, i);
    var x := row[i];
    assert sp.ScalarLaws(x, sp.one, sp.one) && sp.ScalarLaws(sp.zero, sp.zero, sp.zero);
    assert sp.ActLaws(x, x, sp.one, sp.one);
  }

  // ----- One elimination step -----

  // What the elimination of m0 keeps: (m, r) has the solutions of (m0, identity) and the first
  // i columns are done.
  ghost predicate State<K(!new), V(!new)>(sp: Space<K, V>, n: nat, m0: seq<seq<K>>, m: seq<seq<K>>, r: seq<seq<K>>,
      i: nat)
  {
    Equivalent(sp, n, m0, Identity(sp, n), m, r) && i <= n && Reduced(sp, n, m, i)
  }

  lemma SwapStep<K(!new), V(!new)>(sp: Space<K, V>, n: nat, m0: seq<seq<K>>, m: seq<seq<K>>, r: seq<seq<K>>, i: nat,
      j: nat)
    requires State(sp, n, m0, m, r, i) && i < j < n
    ensures State(sp, n, m0, SwapRows(m, i, j), SwapRows(r, i, j), i)
  {
    SwapKeepsSolutions(sp, n, m, r, i, j);
    EquivalentTrans(sp, n, m0, Identity(sp, n), m, r, SwapRows(m, i, j), SwapRows(r, i, j));
  }

  lemma ScaleStep<K(!new), V(!new)>(sp: Space<K, V>, n: nat, m0: seq<seq<K>>, m: seq<seq<K>>, r: seq<seq<K>>, i: nat,
      c: K)
    requires sp.IsSpace() && State(sp, n, m0, m, r, i) && i < n
    requires sp.Mul(m[i][i], c) == sp.one
    ensures State(sp, n, m0, ScaleRow(sp, m, i, c), ScaleRow(sp, r, i, c), i)
    ensures ScaleRow(sp, m, i, c)[i][i] == sp.one
  {
    ScaleKeepsSolutions(sp, n, m, r, i, c, m[i][i]);
    EquivalentTrans(sp, n, m0, Identity(sp, n), m, r, ScaleRow(sp, m, i, c), ScaleRow(sp, r, i, c));
    assert sp.ScalarLaws(c, sp.zero, sp.zero);
  }

  // Clearing entry (j, i) with row i, whose diagonal entry is one.
  lemma AddStep<K(!new), V(!new)>(sp: Space<K, V>, n: nat, m0: seq<seq<K>>, m: seq<seq<K>>, r: seq<seq<K>>, j: nat,
      i: nat)
    requires sp.IsSpace() && State(sp, n, m0, m, r, i)
    requires i < n && j < n && i != j && m[i][i] == sp.one
    ensures State(sp, n, m0, AddRow(sp, m, j, i, m[j][i]), AddRow(sp, r, j, i, m[j][i]), i)
    ensures AddRow(sp, m, j, i, m[j][i])[j][i] == sp.zero
  {
    var c := m[j][i];
    AddKeepsSolutions(sp, n, m, r, j, i, c);
    EquivalentTrans(sp, n, m0, Identity(sp, n), m, r, AddRow(sp, m, j, i, c), AddRow(sp, r, j, i, c));
    assert sp.ScalarLaws(c, sp.one, sp.one) && sp.ScalarLaws(c, sp.zero, sp.zero);
    forall q | 0 <= q < i ensures AddRow(sp, m, j, i, c)[j][q] == m[j][q] {
      assert sp.ScalarLaws(m[j][q], sp.zero, sp.zero);
    }
  }

  // ----- The in-place algorithms -----

  datatype Inversion<+K> = Inverse(rows: seq<seq<K>>) | NoPivot | CheckFailed

  ghost function Rows<K>(a: array2<K>): (m: seq<seq<K>>)
    reads a
    ensures |m| == a.Length0
    ensures forall i :: 0 <= i < a.Length0 ==> |m[i]| == a.Length1
    ensures forall i, j :: 0 <= i < a.Length0 && 0 <= j < a.Length1 ==> m[i][j] == a[i, j]
  {
    seq(a.Length0, i requires 0 <= i < a.Length0 reads a =>
      seq(a.Length1, j requires 0 <= j < a.Length1 reads a => a[i, j]))
  }

  lemma SameRows<K>(n: nat, a: seq<seq<K>>, b: seq<seq<K>>)
    requires IsSquare(a, n) && IsSquare(b, n)
    requires forall i, j :: 0 <= i < n && 0 <= j < n ==> a[i][j] == b[i][j]
    ensures a == b
  {
    forall i | 0 <= i < n ensures a[i] == b[i] {
    }
  }

  // Two distinct n by n arrays: the matrix being reduced and the inverse being built.
  ghost predicate Work<K>(n: nat, mtx: array2<K>, inv: array2<K>)
  {
    mtx != inv && mtx.Length0 == n && mtx.Length1 == n && inv.Length0 == n && inv.Length1 == n
  }

  // The first k entries of rows i and j are swapped.
  ghost predicate PartSwapped<K>(n: nat, a: array2<K>, m: seq<seq<K>>, i: nat, j: nat, k: nat)
    requires a.Length0 == a.Length1 == n && IsSquare(m, n) && i < n && j < n
    reads a
  {
    forall p, q :: 0 <= p < n && 0 <= q < n ==> a[p, q] == (if q < k then SwapRows(m, i, j) else m)[p][q]
  }

  method SwapEntries<K>(n: nat, a: array2<K>, ghost m: seq<seq<K>>, i: nat, j: nat, k: nat)
    requires a.Length0 == a.Length1 == n && IsSquare(m, n) && i < j < n && k < n
    requires PartSwapped(n, a, m, i, j, k)
    modifies a
    ensures PartSwapped(n, a, m, i, j, k + 1)
  {
    a[i, k], a[j, k] := a[j, k], a[i, k];
  }

  lemma AllSwapped<K>(n: nat, a: array2<K>, m: seq<seq<K>>, i: nat, j: nat)
    requires a.Length0 == a.Length1 == n && IsSquare(m, n) && i < j < n && PartSwapped(n, a, m, i, j, n)
    ensures Rows(a) == SwapRows(m, i, j)
  {
    SameRows(n, Rows(a), SwapRows(m, i, j));
  }

  method SwapInPlace<K>(n: nat, mtx: array2<K>, inv: array2<K>, i: nat, j: nat)
    requires Work(n, mtx, inv) && i < j < n
    modifies mtx, inv
    ensures Rows(mtx) == SwapRows(old(Rows(mtx)), i, j)
    ensures Rows(inv) == SwapRows(old(Rows(inv)), i, j)
  {
    ghost var m, r := Rows(mtx), Rows(inv);
    assert PartSwapped(n, mtx, m, i, j, 0) && PartSwapped(n, inv, r, i, j, 0);
    hide PartSwapped, SwapRows;
    for k := 0 to n
      invariant PartSwapped(n, mtx, m, i, j, k) && PartSwapped(n, inv, r, i, j, k)
    {
      SwapEntries(n, mtx, m, i, j, k);
      SwapEntries(n, inv, r, i, j, k);
    }
    AllSwapped(n, mtx, m, i, j);
    AllSwapped(n, inv, r, i, j);
  }

  method ScaleInPlace<K(!new), V(!new)>(sp: Space<K, V>, n: nat, mtx: array2<K>, inv: array2<K>, i: nat, c: K)
    requires Work(n, mtx, inv) && i < n
    modifies mtx, inv
    ensures Rows(mtx) == ScaleRow(sp, old(Rows(mtx)), i, c)
    ensures Rows(inv) == ScaleRow(sp, old(Rows(inv)), i, c)
  {
    ghost var m, r := Rows(mtx), Rows(inv);
    for j := 0 to n
      invariant forall p, q :: 0 <= p < n && 0 <= q < n ==>
        mtx[p, q] == if p == i && q < j then sp.Mul(m[p][q], c) else m[p][q]
      invariant forall p, q :: 0 <= p < n && 0 <= q < n ==>
        inv[p, q] == if p == i && q < j then sp.Mul(r[p][q], c) else r[p][q]
    {
      mtx[i, j] := sp.Mul(mtx[i, j], c);
      inv[i, j] := sp.Mul(inv[i, j], c);
    }
    SameRows(n, Rows(mtx), ScaleRow(sp, m, i, c));
    SameRows(n, Rows(inv), ScaleRow(sp, r, i, c));
  }

  // The first k entries of row j have c times those of row i added.
  ghost predicate PartAdded<K(!new), V(!new)>(sp: Space<K, V>, n: nat, a: array2<K>, m: seq<seq<K>>, j: nat, i: nat,
      c: K, k: nat)
    requires a.Length0 == a.Length1 == n && IsSquare(m, n) && i < n
    reads a
  {
    forall p, q :: 0 <= p < n && 0 <= q < n ==>
      a[p, q] == if p == j && q < k then sp.Add(m[p][q], sp.Mul(m[i][q], c)) else m[p][q]
  }

  method AddEntry<K(!new), V(!new)>(sp: Space<K, V>, n: nat, a: array2<K>, ghost m: seq<seq<K>>, j: nat, i: nat, c: K,
      k: nat)
    requires a.Length0 == a.Length1 == n && IsSquare(m, n) && i < n && j < n && i != j && k < n
    requires PartAdded(sp, n, a, m, j, i, c, k)
    modifies a
    ensures PartAdded(sp, n, a, m, j, i, c, k + 1)
  {
    a[j, k] := sp.Add(a[j, k], sp.Mul(a[i, k], c));
  }

  lemma AllAdded<K(!new), V(!new)>(sp: Space<K, V>, n: nat, a: array2<K>, m: seq<seq<K>>, j: nat, i: nat, c: K)
    requires a.Length0 == a.Length1 == n && IsSquare(m, n) && i < n && j < n
    requires PartAdded(sp, n, a, m, j, i, c, n)
    ensures Rows(a) == AddRow(sp, m, j, i, c)
  {
    SameRows(n, Rows(a), AddRow(sp, m, j, i, c));
  }

  method AddInPlace<K(!new), V(!new)>(sp: Space<K, V>, n: nat, mtx: array2<K>, inv: array2<K>, j: nat, i: nat, c: K)
    requires Work(n, mtx, inv) && i < n && j < n && i != j
    modifies mtx, inv
    ensures Rows(mtx) == AddRow(sp, old(Rows(mtx)), j, i, c)
    ensures Rows(inv) == AddRow(sp, old(Rows(inv)), j, i, c)
  {
    ghost var m, r := Rows(mtx), Rows(inv);
    assert PartAdded(sp, n, mtx, m, j, i, c, 0) && PartAdded(sp, n, inv, r, j, i, c, 0);
    hide PartAdded, AddRow;
    for k := 0 to n
      invariant PartAdded(sp, n, mtx, m, j, i, c, k) && PartAdded(sp, n, inv, r, j, i, c, k)
    {
      AddEntry(sp, n, mtx, m, j, i, c, k);
      AddEntry(sp, n, inv, r, j, i, c, k);
    }
    AllAdded(sp, n, mtx, m, j, i, c);
    AllAdded(sp, n, inv, r, j, i, c);
  }

  // ----- The elimination over GF128 as a function -----

  // The pair of matrices reached before a column, or why the elimination stopped earlier.
  datatype Elimination<+K> = Reached(m: seq<seq<K>>, r: seq<seq<K>>) | OutOfPivots | OutOfInverses
  {
    function Outcome(): Inversion<K>
    {
      match this
      case Reached(_, r) => Inverse(r)
      case OutOfPivots => NoPivot
      case OutOfInverses => CheckFailed
    }
  }

  // The first row from j on that has a one in column i.
  function FirstOne<K(==, !new), V(!new)>(sp: Space<K, V>, n: nat, m: seq<seq<K>>, i: nat, j: nat): (row: Option<nat>)
    requires IsSquare(m, n) && i < n && j <= n
    ensures row.Some? ==> j <= row.value < n && m[row.value][i] == sp.one
    ensures row.None? <==> forall q :: j <= q < n ==> m[q][i] != sp.one
    decreases n - j
  {
    if j == n then None else if m[j][i] == sp.one then Some(j) else FirstOne(sp, n, m, i, j + 1)
  }

  // A zero on the diagonal is replaced by a one from below; other entries are not looked for.
  function WithPivot<K(==, !new), V(!new)>(sp: Space<K, V>, n: nat, m: seq<seq<K>>, r: seq<seq<K>>, i: nat):
      (e: Elimination<K>)
    requires IsSquare(m, n) && IsSquare(r, n) && i < n
    ensures e.Reached? ==> IsSquare(e.m, n) && IsSquare(e.r, n)
    ensures e.OutOfPivots? <==> ColumnStuck(sp, n, m, i)
    ensures !e.OutOfInverses?
  {
    if m[i][i] != sp.zero then Reached(m, r) else
      var j := FirstOne(sp, n, m, i, i + 1);
      if j.None? then OutOfPivots else Reached(SwapRows(m, i, j.value), SwapRows(r, i, j.value))
  }

  // A zero on the diagonal and no one below it.
  ghost predicate ColumnStuck<K(!new), V(!new)>(sp: Space<K, V>, n: nat, m: seq<seq<K>>, i: nat)
    requires IsSquare(m, n) && i < n
  {
    m[i][i] == sp.zero && forall q :: i < q < n ==> m[q][i] != sp.one
  }

  // Row i times fs[j][i] added to every other row j below k.
  function AddMultiples<K(!new), V(!new)>(sp: Space<K, V>, n: nat, rows: seq<seq<K>>, fs: seq<seq<K>>, i: nat, k: nat):
      (s: seq<seq<K>>)
    requires IsSquare(rows, n) && IsSquare(fs, n) && i < n && k <= n
    ensures IsSquare(s, n)
  {
    seq(n, j requires 0 <= j < n =>
      if j == i || k <= j then rows[j] else
        seq(n, q requires 0 <= q < n => sp.Add(rows[j][q], sp.Mul(rows[i][q], fs[j][i]))))
  }

  // One column: the pivot row is divided by its diagonal entry, and the column is cleared.
  function Stepped<K(==, !new), V(!new)>(sp: Space<K, V>, n: nat, m: seq<seq<K>>, r: seq<seq<K>>, i: nat):
      (e: Elimination<K>)
    requires IsSquare(m, n) && IsSquare(r, n) && i < n
    ensures e.Reached? ==> IsSquare(e.m, n) && IsSquare(e.r, n)
    ensures e.OutOfPivots? <==> ColumnStuck(sp, n, m, i)
  {
    var e := WithPivot(sp, n, m, r, i);
    if e.OutOfPivots? then e else
      var c := sp.Inv(e.m[i][i]);
      if c.None? then OutOfInverses else
        var m', r' := ScaleRow(sp, e.m, i, c.value), ScaleRow(sp, e.r, i, c.value);
        Reached(AddMultiples(sp, n, m', m', i, n), AddMultiples(sp, n, r', m', i, n))
  }

  // What the elimination of m0 has reached before column i.
  function Eliminated<K(==, !new), V(!new)>(sp: Space<K, V>, n: nat, m0: seq<seq<K>>, i: nat): (e: Elimination<K>)
    requires IsSquare(m0, n) && i <= n
    ensures e.Reached? ==> IsSquare(e.m, n) && IsSquare(e.r, n)
  {
    if i == 0 then Reached(m0, Identity(sp, n)) else
      var e := Eliminated(sp, n, m0, i - 1);
      if e.Reached? then Stepped(sp, n, e.m, e.r, i - 1) else e
  }

  // The elimination reaches column i and finds a zero on the diagonal and no one below.
  ghost predicate LacksPivot<K(!new), V(!new)>(sp: Space<K, V>, n: nat, m0: seq<seq<K>>, i: nat)
    requires IsSquare(m0, n)
  {
    i < n && var e := Eliminated(sp, n, m0, i); e.Reached? && ColumnStuck(sp, n, e.m, i)
  }

  // The elimination reaches column i, and the check of the pivot's inverse fails.
  ghost predicate LacksInverse<K(!new), V(!new)>(sp: Space<K, V>, n: nat, m0: seq<seq<K>>, i: nat)
    requires IsSquare(m0, n)
  {
    && i < n && Eliminated(sp, n, m0, i).Reached?
    && var e := Eliminated(sp, n, m0, i);
       var p := WithPivot(sp, n, e.m, e.r, i);
       p.Reached? && sp.Inv(p.m[i][i]).None?
  }

  // A stopped elimination stays stopped.
  lemma {:induction false} StaysStopped<K(!new), V(!new)>(sp: Space<K, V>, n: nat, m0: seq<seq<K>>, i: nat, k: nat)
    requires IsSquare(m0, n) && i <= k <= n && !Eliminated(sp, n, m0, i).Reached?
    ensures Eliminated(sp, n, m0, k) == Eliminated(sp, n, m0, i)
  {
    if i < k {
      StaysStopped(sp, n, m0, i, k - 1);
    }
  }

  // Where an elimination stopped.
  lemma {:induction false} StoppedSomewhere<K(!new), V(!new)>(sp: Space<K, V>, n: nat, m0: seq<seq<K>>, k: nat)
    returns (i: nat)
    requires IsSquare(m0, n) && k <= n && !Eliminated(sp, n, m0, k).Reached?
    ensures i < k && if Eliminated(sp, n, m0, k).OutOfPivots? then LacksPivot(sp, n, m0, i) else
        LacksInverse(sp, n, m0, i)
  {
    if Eliminated(sp, n, m0, k - 1).Reached? {
      i := k - 1;
    } else {
      i := StoppedSomewhere(sp, n, m0, k - 1);
    }
  }

  /** How the elimination ends, by what it meets on its way. */
  lemma EndsIff<K(!new), V(!new)>(sp: Space<K, V>, n: nat, m0: seq<seq<K>>)
    requires IsSquare(m0, n)
    ensures Eliminated(sp, n, m0, n).OutOfPivots? <==> exists i: nat :: LacksPivot(sp, n, m0, i)
    ensures Eliminated(sp, n, m0, n).OutOfInverses? <==> exists i: nat :: LacksInverse(sp, n, m0, i)
  {
    hide Stepped, WithPivot;
    if !Eliminated(sp, n, m0, n).Reached? {
      var i := StoppedSomewhere(sp, n, m0, n);
    }
    forall i: nat | LacksPivot(sp, n, m0, i) ensures Eliminated(sp, n, m0, n).OutOfPivots? {
      StepStops(sp, n, m0, i);
      StaysStopped(sp, n, m0, i + 1, n);
    }
    forall i: nat | LacksInverse(sp, n, m0, i) ensures Eliminated(sp, n, m0, n).OutOfInverses? {
      StepStops(sp, n, m0, i);
      StaysStopped(sp, n, m0, i + 1, n);
    }
  }

  lemma StepStops<K(!new), V(!new)>(sp: Space<K, V>, n: nat, m0: seq<seq<K>>, i: nat)
    requires IsSquare(m0, n) && i < n
    ensures LacksPivot(sp, n, m0, i) ==> Eliminated(sp, n, m0, i + 1).OutOfPivots?
    ensures LacksInverse(sp, n, m0, i) ==> Eliminated(sp, n, m0, i + 1).OutOfInverses?
  {
  }

  // One more row added is one more row of multiples.
  lemma NextMultiple<K(!new), V(!new)>(sp: Space<K, V>, n: nat, rows: seq<seq<K>>, fs: seq<seq<K>>, i: nat, k: nat)
    requires IsSquare(rows, n) && IsSquare(fs, n) && i < n && k < n
    ensures AddMultiples(sp, n, rows, fs, i, k)[k] == rows[k]
    ensures AddMultiples(sp, n, rows, fs, i, k + 1) == if k == i then AddMultiples(sp, n, rows, fs, i, k) else
        AddRow(sp, AddMultiples(sp, n, rows, fs, i, k), k, i, fs[k][i])
  {
    var s, t := AddMultiples(sp, n, rows, fs, i, k), AddMultiples(sp, n, rows, fs, i, k + 1);
    assert s[i] == rows[i];
    if k != i {
      assert t[k] == AddRow(sp, s, k, i, fs[k][i])[k];
    }
    assert t == if k == i then s else AddRow(sp, s, k, i, fs[k][i]);
  }

  // The rows below k have a zero in column i, and row i a one.
  ghost predicate ClearedUpTo<K(!new), V(!new)>(sp: Space<K, V>, n: nat, m: seq<seq<K>>, i: nat, k: nat)
    requires IsSquare(m, n) && i < n && k <= n
  {
    m[i][i] == sp.one && forall q :: 0 <= q < k && q != i ==> m[q][i] == sp.zero
  }

  lemma ClearsRow<K(!new), V(!new)>(sp: Space<K, V>, n: nat, m0: seq<seq<K>>, m: seq<seq<K>>, r: seq<seq<K>>, i: nat,
      k: nat)
    requires sp.IsSpace() && State(sp, n, m0, m, r, i) && i < n && k < n && i != k && ClearedUpTo(sp, n, m, i, k)
    ensures State(sp, n, m0, AddRow(sp, m, k, i, m[k][i]), AddRow(sp, r, k, i, m[k][i]), i)
    ensures ClearedUpTo(sp, n, AddRow(sp, m, k, i, m[k][i]), i, k + 1)
  {
    AddStep(sp, n, m0, m, r, k, i);
  }

  // What clearing the rows below k with row i keeps and achieves.
  ghost predicate MultiplesOk<K(!new), V(!new)>(sp: Space<K, V>, n: nat, m0: seq<seq<K>>, m: seq<seq<K>>,
      r: seq<seq<K>>, i: nat, k: nat)
    requires IsSquare(m, n) && IsSquare(r, n) && i < n && k <= n
  {
    var m', r' := AddMultiples(sp, n, m, m, i, k), AddMultiples(sp, n, r, m, i, k);
    State(sp, n, m0, m', r', i) && ClearedUpTo(sp, n, m', i, k)
  }

  lemma MultiplesStart<K(!new), V(!new)>(sp: Space<K, V>, n: nat, m0: seq<seq<K>>, m: seq<seq<K>>, r: seq<seq<K>>,
      i: nat)
    requires State(sp, n, m0, m, r, i) && i < n && m[i][i] == sp.one
    ensures MultiplesOk(sp, n, m0, m, r, i, 0)
  {
    assert IsSquare(m, n) && IsSquare(r, n);
    hide State;
    assert AddMultiples(sp, n, m, m, i, 0) == m && AddMultiples(sp, n, r, m, i, 0) == r;
  }

  lemma MultiplesNext<K(!new), V(!new)>(sp: Space<K, V>, n: nat, m0: seq<seq<K>>, m: seq<seq<K>>, r: seq<seq<K>>,
      i: nat, k: nat)
    requires sp.IsSpace() && IsSquare(m, n) && IsSquare(r, n) && i < n && k < n && MultiplesOk(sp, n, m0, m, r, i, k)
    ensures MultiplesOk(sp, n, m0, m, r, i, k + 1)
  {
    hide State, AddMultiples, AddRow, IsSquare, Space.IsSpace;
    NextMultiple(sp, n, m, m, i, k);
    NextMultiple(sp, n, r, m, i, k);
    if k != i {
      hide ClearedUpTo;
      ClearsRow(sp, n, m0, AddMultiples(sp, n, m, m, i, k), AddMultiples(sp, n, r, m, i, k), i, k);
    }
  }

  // The rows below k are cleared.
  lemma {:induction false} MultiplesStep<K(!new), V(!new)>(sp: Space<K, V>, n: nat, m0: seq<seq<K>>, m: seq<seq<K>>,
      r: seq<seq<K>>, i: nat, k: nat)
    requires sp.IsSpace() && IsSquare(m, n) && IsSquare(r, n) && State(sp, n, m0, m, r, i) && i < n && k <= n
    requires m[i][i] == sp.one
    ensures MultiplesOk(sp, n, m0, m, r, i, k)
  {
    hide State, MultiplesOk;
    if k == 0 {
      MultiplesStart(sp, n, m0, m, r, i);
    } else {
      MultiplesStep(sp, n, m0, m, r, i, k - 1);
      MultiplesNext(sp, n, m0, m, r, i, k - 1);
    }
  }

  lemma ColumnCleared<K(!new), V(!new)>(sp: Space<K, V>, n: nat, m0: seq<seq<K>>, m: seq<seq<K>>, r: seq<seq<K>>,
      i: nat)
    requires i < n && State(sp, n, m0, m, r, i)
    requires ClearedUpTo(sp, n, m, i, n)
    ensures State(sp, n, m0, m, r, i + 1)
  {
  }

  lemma SteppedState<K(!new), V(!new)>(sp: Space<K, V>, n: nat, m0: seq<seq<K>>, m: seq<seq<K>>, r: seq<seq<K>>, i: nat)
    requires sp.IsSpace() && State(sp, n, m0, m, r, i) && i < n
    ensures var e := Stepped(sp, n, m, r, i); e.Reached? ==> State(sp, n, m0, e.m, e.r, i + 1)
  {
    assert IsSquare(m, n) && IsSquare(r, n);
    hide State, AddMultiples, SwapRows;
    var j := FirstOne(sp, n, m, i, i + 1);
    if m[i][i] == sp.zero && j.Some? {
      SwapStep(sp, n, m0, m, r, i, j.value);
    }
    var e := WithPivot(sp, n, m, r, i);
    if e.Reached? && sp.Inv(e.m[i][i]).Some? {
      var c := sp.Inv(e.m[i][i]).value;
      assert sp.ScalarLaws(e.m[i][i], sp.one, sp.one);
      ScaleStep(sp, n, m0, e.m, e.r, i, c);
      var m', r' := ScaleRow(sp, e.m, i, c), ScaleRow(sp, e.r, i, c);
      MultiplesStep(sp, n, m0, m', r', i, n);
      ColumnCleared(sp, n, m0, AddMultiples(sp, n, m', m', i, n), AddMultiples(sp, n, r', m', i, n), i);
    }
  }

  lemma StartState<K(!new), V(!new)>(sp: Space<K, V>, n: nat, m0: seq<seq<K>>)
    requires IsSquare(m0, n)
    ensures State(sp, n, m0, m0, Identity(sp, n), 0)
  {
  }

  /** Whatever the elimination reaches has the solutions of (m0, identity) and its first columns
      done. */
  lemma {:induction false} EliminatedState<K(!new), V(!new)>(sp: Space<K, V>, n: nat, m0: seq<seq<K>>, i: nat)
    requires sp.IsSpace() && IsSquare(m0, n) && i <= n
    ensures var e := Eliminated(sp, n, m0, i); e.Reached? ==> State(sp, n, m0, e.m, e.r, i)
  {
    hide State, Stepped;
    if i == 0 {
      StartState(sp, n, m0);
    } else {
      EliminatedState(sp, n, m0, i - 1);
      var e := Eliminated(sp, n, m0, i - 1);
      if e.Reached? {
        SteppedState(sp, n, m0, e.m, e.r, i - 1);
      }
    }
  }

  // ----- The in-place inversion over GF128 -----

  lemma StepFrom<K(!new), V(!new)>(sp: Space<K, V>, n: nat, m0: seq<seq<K>>, m: seq<seq<K>>, r: seq<seq<K>>, i: nat,
      e: Elimination<K>)
    requires IsSquare(m0, n) && IsSquare(m, n) && IsSquare(r, n) && i < n && Eliminated(sp, n, m0, i) == Reached(m, r)
    requires e == WithPivot(sp, n, m, r, i)
    ensures e.OutOfPivots? ==> Eliminated(sp, n, m0, n) == OutOfPivots
    ensures e.Reached? && sp.Inv(e.m[i][i]).None? ==> Eliminated(sp, n, m0, n) == OutOfInverses
    ensures e.Reached? && sp.Inv(e.m[i][i]).Some? ==>
      var c := sp.Inv(e.m[i][i]).value;
      var m', r' := ScaleRow(sp, e.m, i, c), ScaleRow(sp, e.r, i, c);
      Eliminated(sp, n, m0, i + 1) == Reached(AddMultiples(sp, n, m', m', i, n), AddMultiples(sp, n, r', m', i, n))
  {
    hide WithPivot, AddMultiples, ScaleRow;
    if !Eliminated(sp, n, m0, i + 1).Reached? {
      StaysStopped(sp, n, m0, i + 1, n);
    }
  }

  // The loop that zeroes column i everywhere but on the diagonal.
  method ClearColumn<K(==, !new), V(!new)>(sp: Space<K, V>, n: nat, mtx: array2<K>, inv: array2<K>, i: nat)
    requires Work(n, mtx, inv) && i < n
    modifies mtx, inv
    ensures Rows(mtx) == AddMultiples(sp, n, old(Rows(mtx)), old(Rows(mtx)), i, n)
    ensures Rows(inv) == AddMultiples(sp, n, old(Rows(inv)), old(Rows(mtx)), i, n)
  {
    ghost var m, r := Rows(mtx), Rows(inv);
    assert m == AddMultiples(sp, n, m, m, i, 0) && r == AddMultiples(sp, n, r, m, i, 0);
    hide AddMultiples, AddRow;
    for j := 0 to n
      invariant Rows(mtx) == AddMultiples(sp, n, m, m, i, j)
      invariant Rows(inv) == AddMultiples(sp, n, r, m, i, j)
    {
      NextMultiple(sp, n, m, m, i, j);
      NextMultiple(sp, n, r, m, i, j);
      if j != i {
        assert mtx[j, i] == Rows(mtx)[j][i] == m[j][i];
        AddInPlace(sp, n, mtx, inv, j, i, mtx[j, i]);
      }
    }
  }

  lemma {:induction false} FirstOneAt<K(!new), V(!new)>(sp: Space<K, V>, n: nat, m: seq<seq<K>>, i: nat, j: nat, k: nat)
    requires IsSquare(m, n) && i < n && j <= k <= n && forall q :: j <= q < k ==> m[q][i] != sp.one
    requires k < n ==> m[k][i] == sp.one
    ensures FirstOne(sp, n, m, i, j) == if k < n then Some(k) else None
    decreases k - j
  {
    if j < k {
      FirstOneAt(sp, n, m, i, j + 1, k);
    }
  }

  lemma PivotAt<K(!new), V(!new)>(sp: Space<K, V>, n: nat, m: seq<seq<K>>, r: seq<seq<K>>, i: nat, j: nat)
    requires IsSquare(m, n) && IsSquare(r, n) && i < j <= n && m[i][i] == sp.zero
    requires forall q :: i < q < j ==> m[q][i] != sp.one
    requires j < n ==> m[j][i] == sp.one
    ensures WithPivot(sp, n, m, r, i) == if j < n then Reached(SwapRows(m, i, j), SwapRows(r, i, j)) else OutOfPivots
    ensures j < n ==> SwapRows(m, i, j)[i][i] == sp.one
  {
    FirstOneAt(sp, n, m, i, i + 1, j);
  }

  // The search below a zero diagonal entry for a row that starts with a one.
  method FindPivot<K(==, !new), V(!new)>(sp: Space<K, V>, n: nat, mtx: array2<K>, inv: array2<K>, i: nat)
    returns (found: bool)
    requires sp.one != sp.zero && Work(n, mtx, inv) && i < n
    modifies mtx, inv
    ensures WithPivot(sp, n, old(Rows(mtx)), old(Rows(inv)), i) ==
        if found then Reached(Rows(mtx), Rows(inv)) else OutOfPivots
  {
    if mtx[i, i] == sp.zero {
      hide WithPivot, SwapRows;
      var j := i + 1;
      while j < n && mtx[j, i] != sp.one
        invariant i < j <= n
        invariant forall q :: i < q < j ==> mtx[q, i] != sp.one
      {
        j := j + 1;
      }
      PivotAt(sp, n, Rows(mtx), Rows(inv), i, j);
      if j < n {
        SwapInPlace(n, mtx, inv, i, j);
        assert mtx[i, i] == Rows(mtx)[i][i];
      }
    }
    found := mtx[i, i] != sp.zero;
  }

  /** Inversion over a field in which a pivot is looked for only among ones: the result is an
      inverse, and it is empty exactly if the elimination reaches a zero diagonal entry without a
      one below it. */
  method InvertGf128<K(==, !new), V(!new)>(sp: Space<K, V>, n: nat, m0: seq<seq<K>>) returns (res: Inversion<K>)
    requires sp.IsSpace() && sp.one != sp.zero && IsSquare(m0, n)
    ensures res == Eliminated(sp, n, m0, n).Outcome()
    ensures res.Inverse? ==> IsInverse(sp, n, m0, res.rows)
    ensures res.NoPivot? <==> exists i: nat :: LacksPivot(sp, n, m0, i)
    ensures res.CheckFailed? <==> exists i: nat :: LacksInverse(sp, n, m0, i)
  {
    hide WithPivot, AddMultiples, ScaleRow, LacksPivot, LacksInverse, IsInverse;
    var mtx := new K[n, n]((i, j) requires 0 <= i < n && 0 <= j < n => m0[i][j]);
    var inv := new K[n, n]((i, j) => if i == j then sp.one else sp.zero);
    SameRows(n, Rows(mtx), m0);
    SameRows(n, Rows(inv), Identity(sp, n));
    EndsIff(sp, n, m0);
    assert Eliminated(sp, n, m0, 0) == Reached(m0, Identity(sp, n));
    hide Eliminated, Stepped;
    for i := 0 to n
      invariant Eliminated(sp, n, m0, i) == Reached(Rows(mtx), Rows(inv))
    {
      ghost var m, r := Rows(mtx), Rows(inv);
      var found := FindPivot(sp, n, mtx, inv, i);
      StepFrom(sp, n, m0, m, r, i, if found then Reached(Rows(mtx), Rows(inv)) else OutOfPivots);
      if !found {
        return NoPivot;
      }
      var c := sp.Inv(mtx[i, i]);
      if c.None? {
        return CheckFailed;
      }
      ScaleInPlace(sp, n, mtx, inv, i, c.value);
      ClearColumn(sp, n, mtx, inv, i);
    }
    EliminatedState(sp, n, m0, n);
    ReducedIsInverse(sp, n, m0, Rows(mtx), Rows(inv));
    res := Inverse(seq(n, i requires 0 <= i < n reads inv => seq(n, j requires 0 <= j < n reads inv => inv[i, j])));
    SameRows(n, res.rows, Rows(inv));
  }

  // ----- When the result is empty although there is an inverse -----

  // Every scalar but zero has an inverse.
  ghost predicate AllInvertible<K(!new), V(!new)>(sp: Space<K, V>)
  {
    forall a :: a != sp.zero ==> sp.Inv(a).Some?
  }

  // The elimination reaches column i with a zero on the diagonal; below it there are entries to
  // pivot on, but no one.
  ghost predicate Overlooks<K(!new), V(!new)>(sp: Space<K, V>, n: nat, m0: seq<seq<K>>, i: nat)
    requires IsSquare(m0, n)
  {
    && LacksPivot(sp, n, m0, i)
    && exists q :: i < q < n && Eliminated(sp, n, m0, i).m[q][i] != sp.zero
  }

  /** The inversion comes back empty exactly for singular matrices, where it overlooks a pivot, and
      where a pivot's inverse is not found; the last does not happen in a field. */
  lemma EmptyIff<K(!new)>(sp: Space<K, K>, n: nat, m0: seq<seq<K>>)
    requires sp.IsSpace() && IsSelfSpace(sp) && sp.one != sp.zero && IsSquare(m0, n)
    ensures !Eliminated(sp, n, m0, n).Reached? <==>
      || IsSingular(sp, n, m0)
      || (exists i: nat :: Overlooks(sp, n, m0, i))
      || exists i: nat :: LacksInverse(sp, n, m0, i)
    ensures AllInvertible(sp) ==> forall i: nat :: !LacksInverse(sp, n, m0, i)
  {
    hide Stepped, Eliminated, IsSingular;
    EndsIff(sp, n, m0);
    forall i: nat | LacksInverse(sp, n, m0, i) ensures !AllInvertible(sp) {
      PivotNotZero(sp, n, Eliminated(sp, n, m0, i).m, Eliminated(sp, n, m0, i).r, i);
    }
    forall i: nat | LacksPivot(sp, n, m0, i) && !Overlooks(sp, n, m0, i) ensures IsSingular(sp, n, m0) {
      var e := Eliminated(sp, n, m0, i);
      EliminatedState(sp, n, m0, i);
      StuckIsSingular(sp, n, m0, e.m, e.r, i);
    }
    var e := Eliminated(sp, n, m0, n);
    if e.Reached? {
      EliminatedState(sp, n, m0, n);
      ReducedIsInverse(sp, n, m0, e.m, e.r);
      InverseIsNotSingular(sp, n, m0, e.r);
    }
  }

  lemma PivotNotZero<K(!new), V(!new)>(sp: Space<K, V>, n: nat, m: seq<seq<K>>, r: seq<seq<K>>, i: nat)
    requires sp.one != sp.zero && IsSquare(m, n) && IsSquare(r, n) && i < n
    ensures var e := WithPivot(sp, n, m, r, i); e.Reached? ==> e.m[i][i] != sp.zero
  {
  }

  /** A matrix that repeats a row is rejected, over any values that tell something from nil. */
  lemma EqualRowsStop<K(!new), V(!new)>(sp: Space<K, V>, n: nat, m0: seq<seq<K>>, p: nat, q: nat, x: V)
    requires sp.IsSpace() && IsSquare(m0, n) && p < n && q < n && p != q && m0[p] == m0[q] && x != sp.nil
    ensures !Eliminated(sp, n, m0, n).Reached?
  {
    hide Eliminated, State;
    var e := Eliminated(sp, n, m0, n);
    if e.Reached? {
      EliminatedState(sp, n, m0, n);
      StateInverts(sp, n, m0, e.m, e.r);
      EqualRowsNoInverse(sp, n, m0, e.r, p, q, x);
    }
  }

  lemma EqualRowsNoInverse<K(!new), V(!new)>(sp: Space<K, V>, n: nat, m: seq<seq<K>>, r: seq<seq<K>>, p: nat, q: nat,
      x: V)
    requires IsSquare(m, n) && IsSquare(r, n) && p < n && q < n && p != q && m[p] == m[q] && x != sp.nil
    ensures !IsInverse(sp, n, m, r)
  {
    var w := Zeros(sp, n)[p := x];
    var v := MatVec(sp, r, w, n);
    var y := MatVec(sp, m, v, n);
    assert y[p] == y[q] && w[p] != w[q];
    assert y != w;
  }

  lemma StateInverts<K(!new), V(!new)>(sp: Space<K, V>, n: nat, m0: seq<seq<K>>, m: seq<seq<K>>, r: seq<seq<K>>)
    requires sp.IsSpace() && State(sp, n, m0, m, r, n)
    ensures IsInverse(sp, n, m0, r)
  {
    ReducedIsInverse(sp, n, m0, m, r);
  }

  lemma DotPair<K(!new), V(!new)>(sp: Space<K, V>, x: K, y: K, v: seq<V>)
    requires sp.IsSpace() && |v| == 2
    ensures x == sp.zero ==> sp.Dot([x, y], v, 2) == sp.Act(y, v[1])
    ensures y == sp.zero ==> sp.Dot([x, y], v, 2) == sp.Act(x, v[0])
  {
    var p, q := sp.Act(x, v[0]), sp.Act(y, v[1]);
    assert sp.Dot([x, y], v, 2) == sp.Plus(sp.Dot([x, y], v, 1), q);
    assert sp.Dot([x, y], v, 1) == sp.Plus(sp.Dot([x, y], v, 0), p);
    assert sp.ValueLaws(sp.nil, p, p) && sp.ValueLaws(p, sp.nil, sp.nil) && sp.ValueLaws(sp.nil, q, q) &&
        sp.ValueLaws(q, sp.nil, sp.nil);
    assert sp.ActLaws(x, y, v[0], v[1]) && sp.ActLaws(y, x, v[1], v[0]);
  }

  /** The search among ones is not complete: with an invertible a other than one, this matrix has
      an inverse, and the inversion comes back empty at its first column. */
  lemma PivotMissed<K(!new), V(!new)>(sp: Space<K, V>, a: K, b: K)
    requires sp.IsSpace() && sp.one != sp.zero && a != sp.one && sp.Mul(a, b) == sp.one
    ensures var m := [[sp.zero, sp.one], [a, sp.zero]];
      IsInverse(sp, 2, m, [[sp.zero, b], [sp.one, sp.zero]])
      && Overlooks(sp, 2, m, 0) && Eliminated(sp, 2, m, 2).Outcome() == NoPivot
  {
    var m, r := [[sp.zero, sp.one], [a, sp.zero]], [[sp.zero, b], [sp.one, sp.zero]];
    assert m[1] == [a, sp.zero] && r[1] == [sp.one, sp.zero];
    CrossedInverse(sp, a, b, m, r);
    assert sp.ScalarLaws(a, b, b) && sp.ScalarLaws(b, a, a);
    assert a != sp.zero;
    assert Eliminated(sp, 2, m, 0).m == m;
    assert LacksPivot(sp, 2, m, 0);
    assert m[1][0] != sp.zero;
    EndsIff(sp, 2, m);
  }

  lemma CrossedInverse<K(!new), V(!new)>(sp: Space<K, V>, a: K, b: K, m: seq<seq<K>>, r: seq<seq<K>>)
    requires sp.IsSpace() && sp.Mul(a, b) == sp.one
    requires m == [[sp.zero, sp.one], [a, sp.zero]] && r == [[sp.zero, b], [sp.one, sp.zero]]
    ensures IsInverse(sp, 2, m, r)
  {
    assert m[1] == [a, sp.zero] && r[1] == [sp.one, sp.zero];
    forall v: seq<V>, w: seq<V> | |v| == 2 && |w| == 2 ensures MatVec(sp, m, v, 2) == w <==> v == MatVec(sp, r, w, 2) {
      var mv, rw := MatVec(sp, m, v, 2), MatVec(sp, r, w, 2);
      DotPair(sp, sp.zero, sp.one, v);
      DotPair(sp, a, sp.zero, v);
      DotPair(sp, sp.zero, b, w);
      DotPair(sp, sp.one, sp.zero, w);
      assert mv[0] == sp.Act(sp.one, v[1]) && mv[1] == sp.Act(a, v[0]);
      assert rw[0] == sp.Act(b, w[1]) && rw[1] == sp.Act(sp.one, w[0]);
      assert sp.ActLaws(sp.one, sp.one, v[1], w[0]) && sp.ActLaws(sp.one, sp.one, w[0], w[0]) &&
          sp.ActLaws(sp.one, sp.one, v[0], w[1]) && sp.ActLaws(sp.one, sp.one, w[1], w[1]);
      assert sp.ActLaws(a, b, w[1], w[1]) && sp.ActLaws(b, a, v[0], v[0]) && sp.ScalarLaws(a, b, b) &&
          sp.ScalarLaws(b, a, a);
      assert mv == w <==> mv[0] == w[0] && mv[1] == w[1];
      assert v == rw <==> v[0] == rw[0] && v[1] == rw[1];
    }
  }

  // ----- Bits -----

  // Bits acting on values (sp) and on themselves (self).
  ghost predicate BitSpaces<V(!new)>(sp: Space<bool, V>, self: Space<bool, bool>)
  {
    && sp.IsSpace() && self.IsSpace() && IsSelfSpace(self)
    && sp.add == self.add && sp.mul == self.mul
    && !sp.zero && sp.one && !self.zero && self.one
  }

  ghost predicate BitState<V(!new)>(sp: Space<bool, V>, self: Space<bool, bool>, n: nat, m0: seq<seq<bool>>,
      m: seq<seq<bool>>, r: seq<seq<bool>>, i: nat)
  {
    State(sp, n, m0, m, r, i) && State(self, n, m0, m, r, i)
  }

  lemma BitAddStep<V(!new)>(sp: Space<bool, V>, self: Space<bool, bool>, n: nat, m0: seq<seq<bool>>,
      m: seq<seq<bool>>, r: seq<seq<bool>>, j: nat, i: nat)
    requires BitSpaces(sp, self) && BitState(sp, self, n, m0, m, r, i)
    requires i < n && j < n && i != j && m[i][i] && m[j][i]
    ensures BitState(sp, self, n, m0, AddRow(sp, m, j, i, true), AddRow(sp, r, j, i, true), i)
    ensures !AddRow(sp, m, j, i, true)[j][i]
  {
    SameAddRow(sp, self, m, j, i);
    SameAddRow(sp, self, r, j, i);
    AddStep(sp, n, m0, m, r, j, i);
    AddStep(self, n, m0, m, r, j, i);
  }

  // Row operations only use the scalars.
  lemma SameAddRow<V(!new)>(sp: Space<bool, V>, self: Space<bool, bool>, m: seq<seq<bool>>, j: nat, i: nat)
    requires sp.add == self.add && sp.mul == self.mul
    requires i < |m| && j < |m| && |m[i]| == |m[j]|
    ensures AddRow(sp, m, j, i, true) == AddRow(self, m, j, i, true)
  {
    forall k | 0 <= k < |m[j]|
      ensures sp.Add(m[j][k], sp.Mul(m[i][k], true)) == self.Add(m[j][k], self.Mul(m[i][k], true))
    {
    }
    assert AddRow(sp, m, j, i, true)[j] == AddRow(self, m, j, i, true)[j];
  }

  // The loop of DenseMtx::Invert that clears column i: rows are added only where the bit is set.
  method ClearBitColumn<V(!new)>(sp: Space<bool, V>, ghost self: Space<bool, bool>, n: nat, ghost m0: seq<seq<bool>>,
      mtx: array2<bool>, inv: array2<bool>, i: nat)
    requires BitSpaces(sp, self) && Work(n, mtx, inv) && i < n
    requires BitState(sp, self, n, m0, Rows(mtx), Rows(inv), i) && mtx[i, i]
    modifies mtx, inv
    ensures BitState(sp, self, n, m0, Rows(mtx), Rows(inv), i + 1)
  {
    hide BitState, BitSpaces;
    for j := 0 to n
      invariant BitState(sp, self, n, m0, Rows(mtx), Rows(inv), i) && mtx[i, i]
      invariant forall q :: 0 <= q < j && q != i ==> !mtx[q, i]
    {
      if j != i && mtx[j, i] {
        ClearBit(sp, self, n, m0, mtx, inv, j, i);
      }
    }
    BitColumnCleared(sp, self, n, m0, Rows(mtx), Rows(inv), i);
  }

  lemma BitColumnCleared<V(!new)>(sp: Space<bool, V>, self: Space<bool, bool>, n: nat, m0: seq<seq<bool>>,
      m: seq<seq<bool>>, r: seq<seq<bool>>, i: nat)
    requires BitSpaces(sp, self) && i < n && BitState(sp, self, n, m0, m, r, i)
    requires m[i][i] && forall q :: 0 <= q < n && q != i ==> !m[q][i]
    ensures BitState(sp, self, n, m0, m, r, i + 1)
  {
  }

  method ClearBit<V(!new)>(sp: Space<bool, V>, ghost self: Space<bool, bool>, n: nat, ghost m0: seq<seq<bool>>,
      mtx: array2<bool>, inv: array2<bool>, j: nat, i: nat)
    requires BitSpaces(sp, self) && Work(n, mtx, inv) && i < n && j < n && i != j
    requires BitState(sp, self, n, m0, Rows(mtx), Rows(inv), i) && mtx[i, i] && mtx[j, i]
    modifies mtx, inv
    ensures BitState(sp, self, n, m0, Rows(mtx), Rows(inv), i) && mtx[i, i] && !mtx[j, i]
    ensures forall q :: 0 <= q < n && q != j ==> mtx[q, i] == old(mtx[q, i])
  {
    BitAddStep(sp, self, n, m0, Rows(mtx), Rows(inv), j, i);
    ghost var cleared := AddRow(sp, Rows(mtx), j, i, true);
    AddInPlace(sp, n, mtx, inv, j, i, true);
    assert Rows(mtx) == cleared;
    assert forall q :: 0 <= q < n ==> mtx[q, i] == cleared[q][i];
  }

  /** DenseMtx::Invert: over bits the search for a pivot is complete, so the result is empty
      exactly for singular matrices. */
  method InvertBits<V(!new)>(sp: Space<bool, V>, ghost self: Space<bool, bool>, n: nat, m0: seq<seq<bool>>)
    returns (res: Inversion<bool>)
    requires BitSpaces(sp, self) && IsSquare(m0, n)
    ensures res.Inverse? ==> IsInverse(sp, n, m0, res.rows)
    ensures res.NoPivot? <==> IsSingular(self, n, m0)
    ensures !res.CheckFailed?
  {
    hide BitState, IsInverse, IsSingular;
    var mtx := new bool[n, n]((i, j) requires 0 <= i < n && 0 <= j < n => m0[i][j]);
    var inv := new bool[n, n]((i, j) => i == j);
    SameRows(n, Rows(mtx), m0);
    SameRows(n, Rows(inv), Identity(sp, n));
    BitsStart(sp, self, n, m0);
    for i := 0 to n
      invariant BitState(sp, self, n, m0, Rows(mtx), Rows(inv), i)
    {
      var found := FindBitPivot(sp, self, n, m0, mtx, inv, i);
      if !found {
        return NoPivot;
      }
      ClearBitColumn(sp, self, n, m0, mtx, inv, i);
    }
    BitsInverted(sp, self, n, m0, Rows(mtx), Rows(inv));
    res := Inverse(seq(n, i requires 0 <= i < n reads inv => seq(n, j requires 0 <= j < n reads inv => inv[i, j])));
    SameRows(n, res.rows, Rows(inv));
  }

  lemma BitsStart<V(!new)>(sp: Space<bool, V>, self: Space<bool, bool>, n: nat, m0: seq<seq<bool>>)
    requires BitSpaces(sp, self) && IsSquare(m0, n)
    ensures Identity(sp, n) == Identity(self, n)
    ensures BitState(sp, self, n, m0, m0, Identity(sp, n), 0)
  {
    SameRows(n, Identity(sp, n), Identity(self, n));
  }

  // No pivot in the rest of a column of bits.
  lemma BitsStuck<V(!new)>(sp: Space<bool, V>, self: Space<bool, bool>, n: nat, m0: seq<seq<bool>>, m: seq<seq<bool>>,
      r: seq<seq<bool>>, i: nat)
    requires BitSpaces(sp, self) && i < n && BitState(sp, self, n, m0, m, r, i)
    requires forall q :: i <= q < n ==> !m[q][i]
    ensures IsSingular(self, n, m0)
  {
    StuckIsSingular(self, n, m0, m, r, i);
  }

  lemma BitSwapStep<V(!new)>(sp: Space<bool, V>, self: Space<bool, bool>, n: nat, m0: seq<seq<bool>>,
      m: seq<seq<bool>>, r: seq<seq<bool>>, i: nat, j: nat)
    requires BitSpaces(sp, self) && BitState(sp, self, n, m0, m, r, i) && i < j < n
    ensures BitState(sp, self, n, m0, SwapRows(m, i, j), SwapRows(r, i, j), i)
  {
    SwapStep(sp, n, m0, m, r, i, j);
    SwapStep(self, n, m0, m, r, i, j);
  }

  lemma BitsInverted<V(!new)>(sp: Space<bool, V>, self: Space<bool, bool>, n: nat, m0: seq<seq<bool>>,
      m: seq<seq<bool>>, r: seq<seq<bool>>)
    requires BitSpaces(sp, self) && BitState(sp, self, n, m0, m, r, n)
    ensures IsInverse(sp, n, m0, r) && !IsSingular(self, n, m0)
  {
    ReducedIsInverse(sp, n, m0, m, r);
    ReducedIsInverse(self, n, m0, m, r);
    InverseIsNotSingular(self, n, m0, r);
  }

  method FindBitPivot<V(!new)>(sp: Space<bool, V>, ghost self: Space<bool, bool>, n: nat, ghost m0: seq<seq<bool>>,
      mtx: array2<bool>, inv: array2<bool>, i: nat)
    returns (found: bool)
    requires BitSpaces(sp, self) && Work(n, mtx, inv) && i < n
    requires BitState(sp, self, n, m0, Rows(mtx), Rows(inv), i)
    modifies mtx, inv
    ensures found ==> BitState(sp, self, n, m0, Rows(mtx), Rows(inv), i) && mtx[i, i]
    ensures !found ==> IsSingular(self, n, m0)
  {
    hide BitState;
    if !mtx[i, i] {
      var j := i + 1;
      while j < n && !mtx[j, i]
        invariant i < j <= n
        invariant forall q :: i < q < j ==> !mtx[q, i]
      {
        j := j + 1;
      }
      if j < n {
        BitSwapStep(sp, self, n, m0, Rows(mtx), Rows(inv), i, j);
        SwapInPlace(n, mtx, inv, i, j);
      } else {
        BitsStuck(sp, self, n, m0, Rows(mtx), Rows(inv), i);
      }
    }
    found := mtx[i, i];
  }

  lemma InverseIsNotSingular<K(!new)>(sp: Space<K, K>, n: nat, m: seq<seq<K>>, r: seq<seq<K>>)
    requires sp.IsSpace() && IsInverse(sp, n, m, r)
    ensures !IsSingular(sp, n, m)
  {
    var z := Zeros(sp, n);
    forall i | 0 <= i < n ensures MatVec(sp, r, z, n)[i] == z[i] {
      sp.DotNil(r[i], z, n);
    }
    assert MatVec(sp, r, z, n) == z;
  }

  // ----- Repeated rows of bits -----

  // The same bits with an inverse for one.
  ghost function WithInverse(self: Space<bool, bool>): Space<bool, bool>
  {
    self.(inv := a => if a then Some(true) else None)
  }

  lemma WithInverseIsSpace(self: Space<bool, bool>)
    requires self.IsSpace() && self.one && !self.zero
    ensures WithInverse(self).IsSpace()
  {
    var sp := WithInverse(self);
    hide WithInverse;
    forall a, b, c ensures sp.ScalarLaws(a, b, c) {
      assert self.ScalarLaws(a, b, c);
      SameScalarLaws(self, a, b, c);
    }
    forall u, v, w ensures sp.ValueLaws(u, v, w) {
      assert self.ValueLaws(u, v, w);
      SameValueLaws(self, u, v, w);
    }
    forall a, b, u, v ensures sp.ActLaws(a, b, u, v) {
      assert self.ActLaws(a, b, u, v);
      SameActLaws(self, a, b, u, v);
    }
  }

  lemma SameScalarLaws(self: Space<bool, bool>, a: bool, b: bool, c: bool)
    requires self.ScalarLaws(a, b, c) && self.one && !self.zero
    ensures WithInverse(self).ScalarLaws(a, b, c)
  {
  }

  lemma SameValueLaws(self: Space<bool, bool>, u: bool, v: bool, w: bool)
    requires self.ValueLaws(u, v, w)
    ensures WithInverse(self).ValueLaws(u, v, w)
  {
  }

  lemma SameActLaws(self: Space<bool, bool>, a: bool, b: bool, u: bool, v: bool)
    requires self.ActLaws(a, b, u, v)
    ensures WithInverse(self).ActLaws(a, b, u, v)
  {
  }

  lemma {:induction false} DotWithInverse(self: Space<bool, bool>, row: seq<bool>, v: seq<bool>, n: nat)
    requires n <= |row| && n <= |v|
    ensures WithInverse(self).Dot(row, v, n) == self.Dot(row, v, n)
  {
    if n > 0 {
      DotWithInverse(self, row, v, n - 1);
    }
  }

  lemma SingularWithInverse(self: Space<bool, bool>, n: nat, m: seq<seq<bool>>)
    requires IsSquare(m, n) && IsSingular(WithInverse(self), n, m)
    ensures IsSingular(self, n, m)
  {
    var sp := WithInverse(self);
    var v: seq<bool> :| |v| == n && v != Zeros(sp, n) && MatVec(sp, m, v, n) == Zeros(sp, n);
    forall i | 0 <= i < n ensures MatVec(self, m, v, n)[i] == MatVec(sp, m, v, n)[i] {
      DotWithInverse(self, m[i], v, n);
    }
    assert MatVec(self, m, v, n) == MatVec(sp, m, v, n) && Zeros(self, n) == Zeros(sp, n);
  }

  /** A matrix of bits that repeats a row is singular. */
  lemma EqualRowsSingular(self: Space<bool, bool>, n: nat, m: seq<seq<bool>>, p: nat, q: nat)
    requires self.IsSpace() && IsSelfSpace(self) && self.one && !self.zero
    requires IsSquare(m, n) && p < n && q < n && p != q && m[p] == m[q]
    ensures IsSingular(self, n, m)
  {
    hide IsSingular, Eliminated, LacksPivot, LacksInverse, Space.IsSpace;
    var sp := WithInverse(self);
    WithInverseIsSpace(self);
    EqualRowsStop(sp, n, m, p, q, true);
    EmptyIff(sp, n, m);
    assert AllInvertible(sp);
    forall i: nat | LacksPivot(sp, n, m, i) ensures !Overlooks(sp, n, m, i) {
      NoneOverlooked(sp, n, m, i);
    }
    SingularWithInverse(self, n, m);
  }

  // Every non-zero bit is one.
  lemma NoneOverlooked(sp: Space<bool, bool>, n: nat, m: seq<seq<bool>>, i: nat)
    requires IsSquare(m, n) && sp.one && !sp.zero && LacksPivot(sp, n, m, i)
    ensures !Overlooks(sp, n, m, i)
  {
    hide Eliminated;
    forall q | i < q < n ensures Eliminated(sp, n, m, i).m[q][i] == sp.zero {
      assert Eliminated(sp, n, m, i).m[q][i] != sp.one;
    }
  }
}
