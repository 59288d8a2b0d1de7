/** How a hash becomes the sparse columns of a row (BuildRow and BuildRow32 in
    rr22/okvs/paxos_hash.cc). */
module RowBuilding {
  import opened Algebra
  import opened Galois128

  // ----- Weight three -----

  // Residues modulo s, s - 1 and s - 2.
  ghost predicate Residues(t: (nat, nat, nat), s: nat)
  {
    2 < s && t.0 < s && t.1 < s - 1 && t.2 < s - 2
  }

  ghost predicate Columns(t: (nat, nat, nat), s: nat)
  {
    2 < s && t.0 < s && t.1 < s && t.2 < s && t.0 != t.1 && t.0 != t.2 && t.1 != t.2
  }

  // The adjusted residues: what one walks over when skipping the columns that are taken.
  function Adjust(t: (nat, nat, nat)): (nat, nat, nat)
  {
    var (a, b, c) := t;
    var b' := if a <= b then b + 1 else b;
    var min := if a <= b then a else b;
    var max := if a <= b then b' else a;
    var c' := if min <= c then c + 1 else c;
    (a, b', if max <= c' then c' + 1 else c')
  }

  // The residues some columns come from.
  function Residue(t: (nat, nat, nat)): (nat, nat, nat)
    requires t.0 != t.1 && t.0 != t.2 && t.1 != t.2
  {
    var (x, y, z) := t;
    var below := (if x < z then 1 else 0) + (if y < z then 1 else 0);
    (x, if x < y then y - 1 else y, z - below)
  }

  lemma AdjustThere(t: (nat, nat, nat), s: nat)
    requires Residues(t, s)
    ensures Columns(Adjust(t), s) && Residue(Adjust(t)) == t
  {
  }

  lemma AdjustBack(c: (nat, nat, nat), s: nat)
    requires Columns(c, s)
    ensures Residues(Residue(c), s) && Adjust(Residue(c)) == c
  {
  }

  /** The adjustment is a bijection from residues to ordered triples of distinct columns. */
  lemma AdjustIsBijection(s: nat)
    ensures forall t | Residues(t, s) :: Columns(Adjust(t), s) && Residue(Adjust(t)) == t
    ensures forall c | Columns(c, s) :: Residues(Residue(c), s) && Adjust(Residue(c)) == c
  {
    hide Adjust, Residue;
    forall t | Residues(t, s) ensures Columns(Adjust(t), s) && Residue(Adjust(t)) == t {
      AdjustThere(t, s);
    }
    forall c | Columns(c, s) ensures Residues(Residue(c), s) && Adjust(Residue(c)) == c {
      AdjustBack(c, s);
    }
  }

  /** BuildRow for weight three, on three words of the hash. */
  method BuildRow3(rr: (nat, nat, nat), s: nat, rows: array<nat>)
    requires 2 < s && rows.Length == 3
    modifies rows
    ensures (rows[0], rows[1], rows[2]) == Adjust((rr.0 % s, rr.1 % (s - 1), rr.2 % (s - 2)))
    ensures Columns((rows[0], rows[1], rows[2]), s)
  {
    rows[0] := rr.0 % s;
    rows[1] := rr.1 % (s - 1);
    rows[2] := rr.2 % (s - 2);
    ghost var t := (rows[0], rows[1], rows[2]);
    AdjustIsBijection(s);
    assert Residues(t, s);
    var min := if rows[0] <= rows[1] then rows[0] else rows[1];
    var max := rows[0] + rows[1] - min;
    if max == rows[1] {
      rows[1] := rows[1] + 1;
      max := max + 1;
    }
    if rows[2] >= min {
      rows[2] := rows[2] + 1;
    }
    if rows[2] >= max {
      rows[2] := rows[2] + 1;
    }
  }

  // ----- Lanes -----

  // BuildRow32 works on lanes without branches. A comparison gives a mask of ones or of zeros;
  // sp is exclusive-or of lanes, and a mask acts on a lane as a bitwise and does.
  function Mask(m: bool): int { if m then -1 else 0 }

  function MaxLane(sp: Space<bool, nat>, a: nat, b: nat): nat
  {
    sp.Plus(sp.Act(a > b, sp.Plus(a, b)), b)
  }

  function MinLane(sp: Space<bool, nat>, a: nat, b: nat): nat
  {
    sp.Plus(sp.Plus(a, b), MaxLane(sp, a, b))
  }

  // c, incremented where x is not above it: the complemented mask is subtracted.
  function StepOver(x: int, c: int): int { c - Mask(!(x > c)) }

  function AdjustLane(sp: Space<bool, nat>, a: nat, b: nat, c: nat): (int, int, int)
  {
    var max, min := MaxLane(sp, a, b), MinLane(sp, a, b);
    var equal := Mask(max == b);
    (a, b - equal, StepOver(max - equal, StepOver(min, c)))
  }

  /** A lane computes what BuildRow computes. */
  lemma LanesAgree(sp: Space<bool, nat>, a: nat, b: nat, c: nat)
    requires sp.IsSpace() && !sp.zero && sp.one
    ensures var t := Adjust((a, b, c)); AdjustLane(sp, a, b, c) == (t.0, t.1, t.2)
  {
    var both := sp.Plus(a, b);
    assert sp.ActLaws(true, true, both, both);
    assert sp.ValueLaws(a, b, b) && sp.ValueLaws(b, b, b) && sp.ValueLaws(sp.nil, b, b) &&
        sp.ValueLaws(b, sp.nil, b) && sp.ValueLaws(a, b, both);
    assert sp.ValueLaws(b, a, a) && sp.ValueLaws(a, a, a);
    assert MaxLane(sp, a, b) == if a > b then a else b;
    assert MinLane(sp, a, b) == if a > b then b else a;
  }

  // Exclusive-or of lanes.
  function XorLanes(a: nat, b: nat): nat
    decreases a + b
  {
    if a == 0 then b else if b == 0 then a else 2 * XorLanes(a / 2, b / 2) + (a + b) % 2
  }

  lemma XorHalves(a: nat, b: nat)
    ensures XorLanes(a, b) / 2 == XorLanes(a / 2, b / 2) && XorLanes(a, b) % 2 == (a + b) % 2
  {
  }

  lemma {:induction false} XorCommutes(a: nat, b: nat)
    ensures XorLanes(a, b) == XorLanes(b, a) && XorLanes(a, 0) == a && XorLanes(a, a) == 0
    decreases a + b
  {
    if a + b != 0 {
      XorCommutes(a / 2, b / 2);
      XorHalves(a, a);
    }
  }

  lemma SameHalves(x: nat, y: nat)
    requires x / 2 == y / 2 && x % 2 == y % 2
    ensures x == y
  {
  }

  lemma SameParity(a: nat, b: nat, c: nat, x: nat, y: nat)
    requires x % 2 == (a + b) % 2 && y % 2 == (b + c) % 2
    ensures (x + c) % 2 == (a + y) % 2
  {
  }

  lemma {:induction false} XorAssociates(a: nat, b: nat, c: nat)
    ensures XorLanes(XorLanes(a, b), c) == XorLanes(a, XorLanes(b, c))
    decreases a + b + c
  {
    if a + b + c == 0 {
    } else {
      XorAssociates(a / 2, b / 2, c / 2);
      hide XorLanes;
      var x, y := XorLanes(a, b), XorLanes(b, c);
      XorHalves(a, b);
      XorHalves(b, c);
      XorHalves(x, c);
      XorHalves(a, y);
      SameParity(a, b, c, x, y);
      SameHalves(XorLanes(x, c), XorLanes(a, y));
    }
  }

  lemma XorLanesLaws(a: nat, b: nat, c: nat)
    ensures XorLanes(a, b) == XorLanes(b, a) && XorLanes(XorLanes(a, b), c) == XorLanes(a, XorLanes(b, c))
    ensures XorLanes(a, 0) == a && XorLanes(a, a) == 0
  {
    XorCommutes(a, b);
    XorAssociates(a, b, c);
  }

  // A mask of ones keeps a lane, a mask of zeros clears it.
  function Lanes(): Space<bool, nat>
  {
    Space(false, true, (a, b) => a != b, (a, b) => a && b, a => if a then Some(true) else None,
          0, (a, b) => XorLanes(a, b), (m, a) => if m then a else 0)
  }

  lemma LanesAreSpace()
    ensures Lanes().IsSpace() && !Lanes().zero && Lanes().one
  {
    var sp := Lanes();
    forall a: bool, b: bool, c: bool ensures sp.ScalarLaws(a, b, c) {
    }
    forall u: nat, v: nat, w: nat ensures sp.ValueLaws(u, v, w) {
      XorLanesLaws(u, v, w);
    }
    forall a: bool, b: bool, u: nat, v: nat ensures sp.ActLaws(a, b, u, v) {
      XorLanesLaws(u, v, u);
      XorLanesLaws(0, u, u);
      XorLanesLaws(u, 0, u);
    }
  }

  // The three words of every key, reduced and laid out word by word.
  function WordLanes(rr: seq<(nat, nat, nat)>, s: nat): (w: (seq<nat>, seq<nat>, seq<nat>))
    requires 2 < s
    ensures |w.0| == |w.1| == |w.2| == |rr|
  {
    (seq(|rr|, k requires 0 <= k < |rr| => rr[k].0 % s), seq(|rr|, k requires 0 <= k < |rr| => rr[k].1 % (s - 1)),
     seq(|rr|, k requires 0 <= k < |rr| => rr[k].2 % (s - 2)))
  }

  const HALF := 16

  // The vector instructions on the lanes of one half: every step works on all of them.
  method AdjustHalf(a: seq<nat>, b: seq<nat>, c: seq<nat>) returns (b': seq<int>, c': seq<int>)
    requires |a| == |b| == |c| == HALF
    ensures |b'| == |c'| == HALF
    ensures forall l :: 0 <= l < HALF ==> (a[l], b'[l], c'[l]) == Adjust((a[l], b[l], c[l]))
  {
    var sp := Lanes();
    var max := seq(HALF, l requires 0 <= l < HALF => sp.Plus(sp.Act(a[l] > b[l], sp.Plus(a[l], b[l])), b[l]));
    var min := seq(HALF, l requires 0 <= l < HALF => sp.Plus(sp.Plus(a[l], b[l]), max[l]));
    var mask := seq(HALF, l requires 0 <= l < HALF => Mask(max[l] == b[l]));
    b' := seq(HALF, l requires 0 <= l < HALF => b[l] - mask[l]);
    var above := seq(HALF, l requires 0 <= l < HALF => max[l] - mask[l]);
    var c1 := seq(HALF, l requires 0 <= l < HALF => StepOver(min[l], c[l]));
    c' := seq(HALF, l requires 0 <= l < HALF => StepOver(above[l], c1[l]));
    LanesAreSpace();
    forall l | 0 <= l < HALF ensures (a[l], b'[l], c'[l]) == Adjust((a[l], b[l], c[l])) {
      LanesAgree(sp, a[l], b[l], c[l]);
      assert (a[l], b'[l], c'[l]) == AdjustLane(sp, a[l], b[l], c[l]);
    }
  }

  // Key k has the row that BuildRow computes, in the three places after those of the keys before it.
  ghost predicate RowBuilt(rows: seq<int>, rr: (nat, nat, nat), s: nat, k: nat)
    requires 2 < s && 3 * k + 2 < |rows|
  {
    (rows[3 * k], rows[3 * k + 1], rows[3 * k + 2]) == Adjust((rr.0 % s, rr.1 % (s - 1), rr.2 % (s - 2)))
  }

  /** BuildRow32 for weight three: the lanes of both halves are written back key by key, and every
      key gets the row that BuildRow3 gives it. */
  method BuildRow32(rr: seq<(nat, nat, nat)>, s: nat, rows: array<int>)
    requires 2 < s && |rr| == 2 * HALF && rows.Length == 3 * |rr|
    modifies rows
    ensures forall k :: 0 <= k < |rr| ==> RowBuilt(rows[..], rr[k], s, k)
  {
    hide RowBuilt;
    var (a, b, c) := WordLanes(rr, s);
    for i := 0 to 2
      invariant forall k :: 0 <= k < HALF * i ==> RowBuilt(rows[..], rr[k], s, k)
    {
      BuildHalf(rr, s, rows, a, b, c, i);
    }
  }

  method BuildHalf(ghost rr: seq<(nat, nat, nat)>, ghost s: nat, rows: array<int>, a: seq<nat>, b: seq<nat>,
      c: seq<nat>, i: nat)
    requires 2 < s && i < 2 && |rr| == 2 * HALF && rows.Length == 3 * |rr| && (a, b, c) == WordLanes(rr, s)
    requires forall k :: 0 <= k < HALF * i ==> RowBuilt(rows[..], rr[k], s, k)
    modifies rows
    ensures forall k :: 0 <= k < HALF * (i + 1) ==> RowBuilt(rows[..], rr[k], s, k)
  {
    hide Adjust, RowBuilt;
    var at := HALF * i;
    var a0 := a[at..at + HALF];
    var b', c' := AdjustHalf(a0, b[at..at + HALF], c[at..at + HALF]);
    ghost var before := rows[..];
    Scatter(rows, a0, b', c', at);
    forall k | 0 <= k < HALF * (i + 1) ensures RowBuilt(rows[..], rr[k], s, k) {
      if k < at {
        RowKept(before, rows[..], rr[k], s, k, at);
      } else {
        RowWritten(rows[..], rr[k], s, k, (a0[k - at], b'[k - at], c'[k - at]));
      }
    }
  }

  lemma RowKept(before: seq<int>, after: seq<int>, rr: (nat, nat, nat), s: nat, k: nat, at: nat)
    requires 2 < s && k < at && 3 * at <= |before| == |after| && RowBuilt(before, rr, s, k)
    requires forall q :: 0 <= q < 3 * at ==> after[q] == before[q]
    ensures RowBuilt(after, rr, s, k)
  {
  }

  lemma RowWritten(rows: seq<int>, rr: (nat, nat, nat), s: nat, k: nat, t: (int, int, int))
    requires 2 < s && 3 * k + 2 < |rows| && (rows[3 * k], rows[3 * k + 1], rows[3 * k + 2]) == t
    requires t == Adjust((rr.0 % s, rr.1 % (s - 1), rr.2 % (s - 2)))
    ensures RowBuilt(rows, rr, s, k)
  {
  }

  // The loop that writes lane l of each word to the row of its key.
  method Scatter(rows: array<int>, a: seq<int>, b: seq<int>, c: seq<int>, at: nat)
    requires |a| == |b| == |c| == HALF && 3 * (at + HALF) <= rows.Length
    modifies rows
    ensures forall q :: 0 <= q < 3 * at ==> rows[q] == old(rows[q])
    ensures forall l :: 0 <= l < HALF ==>
      (rows[3 * (at + l)], rows[3 * (at + l) + 1], rows[3 * (at + l) + 2]) == (a[l], b[l], c[l])
  {
    for j := 0 to 3
      invariant forall q :: 0 <= q < 3 * at ==> rows[q] == old(rows[q])
      invariant j > 0 ==> forall l :: 0 <= l < HALF ==> rows[3 * (at + l)] == a[l]
      invariant j > 1 ==> forall l :: 0 <= l < HALF ==> rows[3 * (at + l) + 1] == b[l]
      invariant j > 2 ==> forall l :: 0 <= l < HALF ==> rows[3 * (at + l) + 2] == c[l]
    {
      label J:
      var word := if j == 0 then a else if j == 1 then b else c;
      for l := 0 to HALF
        invariant forall q :: 0 <= q < rows.Length && (q < 3 * at || (q - 3 * at) % 3 != j) ==>
          rows[q] == old@J(rows[q])
        invariant forall k :: 0 <= k < l ==> rows[3 * (at + k) + j] == word[k]
      {
        rows[3 * (at + l) + j] := word[l];
      }
    }
  }

  // ----- Any weight -----

  ghost predicate Sorted(row: seq<nat>)
  {
    forall i, j :: 0 <= i < j < |row| ==> row[i] < row[j]
  }

  // How many of the columns lie below x.
  function Below(row: seq<nat>, x: nat): nat
  {
    if row == [] then 0 else Below(row[..|row| - 1], x) + if row[|row| - 1] < x then 1 else 0
  }

  // x is the t-th column, counted from zero, that is not in the row.
  ghost predicate IsAbsent(row: seq<nat>, t: nat, x: nat)
  {
    x !in row && x == t + Below(row, x)
  }

  lemma {:induction false} BelowSorted(row: seq<nat>, x: nat, k: nat)
    requires k <= |row| && (forall i :: 0 <= i < k ==> row[i] < x) && (forall i :: k <= i < |row| ==> x <= row[i])
    ensures Below(row, x) == k
  {
    if row != [] {
      var n := |row| - 1;
      BelowSorted(row[..n], x, if k <= n then k else n);
    }
  }

  lemma {:induction false} BelowGrows(row: seq<nat>, x: nat, y: nat)
    requires Sorted(row) && x < y
    ensures Below(row, x) <= Below(row, y) <= Below(row, x) + (y - x)
    ensures x !in row ==> Below(row, y) < Below(row, x) + (y - x)
    decreases y
  {
    if row != [] {
      var init, z := row[..|row| - 1], row[|row| - 1];
      assert row == init + [z];
      if x + 1 < y {
        BelowGrows(row, x, y - 1);
        BelowStep(row, y - 1);
      } else {
        BelowStep(row, x);
      }
    }
  }

  lemma {:induction false} BelowStep(row: seq<nat>, x: nat)
    requires Sorted(row)
    ensures Below(row, x + 1) == Below(row, x) + if x in row then 1 else 0
  {
    if row != [] {
      var init, z := row[..|row| - 1], row[|row| - 1];
      assert row == init + [z];
      BelowStep(init, x);
      if z == x {
        assert x !in init;
      }
    }
  }

  /** There is only one such column. */
  lemma AbsentIsUnique(row: seq<nat>, t: nat, x: nat, y: nat)
    requires Sorted(row) && IsAbsent(row, t, x) && IsAbsent(row, t, y)
    ensures x == y
  {
    if x < y {
      BelowGrows(row, x, y);
    } else if y < x {
      BelowGrows(row, y, x);
    }
  }

  // Where the scan from place k stops when it carries the candidate t + k.
  function Place(row: seq<nat>, t: nat, k: nat): (at: nat)
    requires k <= |row|
    ensures k <= at <= |row|
    decreases |row| - k
  {
    if k == |row| || t + k < row[k] then k else Place(row, t, k + 1)
  }

  function Insert(row: seq<nat>, t: nat): (s: seq<nat>)
    ensures |s| == |row| + 1
  {
    var at := Place(row, t, 0);
    row[..at] + [t + at] + row[at..]
  }

  lemma {:induction false} PlaceSplits(row: seq<nat>, t: nat, k: nat)
    requires Sorted(row) && k <= |row| && forall i :: 0 <= i < k ==> row[i] < t + k
    ensures var at := Place(row, t, k);
      (forall i :: 0 <= i < at ==> row[i] < t + at) && forall i :: at <= i < |row| ==> t + at < row[i]
    decreases |row| - k
  {
    if k < |row| && row[k] <= t + k {
      PlaceSplits(row, t, k + 1);
    }
  }

  lemma InsertedSorted(row: seq<nat>, at: nat, x: nat)
    requires Sorted(row) && at <= |row|
    requires (forall i :: 0 <= i < at ==> row[i] < x) && forall i :: at <= i < |row| ==> x < row[i]
    ensures Sorted(row[..at] + [x] + row[at..])
  {
    var s := row[..at] + [x] + row[at..];
    forall i, j | 0 <= i < j < |s| ensures s[i] < s[j] {
      assert s[i] == if i < at then row[i] else if i == at then x else row[i - 1];
      assert s[j] == if j < at then row[j] else if j == at then x else row[j - 1];
    }
  }

  /** Inserting keeps the row sorted and adds the t-th absent column. */
  lemma InsertAddsAbsent(row: seq<nat>, t: nat)
    requires Sorted(row)
    ensures var at := Place(row, t, 0);
      Sorted(Insert(row, t)) && IsAbsent(row, t, t + at) && Insert(row, t)[at] == t + at
  {
    hide Sorted;
    var at := Place(row, t, 0);
    PlaceSplits(row, t, 0);
    InsertedSorted(row, at, t + at);
    BelowSorted(row, t + at, at);
    assert t + at !in row;
  }

  // x between the two parts of the first j entries.
  lemma PutAt(shifted: seq<nat>, before: seq<nat>, at: nat, j: nat, x: nat)
    requires at <= j < |shifted| == |before|
    requires shifted[..at] == before[..at] && shifted[at + 1..j + 1] == before[at..j]
    ensures shifted[at := x][..j + 1] == before[..j][..at] + [x] + before[..j][at..]
  {
    var s := shifted[at := x];
    assert s[..j + 1] == s[..at] + [x] + s[at + 1..j + 1];
  }

  method InsertColumn(rows: array<nat>, j: nat, t: nat)
    requires j < rows.Length
    modifies rows
    ensures rows[..j + 1] == Insert(old(rows[..j]), t)
  {
    hide Place;
    ghost var before := rows[..];
    assert before[..j] == rows[..j];
    var x, at := FindPlace(rows, j, t);
    ShiftUp(rows, at, j);
    ghost var shifted := rows[..];
    rows[at] := x;
    assert rows[..] == shifted[at := x];
    PutAt(shifted, before, at, j, x);
    assert rows[..j + 1] == rows[..][..j + 1];
  }

  method FindPlace(rows: array<nat>, j: nat, t: nat) returns (x: nat, at: nat)
    requires j < rows.Length
    ensures at == Place(rows[..j], t, 0) && x == t + at
  {
    x, at := t, 0;
    while at != j && rows[at] <= x
      invariant 0 <= at <= j && x == t + at && Place(rows[..j], t, 0) == Place(rows[..j], t, at)
      decreases j - at
    {
      x := x + 1;
      at := at + 1;
    }
  }

  method ShiftUp(rows: array<nat>, at: nat, j: nat)
    requires at <= j < rows.Length
    modifies rows
    ensures rows[..][..at] == old(rows[..])[..at] && rows[..][at + 1..j + 1] == old(rows[..])[at..j]
  {
    var end := j;
    while at != end
      invariant at <= end <= j
      invariant forall k :: 0 <= k < end ==> rows[k] == old(rows[k])
      invariant forall k :: end < k <= j ==> rows[k] == old(rows[k - 1])
      decreases end - at
    {
      rows[end] := rows[end - 1];
      end := end - 1;
    }
  }

  /** Weight three, in the same terms: the second residue counts the columns other than the first,
      and the third those other than both. */
  lemma AdjustCountsAbsent(a: nat, b: nat, c: nat)
    ensures var t := Adjust((a, b, c));
      && t.0 == a && IsAbsent([a], b, t.1)
      && IsAbsent(if a < t.1 then [a, t.1] else [t.1, a], c, t.2)
  {
    var t := Adjust((a, b, c));
    assert Below([a], t.1) == if a < t.1 then 1 else 0;
    BelowTwo(a, t.1, t.2);
    BelowTwo(t.1, a, t.2);
  }

  lemma BelowTwo(x: nat, y: nat, z: nat)
    ensures Below([x, y], z) == (if x < z then 1 else 0) + if y < z then 1 else 0
  {
    assert [x, y][..1] == [x];
    assert Below([x], z) == if x < z then 1 else 0;
  }

  // The low 64 bits of a word as a number.
  function Number(bits: seq<bool>): nat
  {
    if bits == [] then 0 else (if bits[0] then 1 else 0) + 2 * Number(bits[1..])
  }

  // The j-th residue: the hash is squared once more for every column.
  function ResidueAt(hash: Word, j: nat, s: nat): nat
    requires j < s
  {
    Number(Power(hash, Two(j + 1))[..64]) % (s - j)
  }

  // The row after j insertions.
  function RowAfter(hash: Word, s: nat, j: nat): (row: seq<nat>)
    requires j <= s
    ensures |row| == j
  {
    if j == 0 then [] else Insert(RowAfter(hash, s, j - 1), ResidueAt(hash, j - 1, s))
  }

  /** Every row is strictly sorted and below s, for any weight and hash. */
  lemma {:induction false} RowIsGood(hash: Word, s: nat, j: nat)
    requires j <= s
    ensures Sorted(RowAfter(hash, s, j)) && forall i :: 0 <= i < j ==> RowAfter(hash, s, j)[i] < s
  {
    if j > 0 {
      var row, t := RowAfter(hash, s, j - 1), ResidueAt(hash, j - 1, s);
      RowIsGood(hash, s, j - 1);
      InsertAddsAbsent(row, t);
      var at := Place(row, t, 0);
      forall i | 0 <= i < j ensures Insert(row, t)[i] < s {
        if i > at {
          assert Insert(row, t)[i] == row[i - 1];
        }
      }
    }
  }

  /** Column by column: the low half of the hash squared j + 1 times, modulo the columns that are
      left, counts the absent column that the j-th insertion adds. */
  lemma FreshSquares(hash: Word, s: nat, j: nat) returns (x: nat)
    requires j < s
    ensures IsAbsent(RowAfter(hash, s, j), Number(Squared(hash, j + 1)[..64]) % (s - j), x)
    ensures forall c :: c in RowAfter(hash, s, j + 1) <==> c in RowAfter(hash, s, j) || c == x
  {
    hide Mul, Power, Squared, Number, Two, Insert, Place, Sorted, IsAbsent;
    var row, t := RowAfter(hash, s, j), ResidueAt(hash, j, s);
    PowerIsSquared(hash, j + 1);
    RowIsGood(hash, s, j);
    InsertAddsAbsent(row, t);
    InsertMembers(row, t);
    x := t + Place(row, t, 0);
  }

  lemma InsertMembers(row: seq<nat>, t: nat)
    ensures forall c :: c in Insert(row, t) <==> c in row || c == t + Place(row, t, 0)
  {
    var at := Place(row, t, 0);
    assert row == row[..at] + row[at..];
  }

  /** BuildRow for any weight: the hash is squared once more for every column. */
  method BuildRow(hash: Word, s: nat, rows: array<nat>)
    requires rows.Length <= s
    modifies rows
    ensures rows[..] == RowAfter(hash, s, rows.Length)
  {
    hide Mul, Insert, Number;
    var hh := hash;
    PowerTwo(hash);
    for j := 0 to rows.Length
      invariant hh == Power(hash, Two(j)) && rows[..j] == RowAfter(hash, s, j)
    {
      PowerSum(hash, Two(j), Two(j));
      assert Two(j + 1) == Two(j) + Two(j);
      hh := Mul(hh, hh);
      InsertColumn(rows, j, Number(hh[..64]) % (s - j));
    }
    assert rows[..rows.Length] == rows[..];
  }
}
