/** The Paxos state and its triangulation (class Paxos in PaxosImpl.h). */
module PaxosState {
  import opened Lists
  import opened Triangulation
  import opened WeightBuckets

  datatype Error =
    | SizeMismatch
    | TooManyInColumn
    | DuplicateKeys(first: nat, second: nat)
    | GapTooLarge
    | NotInvertible
    | InverseFailed

  datatype Result<+T> = Ok(value: T) | Err(error: Error)

  // A stretch of the shared column backing.
  datatype Span = Span(start: nat, size: nat)

  // The start of column c when every column c' has room for weights[c'] rows.
  function Offset(weights: seq<nat>, c: nat): nat
    requires c <= |weights|
  {
    if c == 0 then 0 else Offset(weights, c - 1) + weights[c - 1]
  }

  lemma {:induction false} OffsetMonotone(weights: seq<nat>, c: nat, d: nat)
    requires c <= d <= |weights|
    ensures Offset(weights, c) <= Offset(weights, d)
    decreases d
  {
    if c < d {
      OffsetMonotone(weights, c, d - 1);
    }
  }

  // The number of rows below n in column c.
  function ColumnWeights(rows: seq<seq<nat>>, sparseSize: nat, n: nat): (ws: seq<nat>)
    requires n <= |rows|
    ensures |ws| == sparseSize
  {
    seq(sparseSize, c requires 0 <= c < sparseSize => |RowsWith(rows, c, n)|)
  }

  // No column has so many rows that its weight has no bucket.
  ghost predicate Light(rows: seq<seq<nat>>, sparseSize: nat)
  {
    forall c: nat :: c < sparseSize ==> |RowsWith(rows, c, |rows|)| < INITIAL_SETS
  }

  // The rows that contain column c.
  ghost function RowSet(rows: seq<seq<nat>>, c: nat): set<nat>
  {
    set i: nat | i < |rows| && c in rows[i]
  }

  /** The bound of 200 rows in a column, counted without the lists. */
  lemma LightIff(rows: seq<seq<nat>>, sparseSize: nat)
    ensures Light(rows, sparseSize) <==> forall c: nat :: c < sparseSize ==> |RowSet(rows, c)| < 200
  {
    forall c: nat ensures |RowsWith(rows, c, |rows|)| == |RowSet(rows, c)| {
      RowsWithMembers(rows, c, |rows|);
      RowsWithDistinct(rows, c, |rows|);
      ElementsSize(RowsWith(rows, c, |rows|));
      assert Elements(RowsWith(rows, c, |rows|)) == RowSet(rows, c);
    }
  }

  // D is the type of the dense part of a key.
  class Paxos<D(==)> {
    var numItems: nat
    var weight: nat
    var sparseSize: nat
    var denseSize: nat
    var rows: seq<seq<nat>>
    var dense: seq<D>
    var cols: array<Span>
    var colBacking: array<nat>
    var weightSets: WeightData

    // The sparse columns the spans describe.
    ghost predicate ColumnsBuilt(n: nat)
      requires n <= |rows|
      reads this, cols, colBacking
    {
      && cols.Length == sparseSize
      && forall c :: 0 <= c < sparseSize ==>
           cols[c].start + cols[c].size <= colBacking.Length
           && colBacking[cols[c].start..cols[c].start + cols[c].size] == RowsWith(rows, c, n)
    }

    ghost predicate Valid()
      reads this, cols, colBacking
    {
      && |rows| == |dense| == numItems
      && numItems + 2 <= sparseSize
      && GoodRows(rows, sparseSize)
      && (forall i :: 0 <= i < numItems ==> |rows[i]| == weight)
      && ColumnsBuilt(numItems)
    }

    // The bucket lists are either as SetInput left them or spent by an earlier triangulation.
    ghost predicate Ready()
      requires |rows| == numItems
      reads this, weightSets, weightSets.nodes
    {
      && weightSets.nodes.Length == sparseSize && Light(rows, sparseSize)
      && (|weightSets.weightSets| <= 1 || BucketsFull())
    }

    ghost predicate BucketsFull()
      requires |rows| == numItems
      reads this, weightSets, weightSets.nodes
    {
      && weightSets.Valid() && weightSets.live == UpTo(sparseSize)
      && weightSets.Weights() == ColumnWeights(rows, sparseSize, numItems)
    }

    constructor (numItems: nat, weight: nat, sparseSize: nat, denseSize: nat)
      ensures this.numItems == numItems && this.weight == weight
      ensures this.sparseSize == sparseSize && this.denseSize == denseSize
      ensures fresh(cols) && fresh(colBacking) && fresh(weightSets) && fresh(weightSets.nodes)
      ensures cols.Length == sparseSize && colBacking.Length == numItems * weight
      ensures weightSets.nodes.Length == sparseSize
    {
      this.numItems, this.weight, this.sparseSize, this.denseSize := numItems, weight, sparseSize, denseSize;
      rows, dense := [], [];
      cols := new Span[sparseSize](_ => Span(0, 0));
      colBacking := new nat[numItems * weight](_ => 0);
      weightSets := new WeightData(sparseSize);
    }

    /** Counts the column weights, lays the columns out and fills the buckets. */
    method SetInput(newRows: seq<seq<nat>>, newDense: seq<D>) returns (r: Result<()>)
      requires cols.Length == sparseSize && colBacking.Length == numItems * weight
      requires weightSets.nodes.Length == sparseSize
      requires numItems + 2 <= sparseSize
      requires GoodRows(newRows, sparseSize) && forall i :: 0 <= i < |newRows| ==> |newRows[i]| == weight
      modifies this`rows, this`dense, cols, colBacking, weightSets, weightSets.nodes
      ensures r.Ok? ==> Valid() && Ready() && rows == newRows && dense == newDense
      ensures r.Ok? ==> |newRows| == numItems == |newDense|
      ensures r == Err(SizeMismatch) <==> |newRows| != numItems || |newDense| != numItems
      ensures r == Err(TooManyInColumn) <==> |newRows| == numItems == |newDense| && !Light(newRows, sparseSize)
      ensures r.Err? ==> r.error == SizeMismatch || r.error == TooManyInColumn
      ensures |newRows| == numItems == |newDense| ==>
        (r.Ok? <==> forall c: nat :: c < sparseSize ==> |RowSet(newRows, c)| < 200)
      ensures weightSets.nodes == old(weightSets.nodes)
    {
      LightIff(newRows, sparseSize);
      if |newRows| != numItems || |newDense| != numItems {
        return Err(SizeMismatch);
      }
      rows, dense := newRows, newDense;
      var colWeights := CountColumns();
      RebuildColumns(colWeights);
      var ok := weightSets.Init(colWeights);
      WeightsLight(colWeights);
      if !ok {
        return Err(TooManyInColumn);
      }
      return Ok(());
    }

    lemma WeightsLight(w: seq<nat>)
      requires |rows| == numItems && w == ColumnWeights(rows, sparseSize, numItems)
      ensures Light(rows, sparseSize) <==> forall c :: 0 <= c < |w| ==> w[c] < INITIAL_SETS
    {
      assert forall c: nat :: c < sparseSize ==> w[c] == |RowsWith(rows, c, |rows|)|;
    }

    // The counting loop of setInput.
    method CountColumns() returns (colWeights: seq<nat>)
      requires GoodRows(rows, sparseSize) && |rows| == numItems
      ensures colWeights == ColumnWeights(rows, sparseSize, numItems)
    {
      var w := new nat[sparseSize](_ => 0);
      for i := 0 to numItems
        invariant forall c :: 0 <= c < sparseSize ==> w[c] == |RowsWith(rows, c, i)|
      {
        assert GoodRow(rows[i], sparseSize);
        CountRow(w, rows[i]);
      }
      colWeights := w[..];
    }

    static method CountRow(w: array<nat>, row: seq<nat>)
      requires Distinct(row) && forall j :: 0 <= j < |row| ==> row[j] < w.Length
      modifies w
      ensures forall c :: 0 <= c < w.Length ==> w[c] == old(w[c]) + if c in row then 1 else 0
    {
      for j := 0 to |row|
        invariant forall c :: 0 <= c < w.Length ==> w[c] == old(w[c]) + if c in row[..j] then 1 else 0
      {
        assert row[..j + 1] == row[..j] + [row[j]];
        w[row[j]] := w[row[j]] + 1;
      }
      assert row[..|row|] == row;
    }

    // Every column has its own stretch of the backing and has not outgrown it.
    ghost predicate Laid(w: seq<nat>)
      reads this, cols, colBacking
    {
      && |w| == cols.Length == sparseSize
      && LaidOut(w, cols[..], colBacking[..])
    }

    ghost function ColumnRows(w: seq<nat>, c: nat): seq<nat>
      requires Laid(w) && c < sparseSize
      reads this, cols, colBacking
    {
      Slice(w, cols[..], colBacking[..], c)
    }

    // Appends row i to column c.
    method AppendToColumn(ghost w: seq<nat>, c: nat, i: nat)
      requires Laid(w) && c < sparseSize && |ColumnRows(w, c)| < w[c]
      modifies cols, colBacking
      ensures Laid(w)
      ensures forall d :: 0 <= d < sparseSize ==>
        ColumnRows(w, d) == old(ColumnRows(w, d)) + if d == c then [i] else []
    {
      hide LaidOut, Slice;
      SliceSize(w, cols[..], colBacking[..], c);
      AppendKeepsLaid(w, cols[..], colBacking[..], c, i);
      var col := cols[c];
      ghost var spans, backing := cols[..], colBacking[..];
      cols[c] := Span(col.start, col.size + 1);
      colBacking[col.start + col.size] := i;
      assert cols[..] == spans[c := Span(col.start, col.size + 1)];
      assert colBacking[..] == backing[col.start + col.size := i];
    }

    // The loop that enters row i into its columns.
    method AppendRow(ghost w: seq<nat>, row: seq<nat>, i: nat)
      requires Laid(w) && GoodRow(row, sparseSize)
      requires forall c :: 0 <= c < sparseSize && c in row ==> |ColumnRows(w, c)| < w[c]
      modifies cols, colBacking
      ensures Laid(w)
      ensures forall c :: 0 <= c < sparseSize ==>
        ColumnRows(w, c) == old(ColumnRows(w, c)) + if c in row then [i] else []
    {
      for j := 0 to |row|
        invariant Laid(w)
        invariant forall c :: 0 <= c < sparseSize ==>
          ColumnRows(w, c) == old(ColumnRows(w, c)) + if c in row[..j] then [i] else []
      {
        assert row[..j + 1] == row[..j] + [row[j]];
        AppendToColumn(w, row[j], i);
      }
      assert row[..|row|] == row;
    }

    /** rebuildColumns: every column lists its rows in increasing order, and the columns fill
        the backing exactly. */
    method RebuildColumns(colWeights: seq<nat>)
      requires |rows| == numItems && GoodRows(rows, sparseSize)
      requires colWeights == ColumnWeights(rows, sparseSize, numItems)
      requires cols.Length == sparseSize && colBacking.Length == numItems * weight
      requires forall i :: 0 <= i < numItems ==> |rows[i]| == weight
      modifies cols, colBacking
      ensures ColumnsBuilt(numItems)
    {
      TotalWeight(rows, sparseSize, weight, numItems);
      PlaceColumns(colWeights);
      FillColumns(colWeights);
      LaidIsBuilt(colWeights);
    }

    // The columns hold the first n rows, and have room for all of them.
    ghost predicate Filled(w: seq<nat>, n: nat)
      requires n <= |rows|
      reads this, cols, colBacking
    {
      && Laid(w) && w == ColumnWeights(rows, sparseSize, |rows|)
      && forall c :: 0 <= c < sparseSize ==> ColumnRows(w, c) == RowsWith(rows, c, n)
    }

    method FillRow(ghost w: seq<nat>, i: nat)
      requires i < |rows| && GoodRows(rows, sparseSize) && Filled(w, i)
      modifies cols, colBacking
      ensures Filled(w, i + 1)
    {
      assert GoodRow(rows[i], sparseSize);
      RoomForRow(rows, sparseSize, i, |rows|);
      AppendRow(w, rows[i], i);
    }

    // The loop over the rows.
    method FillColumns(ghost w: seq<nat>)
      requires GoodRows(rows, sparseSize) && Filled(w, 0)
      modifies cols, colBacking
      ensures Filled(w, |rows|)
    {
      var i := 0;
      while i < |rows|
        invariant i <= |rows| && Filled(w, i)
      {
        FillRow(w, i);
        i := i + 1;
      }
    }

    lemma LaidIsBuilt(w: seq<nat>)
      requires |rows| == numItems && Filled(w, numItems)
      ensures ColumnsBuilt(numItems)
    {
      forall c | 0 <= c < sparseSize
        ensures cols[c].start + cols[c].size <= colBacking.Length
        ensures colBacking[cols[c].start..cols[c].start + cols[c].size] == RowsWith(rows, c, numItems)
      {
        SliceSize(w, cols[..], colBacking[..], c);
        assert ColumnRows(w, c) == RowsWith(rows, c, numItems);
      }
    }

    // The loop that gives every column an empty span at its offset; the spans end exactly
    // where the backing ends, so the check after the loop cannot fail.
    method PlaceColumns(colWeights: seq<nat>)
      requires |colWeights| == cols.Length == sparseSize && Offset(colWeights, sparseSize) == colBacking.Length
      modifies cols
      ensures Laid(colWeights)
      ensures forall c :: 0 <= c < sparseSize ==> ColumnRows(colWeights, c) == []
    {
      hide LaidOut, Slice, Offset;
      var iter := 0;
      OffsetStart(colWeights);
      for c := 0 to sparseSize
        invariant iter == Offset(colWeights, c)
        invariant forall d :: 0 <= d < c ==> cols[d] == Span(Offset(colWeights, d), 0)
      {
        OffsetNext(colWeights, c);
        cols[c] := Span(iter, 0);
        iter := iter + colWeights[c];
      }
      EmptySpans(colWeights, cols[..], colBacking[..]);
    }

    // ----- Triangulation -----

    // The bucket lists hold every column outside `fixed`, each with the number of its rows
    // that are not set. Columns in `rest` still await the decrement for the latest row.
    ghost predicate Peeled(rowSet: seq<bool>, fixed: set<int>, rest: seq<nat>)
      reads this, weightSets, weightSets.nodes
    {
      && |rowSet| == |rows| && weightSets.nodes.Length == sparseSize
      && weightSets.Valid() && weightSets.live == UpTo(sparseSize) - fixed
      && forall c :: 0 <= c < sparseSize ==> weightSets.Weights()[c] == Expected(rows, rowSet, fixed, rest, c)
    }

    // The loop over the columns of a row that has just been set.
    method DecrementRow(row: seq<nat>, ghost rowSet: seq<bool>, ghost fixed: set<int>)
      requires GoodRow(row, sparseSize) && |fixed| + 2 <= sparseSize
      requires Peeled(rowSet, fixed, row)
      modifies weightSets, weightSets.nodes
      ensures Peeled(rowSet, fixed, [])
      ensures weightSets.nodes == old(weightSets.nodes)
    {
      var j := 0;
      assert row[0..] == row;
      while j < |row|
        invariant j <= |row| && Peeled(rowSet, fixed, row[j..])
        invariant weightSets.nodes == old(weightSets.nodes)
      {
        DecrementColumn(row[j], rowSet, fixed, row[j..]);
        assert row[j..][1..] == row[j + 1..];
        j := j + 1;
      }
      assert row[j..] == [];
    }

    method DecrementColumn(c: nat, ghost rowSet: seq<bool>, ghost fixed: set<int>, ghost rest: seq<nat>)
      requires Distinct(rest) && 0 < |rest| && c == rest[0] < sparseSize && |fixed| + 2 <= sparseSize
      requires Peeled(rowSet, fixed, rest)
      modifies weightSets, weightSets.nodes
      ensures Peeled(rowSet, fixed, rest[1..])
      ensures weightSets.nodes == old(weightSets.nodes)
    {
      hide WeightData.Valid;
      assert rest == [c] + rest[1..];
      assert c !in rest[1..];
      assert weightSets.Weights()[c] == Expected(rows, rowSet, fixed, rest, c);
      if weightSets.nodes[c].weight != 0 {
        TwoLeft(sparseSize, fixed, c);
        weightSets.DecrementWeight(c);
      }
    }

    // The rows that are set are those of t.
    ghost predicate Chosen(t: Triangle, rowSet: seq<bool>)
      reads this
    {
      |rowSet| == |rows| && forall i :: 0 <= i < |rows| ==> (rowSet[i] <==> i in t.Rows())
    }

    lemma FixingChose(t0: Triangle, t: Triangle, first: bool, rowSet: seq<bool>, c: nat)
      requires Fixing(t0, t, first, rowSet, c)
      ensures Chosen(t, rowSet) && (first ==> t == t0) && DistinctGaps(dense, t.gapRows)
    {
    }

    // What holds before each pass of the triangulation loop.
    ghost predicate Progress(t: Triangle, rowSet: seq<bool>, fixed: set<int>)
      reads this, weightSets, weightSets.nodes
    {
      && Peeled(rowSet, fixed, [])
      && PartlyTriangular(rows, sparseSize, t)
      && Chosen(t, rowSet)
      && |dense| == |rows| && DistinctGaps(dense, t.gapRows)
    }

    // Marks row r as set and takes it off the weights of its columns.
    method FixRow(r: nat, rowSet: array<bool>, ghost fixed: set<int>)
      requires r < |rows| && GoodRow(rows[r], sparseSize) && |fixed| + 2 <= sparseSize
      requires Peeled(rowSet[..], fixed, []) && !rowSet[r]
      modifies weightSets, weightSets.nodes, rowSet
      ensures rowSet[..] == old(rowSet[..])[r := true] && Peeled(rowSet[..], fixed, [])
      ensures weightSets.nodes == old(weightSets.nodes)
    {
      ghost var before := rowSet[..];
      forall c | 0 <= c < sparseSize
        ensures Expected(rows, before, fixed, [], c) == Expected(rows, before[r := true], fixed, rows[r], c)
      {
        UnsetAfterSetting(rows, before, r, c, |rows|);
      }
      rowSet[r] := true;
      assert rowSet[..] == before[r := true];
      DecrementRow(rows[r], before[r := true], fixed);
    }

    // The rows of column c.
    method Column(c: nat) returns (s: seq<nat>)
      requires Valid() && c < sparseSize
      ensures s == RowsWith(rows, c, |rows|)
    {
      s := colBacking[cols[c].start..cols[c].start + cols[c].size];
    }

    // What holds while column c is being fixed, starting from t0.
    ghost predicate Fixing(t0: Triangle, t: Triangle, first: bool, rowSet: seq<bool>, c: nat)
      reads this, weightSets, weightSets.nodes
    {
      && Progress(t, rowSet, Columns(t0.mainCols) + {c})
      && ColumnsDone(rows, rowSet, t0.mainCols)
      && if first then t == t0 else t.mainCols == t0.mainCols + [c]
    }

    // What holds after the first k rows of a column.
    ghost predicate Taking(t0: Triangle, t: Triangle, first: bool, rowSet: seq<bool>, c: nat, rs: seq<nat>, k: nat)
      reads this, weightSets, weightSets.nodes
    {
      Fixing(t0, t, first, rowSet, c) && TakenSoFar(t0, t, first, rowSet, c, rs, k)
    }

    method TakeRow(rs: seq<nat>, k: nat, c: nat, first: bool, rowSet: array<bool>, ghost t0: Triangle, t: Triangle)
      returns (res: Result<Triangle>, first': bool)
      requires Valid() && c < sparseSize && c !in t0.mainCols && k < |rs| && rs == RowsWith(rows, c, |rows|)
      requires Taking(t0, t, first, rowSet[..], c, rs, k)
      modifies weightSets, weightSets.nodes, rowSet
      ensures weightSets.nodes == old(weightSets.nodes)
      ensures res.Ok? ==> Taking(t0, res.value, first', rowSet[..], c, rs, k + 1)
      ensures res.Err? ==> IsDuplicate(dense, res.error) && FirstRepeat(dense, Without(rs, t0.Rows()), res.error)
    {
      hide Fixing, TakenSoFar, Without, Distinct, DistinctGaps, FirstRepeat;
      RowsOfColumn(rs, c);
      FixingChose(t0, t, first, rowSet[..], c);
      ghost var before := rowSet[..];
      res, first' := FixNextRow(rs[k], c, first, rowSet, t0, t);
      OneMore(rows, t0, t, first, before, c, rs, k);
      if res.Err? {
        RepeatFound(dense, rows, t0, t, first, before, c, rs, k);
      }
    }

    /** The loop over the rows of a column: the first unset row becomes its main row, later
        unset ones go to the gap. There always is a first one. */
    method FixColumn(c: nat, rowSet: array<bool>, t0: Triangle) returns (res: Result<Triangle>)
      requires Valid() && c < sparseSize && c !in t0.mainCols
      requires Fixing(t0, t0, true, rowSet[..], c) && LeftIn(rows, t0, c) != []
      modifies weightSets, weightSets.nodes, rowSet
      ensures weightSets.nodes == old(weightSets.nodes)
      ensures res.Ok? ==> Fixing(t0, res.value, false, rowSet[..], c) && ColumnsDone(rows, rowSet[..], [c])
      ensures res.Ok? ==> res.value == Taken(t0, c, LeftIn(rows, t0, c))
      ensures res.Err? ==> IsDuplicate(dense, res.error) && FirstRepeat(dense, LeftIn(rows, t0, c), res.error)
    {
      hide Taking, IsDuplicate, Fixing, FirstRepeat, LeftIn, Without, ColumnsDone, RowsWith, Distinct, GoodRow;
      var t := t0;
      var rs := Column(c);
      var first := true;
      NoneTaken(t0, rowSet[..], c, rs);
      var k := 0;
      while k < |rs|
        invariant k <= |rs| && weightSets.nodes == old(weightSets.nodes)
        invariant Taking(t0, t, first, rowSet[..], c, rs, k)
      {
        res, first := TakeRow(rs, k, c, first, rowSet, t0, t);
        if res.Err? {
          return;
        }
        t := res.value;
        k := k + 1;
      }
      AllTaken(t0, t, first, rowSet[..], c, rs);
      return Ok(t);
    }

    lemma NoneTaken(t0: Triangle, rowSet: seq<bool>, c: nat, rs: seq<nat>)
      requires Fixing(t0, t0, true, rowSet, c) && rs == RowsWith(rows, c, |rows|)
      ensures Taking(t0, t0, true, rowSet, c, rs, 0) && LeftIn(rows, t0, c) == Without(rs, t0.Rows())
    {
      hide Fixing;
      RowsOfColumn(rs, c);
    }

    lemma AllTaken(t0: Triangle, t: Triangle, first: bool, rowSet: seq<bool>, c: nat, rs: seq<nat>)
      requires Taking(t0, t, first, rowSet, c, rs, |rs|) && rs == RowsWith(rows, c, |rows|)
      requires LeftIn(rows, t0, c) != []
      ensures Fixing(t0, t, false, rowSet, c) && ColumnsDone(rows, rowSet, [c])
      ensures t == Taken(t0, c, LeftIn(rows, t0, c))
    {
      hide Fixing;
      FixingChose(t0, t, first, rowSet, c);
      RowsOfColumn(rs, c);
      assert rs[..|rs|] == rs;
      ColumnSet(rowSet, rs, c);
    }

    lemma RowsOfColumn(rs: seq<nat>, c: nat)
      requires rs == RowsWith(rows, c, |rows|)
      ensures forall q :: 0 <= q < |rs| ==> rs[q] < |rows| && c in rows[rs[q]]
      ensures forall i :: 0 <= i < |rows| && c in rows[i] ==> i in rs
      ensures Distinct(rs)
    {
      RowsWithMembers(rows, c, |rows|);
      RowsWithDistinct(rows, c, |rows|);
      assert forall q :: 0 <= q < |rs| ==> rs[q] in rs;
    }

    lemma ColumnSet(rowSet: seq<bool>, rs: seq<nat>, c: nat)
      requires |rowSet| == |rows| && forall q :: 0 <= q < |rs| ==> rs[q] < |rows| && rowSet[rs[q]]
      requires forall i :: 0 <= i < |rows| && c in rows[i] ==> i in rs
      ensures forall i :: 0 <= i < |rows| && c in rows[i] ==> rowSet[i]
      ensures ColumnsDone(rows, rowSet, [c])
    {
      forall i | 0 <= i < |rows| && c in rows[i] ensures rowSet[i] {
        var q :| 0 <= q < |rs| && rs[q] == i;
      }
    }

    // One pass of that loop: nothing happens if the row is already set.
    method FixNextRow(r: nat, c: nat, first: bool, rowSet: array<bool>, ghost t0: Triangle, t: Triangle)
      returns (res: Result<Triangle>, first': bool)
      requires Valid() && r < |rows| && c < sparseSize && c in rows[r] && c !in t0.mainCols
      requires Fixing(t0, t, first, rowSet[..], c)
      modifies weightSets, weightSets.nodes, rowSet
      ensures weightSets.nodes == old(weightSets.nodes)
      ensures res.Ok? ==> Fixing(t0, res.value, first', rowSet[..], c)
      ensures res.Ok? ==> rowSet[..] == old(rowSet[..])[r := true]
      ensures if old(rowSet[r]) then res == Ok(t) && first' == first else !first'
      ensures res.Ok? && !old(rowSet[r]) && first ==>
        res.value == Triangle(t.mainRows + [r], t.mainCols + [c], t.gapRows)
      ensures res.Ok? && !old(rowSet[r]) && !first ==>
        t.mainRows != [] && res.value == t.(gapRows := t.gapRows + [(r, t.mainRows[|t.mainRows| - 1])])
      ensures res.Err? ==> IsDuplicate(dense, res.error) && !first && !old(rowSet[r])
      ensures res.Err? ==> t.mainRows != [] && res.error == DuplicateKeys(t.mainRows[|t.mainRows| - 1], r)
    {
      hide Peeled;
      if rowSet[r] {
        assert rowSet[..] == rowSet[..][r := true];
        return Ok(t), first;
      }
      FixedBound(rows, sparseSize, t0.mainCols, t, c, r);
      assert GoodRow(rows[r], sparseSize);
      FixRow(r, rowSet, Columns(t0.mainCols) + {c});
      if first {
        AddMain(rows, sparseSize, t, r, c);
        return Ok(Triangle(t.mainRows + [r], t.mainCols + [c], t.gapRows)), false;
      } else {
        var m := t.mainRows[|t.mainRows| - 1];
        assert MainOk(rows, t.mainRows, t.mainCols, |t.mainRows| - 1);
        if dense[m] == dense[r] {
          return Err(DuplicateKeys(m, r)), false;
        }
        AddGap(rows, sparseSize, t, r);
        return Ok(t.(gapRows := t.gapRows + [(r, m)])), false;
      }
    }

    // What holds between passes of the triangulation loop.
    ghost predicate Between(t: Triangle, rowSet: seq<bool>)
      reads this, weightSets, weightSets.nodes
    {
      Progress(t, rowSet, Columns(t.mainCols)) && ColumnsDone(rows, rowSet, t.mainCols)
    }

    // Off the main columns, weights count the rows that are left.
    lemma WeightIsLeft(rowSet: seq<bool>, t: Triangle, c: nat)
      requires Valid() && Between(t, rowSet) && c < sparseSize
      ensures weightSets.Weights()[c] == |LeftIn(rows, t, c)|
      ensures LeftIn(rows, t, c) != [] ==> c in weightSets.live && c !in t.mainCols
    {
      assert weightSets.Weights()[c] == Expected(rows, rowSet, Columns(t.mainCols), [], c);
      UnsetIsLeft(rows, rowSet, t, c, |rows|);
      LeftMembers(rows, t, c);
      if LeftIn(rows, t, c) != [] {
        var i := LeftIn(rows, t, c)[0];
        assert i in LeftIn(rows, t, c);
        forall k | 0 <= k < |t.mainCols| ensures t.mainCols[k] != c {
        }
      } else if c in t.mainCols {
      }
    }

    // A column of least weight, with one of its rows that are left.
    method LeastColumn(ghost rowSet: seq<bool>, ghost t: Triangle) returns (c: nat, ghost i: nat)
      requires Valid() && Between(t, rowSet) && 1 < |weightSets.weightSets|
      ensures Least(rows, sparseSize, t, c) && c in weightSets.live && c !in t.mainCols
      ensures 0 < weightSets.Weights()[c]
      ensures i < |rows| && |Columns(t.mainCols) + {c}| <= |rows|
    {
      hide WeightData.Valid, PartlyTriangular, DistinctGaps, LeftIn;
      c := weightSets.GetMinWeightNode();
      WeightIsLeft(rowSet, t, c);
      LeftMembers(rows, t, c);
      i := LeftIn(rows, t, c)[0];
      assert i in LeftIn(rows, t, c);
      FixedBound(rows, sparseSize, t.mainCols, t, c, i);
      forall d: nat | d < sparseSize && LeftIn(rows, t, d) != []
        ensures |LeftIn(rows, t, c)| <= |LeftIn(rows, t, d)|
      {
        WeightIsLeft(rowSet, t, d);
      }
    }

    // Takes a column of least weight off the lists.
    method TakeColumn(rowSet: array<bool>, t: Triangle) returns (c: nat)
      requires Valid() && Between(t, rowSet[..]) && 1 < |weightSets.weightSets|
      modifies weightSets, weightSets.nodes
      ensures weightSets.nodes == old(weightSets.nodes)
      ensures c < sparseSize && c !in t.mainCols && Fixing(t, t, true, rowSet[..], c)
      ensures Least(rows, sparseSize, t, c)
    {
      hide WeightData.Valid, PartlyTriangular, DistinctGaps, Least;
      ghost var i;
      c, i := LeastColumn(rowSet[..], t);
      TwoLeft(sparseSize, Columns(t.mainCols), c);
      weightSets.PopNode(c);
      weightSets.SetWeight(c, 0);
      assert UpTo(sparseSize) - Columns(t.mainCols) - {c} == UpTo(sparseSize) - (Columns(t.mainCols) + {c});
    }

    /** One pass of the loop: a column of least weight is taken. Rows go to a gap, or two keys
        with the same dense part are met, only if the rows that are left form a core. */
    method PeelColumn(rowSet: array<bool>, t: Triangle) returns (res: Result<Triangle>, ghost c: nat)
      requires Valid() && Between(t, rowSet[..]) && 1 < |weightSets.weightSets|
      modifies weightSets, weightSets.nodes, rowSet
      ensures weightSets.nodes == old(weightSets.nodes)
      ensures res.Ok? ==> Between(res.value, rowSet[..]) && |res.value.mainCols| == |t.mainCols| + 1
      ensures res.Ok? ==> TakesLeast(rows, sparseSize, t, res.value)
      ensures res.Err? ==> IsDuplicate(dense, res.error)
      ensures res.Err? ==>
        Least(rows, sparseSize, t, c) && FirstRepeat(dense, LeftIn(rows, t, c), res.error) &&
        DistinctGaps(dense, t.gapRows)
      ensures res.Err? || res.value.gapRows != t.gapRows ==> HasCore(rows)
    {
      hide HasCore, LeftIn, IsDuplicate, DistinctGaps;
      var col := TakeColumn(rowSet, t);
      c := col;
      if 2 <= |LeftIn(rows, t, c)| {
        LeastIsCore(rows, sparseSize, t, c);
      }
      res := FixColumn(col, rowSet, t);
      if res.Ok? {
        assert Columns(res.value.mainCols) == Columns(t.mainCols) + {c};
      }
    }

    // A spent structure is filled again from the column sizes.
    method Refill() returns (ok: bool)
      requires Valid() && Ready()
      modifies weightSets, weightSets.nodes
      ensures weightSets.nodes == old(weightSets.nodes)
      ensures ok && BucketsFull()
    {
      hide Light;
      ok := true;
      if |weightSets.weightSets| <= 1 {
        var colWeights := seq(sparseSize, c requires 0 <= c < sparseSize == cols.Length reads this,
            cols => cols[c].size);
        assert colWeights == ColumnWeights(rows, sparseSize, numItems);
        WeightsLight(colWeights);
        ok := weightSets.Init(colWeights);
      }
    }

    // The triangulation loop.
    method PeelAll(rowSet: array<bool>) returns (res: Result<Triangle>, ghost t0: Triangle, ghost c: nat)
      requires Valid() && Between(Triangle([], [], []), rowSet[..])
      modifies weightSets, weightSets.nodes, rowSet
      ensures weightSets.nodes == old(weightSets.nodes)
      ensures res.Ok? ==> Triangular(rows, sparseSize, res.value) && DistinctGaps(dense, res.value.gapRows)
      ensures res.Ok? ==> ByLeastWeight(rows, sparseSize, res.value)
      ensures res.Ok? ==> weightSets.nodes.Length == sparseSize && |weightSets.weightSets| <= 1
      ensures res.Ok? ==> weightSets.live == UpTo(sparseSize) - Columns(res.value.mainCols)
      ensures res.Ok? ==> (res.value.gapRows == [] <==> !HasCore(rows))
      ensures res.Err? ==> IsDuplicate(dense, res.error) && HasCore(rows)
      ensures res.Err? ==> MeetsDuplicate(rows, sparseSize, dense, t0, c, res.error)
    {
      assert ByLeastWeight(rows, sparseSize, Triangle([], [], []));
      hide HasCore, Between, Triangular, DistinctGaps, IsDuplicate, ByLeastWeight, TakesLeast;
      var t := Triangle([], [], []);
      t0, c := t, 0;
      while 1 < |weightSets.weightSets|
        invariant Between(t, rowSet[..]) && weightSets.nodes == old(weightSets.nodes)
        invariant (t.gapRows == [] || HasCore(rows)) && ByLeastWeight(rows, sparseSize, t)
        decreases sparseSize - |t.mainCols|
      {
        t0 := t;
        res, c := PeelColumn(rowSet, t);
        if res.Err? {
          return;
        }
        MoreByLeastWeight(rows, sparseSize, t, res.value);
        t := res.value;
        ColumnsBounded(t, rowSet[..]);
      }
      AllRowsSet(t, rowSet[..]);
      if HasCore(rows) {
        CoreHasGap(rows, sparseSize, t);
      }
      return Ok(t), t0, c;
    }

    /** triangulate: on success every row is main or gap, and the result is triangular: it is
        what taking columns of least weight leads to. The gap is empty exactly if the rows can be
        peeled away, and only otherwise can it fail: when the column c that is taken after t0 has
        a row with the dense part of its first one. */
    method Triangulate() returns (res: Result<Triangle>, ghost t0: Triangle, ghost c: nat)
      requires Valid() && Ready()
      modifies weightSets, weightSets.nodes
      ensures weightSets.nodes == old(weightSets.nodes)
      ensures res.Ok? ==> Triangular(rows, sparseSize, res.value) && DistinctGaps(dense, res.value.gapRows)
      ensures res.Ok? ==> ByLeastWeight(rows, sparseSize, res.value)
      ensures res.Ok? ==> Ready() && weightSets.live == UpTo(sparseSize) - Columns(res.value.mainCols)
      ensures res.Ok? ==> (res.value.gapRows == [] <==> !HasCore(rows))
      ensures res.Err? ==> IsDuplicate(dense, res.error) && HasCore(rows)
      ensures res.Err? ==> MeetsDuplicate(rows, sparseSize, dense, t0, c, res.error)
    {
      t0, c := Triangle([], [], []), 0;
      hide MeetsDuplicate, HasCore, Between, Triangular, DistinctGaps, Light, IsDuplicate, ByLeastWeight;
      var ok := Refill();
      if !ok {
        return Err(TooManyInColumn), t0, c;
      }
      var rowSet := new bool[numItems](_ => false);
      StartsBetween(Triangle([], [], []), rowSet[..]);
      res, t0, c := PeelAll(rowSet);
    }

    lemma StartsBetween(t: Triangle, rowSet: seq<bool>)
      requires Valid() && weightSets.nodes.Length == sparseSize && BucketsFull()
      requires t == Triangle([], [], []) && rowSet == seq(numItems, _ => false)
      ensures Between(t, rowSet)
    {
      forall c | 0 <= c < sparseSize ensures weightSets.Weights()[c] == Expected(rows, rowSet, {}, [], c) {
        UnsetInitially(rows, rowSet, c, numItems);
      }
      assert Columns([]) == {};
    }

    lemma ColumnsBounded(t: Triangle, rowSet: seq<bool>)
      requires Between(t, rowSet)
      ensures |t.mainCols| <= sparseSize
    {
      DistinctBound(t.mainCols, sparseSize);
    }

    // When only the bucket of weight zero is left, every row has been chosen.
    lemma AllRowsSet(t: Triangle, rowSet: seq<bool>)
      requires Valid() && Between(t, rowSet) && |weightSets.weightSets| <= 1
      ensures Triangular(rows, sparseSize, t) && DistinctGaps(dense, t.gapRows)
      ensures weightSets.nodes.Length == sparseSize && weightSets.live == UpTo(sparseSize) - Columns(t.mainCols)
    {
      forall i | 0 <= i < |rows| ensures i in t.Rows() {
        assert GoodRow(rows[i], sparseSize);
        var c := rows[i][0];
        if c in t.mainCols {
          var k :| 0 <= k < |t.mainCols| && t.mainCols[k] == c;
          assert rowSet[i];
        } else {
          assert c in weightSets.live;
          assert weightSets.Weights()[c] == Expected(rows, rowSet, Columns(t.mainCols), [], c);
          UnsetPositive(rows, rowSet, c, |rows|);
        }
      }
    }
  }

  // The rows of rs below k that t0 has not taken are taken, for column c.
  ghost predicate TakenSoFar(t0: Triangle, t: Triangle, first: bool, rowSet: seq<bool>, c: nat, rs: seq<nat>, k: nat)
  {
    && k <= |rs| && t == Taken(t0, c, Without(rs[..k], t0.Rows()))
    && (first <==> Without(rs[..k], t0.Rows()) == [])
    && forall q :: 0 <= q < k ==> 0 <= rs[q] < |rowSet| && rowSet[rs[q]]
  }

  // A pass over one more row.
  lemma OneMore(rows: seq<seq<nat>>, t0: Triangle, t: Triangle, first: bool, rowSet: seq<bool>, c: nat, rs: seq<nat>,
      k: nat)
    requires k < |rs| && Distinct(rs) && rs[k] < |rowSet| == |rows| && TakenSoFar(t0, t, first, rowSet, c, rs, k)
    requires forall i :: 0 <= i < |rows| ==> (rowSet[i] <==> i in t.Rows())
    ensures var r, set' := rs[k], rowSet[rs[k] := true];
      if rowSet[r] then TakenSoFar(t0, t, first, set', c, rs, k + 1)
      else if first then
        TakenSoFar(t0, Triangle(t.mainRows + [r], t.mainCols + [c], t.gapRows), false, set', c, rs, k + 1)
      else
        2 <= |Without(rs, t0.Rows())| && t.mainRows != []
        && TakenSoFar(t0, t.(gapRows := t.gapRows + [(r, t.mainRows[|t.mainRows| - 1])]), false, set', c, rs, k + 1)
  {
    hide Taken, Without, Distinct;
    var left := Without(rs[..k], t0.Rows());
    NextTaken(t0, c, rs, k);
    TakenNext(t0, c, left, rs[k]);
    WithoutPrefix(rs, t0.Rows(), k + 1);
  }

  lemma NextTaken(t0: Triangle, c: nat, rs: seq<nat>, k: nat)
    requires k < |rs| && Distinct(rs)
    ensures var left := Without(rs[..k], t0.Rows());
      (rs[k] in Taken(t0, c, left).Rows() <==> rs[k] in t0.Rows())
      && Without(rs[..k + 1], t0.Rows()) == if rs[k] in t0.Rows() then left else left + [rs[k]]
  {
    TakenRows(t0, c, Without(rs[..k], t0.Rows()), rs[k]);
    WithoutMembers(rs[..k], t0.Rows());
    assert rs[..k + 1][..k] == rs[..k];
    assert rs[k] !in rs[..k];
  }

  lemma MoreByLeastWeight(rows: seq<seq<nat>>, sparseSize: nat, t0: Triangle, t: Triangle)
    requires ByLeastWeight(rows, sparseSize, t0) && TakesLeast(rows, sparseSize, t0, t)
    requires |t0.mainCols| < |t.mainCols|
    ensures ByLeastWeight(rows, sparseSize, t)
  {
  }

  lemma WithoutPrefix(s: seq<nat>, u: seq<nat>, k: nat)
    requires k <= |s|
    ensures Without(s[..k], u) <= Without(s, u)
    decreases |s| - k
  {
    if k < |s| {
      assert s[..k + 1][..k] == s[..k];
      WithoutPrefix(s, u, k + 1);
    } else {
      assert s[..k] == s;
    }
  }

  // Gap rows that share their columns' main row have another key.
  ghost predicate DistinctGaps<D>(dense: seq<D>, gapRows: seq<(nat, nat)>)
  {
    forall g :: 0 <= g < |gapRows| ==>
      gapRows[g].0 < |dense| && gapRows[g].1 < |dense| && dense[gapRows[g].0] != dense[gapRows[g].1]
  }

  // e names the first row of l and the first later one with the same dense part.
  ghost predicate FirstRepeat<D>(dense: seq<D>, l: seq<nat>, e: Error)
  {
    exists i :: 0 < i < |l| && RepeatsAt(dense, l, i) && e == DuplicateKeys(l[0], l[i])
  }

  ghost predicate RepeatsAt<D>(dense: seq<D>, l: seq<nat>, i: nat)
    requires 0 < i < |l|
  {
    && l[0] < |dense| && l[i] < |dense| && dense[l[i]] == dense[l[0]]
    && forall j :: 0 < j < i ==> l[j] < |dense| && dense[l[j]] != dense[l[0]]
  }

  // Triangulation has come to t0 without meeting two keys with the same dense part, and meets
  // them when it takes column c.
  ghost predicate MeetsDuplicate<D>(rows: seq<seq<nat>>, sparseSize: nat, dense: seq<D>, t0: Triangle, c: nat, e: Error)
  {
    && ByLeastWeight(rows, sparseSize, t0) && DistinctGaps(dense, t0.gapRows)
    && Least(rows, sparseSize, t0, c) && FirstRepeat(dense, LeftIn(rows, t0, c), e)
  }

  // The rows taken before are gap rows with another dense part than the main row.
  lemma RepeatFound<D>(dense: seq<D>, rows: seq<seq<nat>>, t0: Triangle, t: Triangle, first: bool, rowSet: seq<bool>,
      c: nat, rs: seq<nat>, k: nat)
    requires k < |rs| && Distinct(rs) && TakenSoFar(t0, t, first, rowSet, c, rs, k) && !first
    requires rs[k] < |rowSet| == |rows| && forall i :: 0 <= i < |rows| ==> (rowSet[i] <==> i in t.Rows())
    requires DistinctGaps(dense, t.gapRows) && !rowSet[rs[k]] && t.mainRows != []
    requires IsDuplicate(dense, DuplicateKeys(t.mainRows[|t.mainRows| - 1], rs[k]))
    ensures FirstRepeat(dense, Without(rs, t0.Rows()), DuplicateKeys(t.mainRows[|t.mainRows| - 1], rs[k]))
  {
    var left := Without(rs[..k], t0.Rows());
    assert t == Taken(t0, c, left) && left != [];
    hide Without, Distinct, DistinctGaps, FirstRepeat, Taken, TakenSoFar, IsDuplicate;
    TakenLast(t0, c, left);
    RepeatIn(dense, t0, c, rs, k);
  }

  lemma RepeatIn<D>(dense: seq<D>, t0: Triangle, c: nat, rs: seq<nat>, k: nat)
    requires k < |rs| && Distinct(rs) && Without(rs[..k], t0.Rows()) != []
    requires rs[k] !in Taken(t0, c, Without(rs[..k], t0.Rows())).Rows()
    requires DistinctGaps(dense, Taken(t0, c, Without(rs[..k], t0.Rows())).gapRows)
    requires IsDuplicate(dense, DuplicateKeys(Without(rs[..k], t0.Rows())[0], rs[k]))
    ensures FirstRepeat(dense, Without(rs, t0.Rows()), DuplicateKeys(Without(rs[..k], t0.Rows())[0], rs[k]))
  {
    hide Without, Distinct, DistinctGaps, FirstRepeat, Taken;
    var left, l := Without(rs[..k], t0.Rows()), Without(rs, t0.Rows());
    NextTaken(t0, c, rs, k);
    WithoutPrefix(rs, t0.Rows(), k + 1);
    NoRepeatYet(dense, t0, c, left);
    LongerRepeats(dense, left, rs[k], l);
  }

  lemma TakenLast(t0: Triangle, c: nat, left: seq<nat>)
    requires left != []
    ensures var mains := Taken(t0, c, left).mainRows; mains != [] && mains[|mains| - 1] == left[0]
  {
  }

  // The rows taken so far differ from the first in their dense parts.
  lemma NoRepeatYet<D>(dense: seq<D>, t0: Triangle, c: nat, left: seq<nat>)
    requires left != [] && DistinctGaps(dense, Taken(t0, c, left).gapRows)
    ensures forall j :: 0 < j < |left| ==> left[j] < |dense| && left[0] < |dense| && dense[left[j]] != dense[left[0]]
  {
    var gaps, g := Taken(t0, c, left).gapRows, |t0.gapRows|;
    forall j | 0 < j < |left|
      ensures left[j] < |dense| && left[0] < |dense| && dense[left[j]] != dense[left[0]]
    {
      var q := g + (j - 1);
      assert gaps[q] == (left[j], left[0]);
      assert gaps[q].0 < |dense| && gaps[q].1 < |dense| && dense[gaps[q].0] != dense[gaps[q].1];
    }
  }

  lemma LongerRepeats<D>(dense: seq<D>, left: seq<nat>, r: nat, l: seq<nat>)
    requires left != [] && left + [r] <= l && left[0] < |dense| && r < |dense| && dense[r] == dense[left[0]]
    requires forall j :: 0 < j < |left| ==> left[j] < |dense| && dense[left[j]] != dense[left[0]]
    ensures FirstRepeat(dense, l, DuplicateKeys(left[0], r))
  {
    assert l[|left|] == (left + [r])[|left|] == r;
    assert forall j :: 0 <= j < |left| ==> l[j] == (left + [r])[j] == left[j];
    assert RepeatsAt(dense, l, |left|);
  }

  ghost predicate IsDuplicate<D>(dense: seq<D>, e: Error)
  {
    e.DuplicateKeys? && e.first < |dense| && e.second < |dense| && e.first != e.second &&
        dense[e.first] == dense[e.second]
  }

  ghost function Columns(s: seq<nat>): set<int>
  {
    set c: int | c in s
  }

  lemma {:induction false} ColumnsSize(s: seq<nat>)
    ensures |Columns(s)| <= |s|
  {
    if s != [] {
      var init := s[..|s| - 1];
      ColumnsSize(init);
      assert s == init + [s[|s| - 1]];
      assert Columns(s) == Columns(init) + {s[|s| - 1]};
    }
  }

  // While row r is not chosen, there are fewer fixed columns than rows.
  lemma FixedBound(rows: seq<seq<nat>>, sparseSize: nat, base: seq<nat>, t: Triangle, c: nat, r: nat)
    requires PartlyTriangular(rows, sparseSize, t) && r < |rows| && r !in t.Rows()
    requires t.mainCols == base || t.mainCols == base + [c]
    ensures |Columns(base) + {c}| <= |rows|
  {
    DistinctBound(t.Rows() + [r], |rows|);
    ColumnsSize(base);
  }

  // Every row that contains one of the columns is set.
  ghost predicate ColumnsDone(rows: seq<seq<nat>>, rowSet: seq<bool>, cols: seq<nat>)
  {
    |rowSet| == |rows| &&
    forall i, k :: 0 <= i < |rows| && 0 <= k < |cols| && cols[k] in rows[i] ==> rowSet[i]
  }

  ghost function Expected(rows: seq<seq<nat>>, rowSet: seq<bool>, fixed: set<int>, rest: seq<nat>, c: nat): nat
    requires |rowSet| == |rows|
  {
    if c in fixed then 0 else Unset(rows, rowSet, c, |rows|) + if c in rest then 1 else 0
  }

  lemma {:induction false} UpToSize(n: nat)
    ensures |UpTo(n)| == n
  {
    if n > 0 {
      UpToSize(n - 1);
    }
  }

  // At least one column besides c is still on the lists.
  lemma TwoLeft(n: nat, fixed: set<int>, c: int)
    requires |fixed| + 2 <= n
    ensures UpTo(n) - fixed != {c}
  {
    UpToSize(n);
    if UpTo(n) - fixed == {c} {
      assert UpTo(n) <= fixed + {c};
      SubsetSize(UpTo(n), fixed + {c});
    }
  }

  ghost predicate LaidOut(w: seq<nat>, spans: seq<Span>, backing: seq<nat>)
  {
    && |spans| == |w| && Offset(w, |w|) == |backing|
    && forall c :: 0 <= c < |w| ==> spans[c].start == Offset(w, c) && spans[c].size <= w[c]
  }

  ghost function Slice(w: seq<nat>, spans: seq<Span>, backing: seq<nat>, c: nat): seq<nat>
    requires LaidOut(w, spans, backing) && c < |w|
  {
    OffsetMonotone(w, c + 1, |w|);
    backing[spans[c].start..spans[c].start + spans[c].size]
  }

  lemma SliceSize(w: seq<nat>, spans: seq<Span>, backing: seq<nat>, c: nat)
    requires LaidOut(w, spans, backing) && c < |w|
    ensures |Slice(w, spans, backing, c)| == spans[c].size
    ensures spans[c].start + w[c] <= |backing|
  {
    OffsetMonotone(w, c + 1, |w|);
  }

  // Empty spans at the offsets are laid out.
  lemma EmptySpans(w: seq<nat>, spans: seq<Span>, backing: seq<nat>)
    requires |spans| == |w| && Offset(w, |w|) == |backing|
    requires forall c :: 0 <= c < |w| ==> spans[c] == Span(Offset(w, c), 0)
    ensures LaidOut(w, spans, backing) && forall c :: 0 <= c < |w| ==> Slice(w, spans, backing, c) == []
  {
    forall c | 0 <= c < |w| ensures Slice(w, spans, backing, c) == [] {
      SliceSize(w, spans, backing, c);
    }
  }

  // The stretches of two columns do not meet.
  lemma StretchesApart(w: seq<nat>, c: nat, d: nat)
    requires c < |w| && d < |w|
    ensures Offset(w, c) + w[c] <= Offset(w, |w|)
    ensures c < d ==> Offset(w, c) + w[c] <= Offset(w, d)
  {
    hide Offset;
    OffsetNext(w, c);
    OffsetMonotone(w, c + 1, |w|);
    if c < d {
      OffsetMonotone(w, c + 1, d);
    }
  }

  lemma OffsetStart(w: seq<nat>)
    ensures Offset(w, 0) == 0
  {
  }

  lemma OffsetNext(w: seq<nat>, c: nat)
    requires c < |w|
    ensures Offset(w, c + 1) == Offset(w, c) + w[c]
  {
  }

  lemma AppendToOne(w: seq<nat>, spans: seq<Span>, backing: seq<nat>, c: nat, i: nat, d: nat)
    requires LaidOut(w, spans, backing) && c < |w| && d < |w| && spans[c].size < w[c]
    ensures var p := spans[c].start + spans[c].size; var spans' := spans[c := Span(spans[c].start, spans[c].size + 1)];
      p < |backing| && spans'[d].start + spans'[d].size <= |backing|
      && backing[p := i][spans'[d].start..spans'[d].start + spans'[d].size]
      == backing[spans[d].start..spans[d].start + spans[d].size] + if d == c then [i] else []
  {
    StretchesApart(w, c, d);
    StretchesApart(w, d, c);
    var p := spans[c].start + spans[c].size;
    var size := if d == c then spans[c].size + 1 else spans[d].size;
    SliceAfterWrite(backing, p, i, spans[d].start, spans[d].start + size);
  }

  lemma AppendKeepsLaid(w: seq<nat>, spans: seq<Span>, backing: seq<nat>, c: nat, i: nat)
    requires LaidOut(w, spans, backing) && c < |w| && spans[c].size < w[c]
    ensures spans[c].start + spans[c].size < |backing|
    ensures var spans' := spans[c := Span(spans[c].start, spans[c].size + 1)];
            var backing' := backing[spans[c].start + spans[c].size := i];
            LaidOut(w, spans', backing')
            && forall d :: 0 <= d < |w| ==>
              Slice(w, spans', backing', d) == Slice(w, spans, backing, d) + if d == c then [i] else []
  {
    StretchesApart(w, c, c);
    var spans' := spans[c := Span(spans[c].start, spans[c].size + 1)];
    var backing' := backing[spans[c].start + spans[c].size := i];
    assert LaidOut(w, spans', backing');
    forall d | 0 <= d < |w|
      ensures Slice(w, spans', backing', d) == Slice(w, spans, backing, d) + if d == c then [i] else []
    {
      AppendToOne(w, spans, backing, c, i, d);
    }
  }

  lemma SliceAfterWrite(s: seq<nat>, p: nat, x: nat, a: nat, b: nat)
    requires p < |s| && a <= b <= |s| && (p < a || b <= p + 1)
    ensures s[p := x][a..b] == if a <= p < b then s[a..p] + [x] else s[a..b]
  {
  }

  lemma {:induction false} RowsWithMonotone(rows: seq<seq<nat>>, c: nat, m: nat, n: nat)
    requires m <= n <= |rows|
    ensures |RowsWith(rows, c, m)| <= |RowsWith(rows, c, n)|
    decreases n
  {
    if m < n {
      RowsWithMonotone(rows, c, m, n - 1);
    }
  }

  lemma RoomForRow(rows: seq<seq<nat>>, sparseSize: nat, i: nat, n: nat)
    requires i < n <= |rows|
    ensures forall c :: 0 <= c < sparseSize && c in rows[i] ==>
      |RowsWith(rows, c, i)| < ColumnWeights(rows, sparseSize, n)[c]
  {
    forall c | 0 <= c < sparseSize && c in rows[i] ensures |RowsWith(rows, c, i)| < |RowsWith(rows, c, n)| {
      RowsWithMonotone(rows, c, i + 1, n);
    }
  }

  // The number of columns below s that are in the row.
  function Hits(row: seq<nat>, s: nat): nat
  {
    if s == 0 then 0 else Hits(row, s - 1) + if s - 1 in row then 1 else 0
  }

  lemma {:induction false} HitsSplit(row: seq<nat>, s: nat)
    requires row != [] && Distinct(row)
    ensures Hits(row, s) == Hits(row[1..], s) + if row[0] < s then 1 else 0
  {
    if s > 0 {
      HitsSplit(row, s - 1);
      assert row == [row[0]] + row[1..];
    }
  }

  lemma {:induction false} HitsGood(row: seq<nat>, s: nat)
    requires Distinct(row) && forall j :: 0 <= j < |row| ==> row[j] < s
    ensures Hits(row, s) == |row|
  {
    if row == [] {
      HitsEmpty(s);
    } else {
      HitsSplit(row, s);
      HitsGood(row[1..], s);
    }
  }

  lemma {:induction false} HitsEmpty(s: nat)
    ensures Hits([], s) == 0
  {
    if s > 0 {
      HitsEmpty(s - 1);
    }
  }

  lemma {:induction false} OffsetStep(rows: seq<seq<nat>>, sparseSize: nat, n: nat, c: nat)
    requires 0 < n <= |rows| && c <= sparseSize
    ensures Offset(ColumnWeights(rows, sparseSize, n), c)
         == Offset(ColumnWeights(rows, sparseSize, n - 1), c) + Hits(rows[n - 1], c)
  {
    if c > 0 {
      OffsetStep(rows, sparseSize, n, c - 1);
    }
  }

  // Double counting: the column weights add up to the number of entries.
  lemma {:induction false} TotalWeight(rows: seq<seq<nat>>, sparseSize: nat, weight: nat, n: nat)
    requires n <= |rows| && GoodRows(rows, sparseSize)
    requires forall i :: 0 <= i < |rows| ==> |rows[i]| == weight
    ensures Offset(ColumnWeights(rows, sparseSize, n), sparseSize) == n * weight
  {
    if n == 0 {
      OffsetZero(ColumnWeights(rows, sparseSize, 0), sparseSize);
    } else {
      TotalWeight(rows, sparseSize, weight, n - 1);
      OffsetStep(rows, sparseSize, n, sparseSize);
      assert GoodRow(rows[n - 1], sparseSize);
      HitsGood(rows[n - 1], sparseSize);
      assert n * weight == (n - 1) * weight + weight;
    }
  }

  lemma {:induction false} OffsetZero(w: seq<nat>, c: nat)
    requires c <= |w| && forall d :: 0 <= d < |w| ==> w[d] == 0
    ensures Offset(w, c) == 0
  {
    if c > 0 {
      OffsetZero(w, c - 1);
    }
  }
}
