/** Batched decoding of the binned OKVS with either dense type (ImplDecodeBin to ImplParDecode in
    rr22/okvs/baxos.cc, Paxos::Decode in rr22/okvs/paxos.cc). */
module BatchedDecoding {
  import opened Algebra
  import opened Arithmetic
  import opened PaxosState
  import opened Triangulation
  import opened Decoding
  import opened Backfill
  import opened BackfillBinary
  import opened MaskedDecoding
  import opened Binning
  import opened Baxos
  import opened Lists

  // How a hash is decoded: the two dense types. The bits of a dense part are those of its low half word.
  datatype Coding<!W(!new)> =
    | Powered(o: Okvs<W>, sp: Space<W, W>)
    | Masked(o: Okvs<W>, bits: Space<bool, W>, bitsOf: W -> seq<bool>)
  {
    function Bits(d: W): seq<bool>
      requires Masked?
    {
      bitsOf(d)
    }

    function Plus(u: W, v: W): W
    {
      match this
      case Powered(_, sp) => sp.Plus(u, v)
      case Masked(_, bits, _) => bits.Plus(u, v)
    }

    function Nil(): W
    {
      match this
      case Powered(_, sp) => sp.nil
      case Masked(_, bits, _) => bits.nil
    }

    ghost predicate Good()
    {
      && o.Good() && 0 < o.weight
      && match this
         case Powered(_, sp) => sp.IsSpace()
         case Masked(_, bits, _) =>
           bits.IsSpace() && !bits.zero && bits.one && o.denseSize <= 64 && forall d :: o.denseSize <= |Bits(d)|
    }

    // Decoding one hash in the vector of a bin.
    ghost function At(p: seq<W>, x: W): W
      requires Good() && |p| == o.Size()
    {
      match this
      case Powered(_, sp) => MaskedDecoding.At(sp, o, p, x)
      case Masked(_, bits, _) =>
        assert GoodRow(o.Cols(x), o.sparseSize);
        Decode(bits, o.Cols(x), Bits(o.Dense(x))[..o.denseSize], p, o.sparseSize)
    }
  }

  // BuildRow32 and Decode32: some hashes decoded together.
  method DecodeGroup<W(!new)>(c: Coding<W>, group: seq<W>, p: seq<W>) returns (values: seq<W>)
    requires c.Good() && |p| == c.o.Size()
    ensures |values| == |group| && forall k :: 0 <= k < |group| ==> values[k] == c.At(p, group[k])
  {
    var o, n := c.o, |group|;
    var rows := seq(n, k requires 0 <= k < n => o.Cols(group[k]));
    var dense := seq(n, k requires 0 <= k < n => o.Dense(group[k]));
    forall k | 0 <= k < n ensures GoodRow(rows[k], o.sparseSize) && |rows[k]| == o.weight {
      assert GoodRow(o.Cols(group[k]), o.sparseSize);
    }
    match c
    case Powered(_, sp) =>
      values := DecodeTogether(sp, o, rows, dense, p);
    case Masked(_, bits, _) =>
      var bitRows := seq(n, k requires 0 <= k < n => c.Bits(dense[k]));
      values := DecodeTogetherBits(bits, o.weight, o.sparseSize, o.denseSize, rows, bitRows, p);
  }

  // BuildRow and Decode1: one hash decoded alone.
  method DecodeOne<W(!new)>(c: Coding<W>, x: W, p: seq<W>) returns (v: W)
    requires c.Good() && |p| == c.o.Size()
    ensures v == c.At(p, x)
  {
    var o := c.o;
    assert GoodRow(o.Cols(x), o.sparseSize);
    match c
    case Powered(_, sp) =>
      v := Decode1Gf128(sp, o.Cols(x), o.Dense(x), o.denseSize, p, o.sparseSize);
    case Masked(_, bits, _) =>
      v := Decode1Binary(bits, o.Cols(x), c.Bits(o.Dense(x))[..o.denseSize], p, o.sparseSize);
  }

  // One call of the decoder: the hashes and their bins, the vectors of all bins, what the values
  // were before, and whether the decoded values are added to them.
  datatype Job<!W(!new)> = Job(c: Coding<W>, add: bool, bins: nat, hashes: seq<W>, binOf: seq<nat>, p: seq<W>,
    before: seq<W>)
  {
    ghost predicate Good()
    {
      && c.Good() && |hashes| == |binOf| == |before| && |p| == c.o.Size() * bins
      && forall i :: 0 <= i < |binOf| ==> binOf[i] < bins
    }

    function Written(current: W, decoded: W): W { if add then c.Plus(current, decoded) else decoded }

    ghost function Vector(b: nat): (s: seq<W>)
      requires Good() && b < bins
      ensures c.o.Size() * b + c.o.Size() <= |p| && |s| == c.o.Size() && s == Baxos.Slice(p, c.o.Size(), b)
    {
      SliceFits(c.o.Size(), b, bins);
      Baxos.Slice(p, c.o.Size(), b)
    }

    // What the i-th value must become.
    ghost function Wanted(i: nat): W
      requires Good() && i < |hashes|
    {
      Written(before[i], c.At(Vector(binOf[i]), hashes[i]))
    }

    // The inputs from lo to hi.
    function Part(lo: nat, hi: nat): Job<W>
      requires lo <= hi <= |hashes| == |binOf| == |before|
    {
      this.(hashes := hashes[lo..hi], binOf := binOf[lo..hi], before := before[lo..hi])
    }
  }

  lemma SliceFits(size: nat, b: nat, bins: nat)
    requires b < bins
    ensures size * b + size <= size * bins
  {
    MulGap(size, bins, b);
  }

  // The buffered inputs of one bin: hashes, and the positions their values go to.
  datatype Buffer<W> = Buffer(hashes: seq<W>, inIdxs: seq<nat>)

  // A buffer holds inputs of bin b below n, each once and with its hash.
  ghost predicate BufferOk<W(!new)>(job: Job<W>, buffer: Buffer<W>, b: nat, n: nat)
    requires |job.hashes| == |job.binOf|
  {
    && |buffer.hashes| == |buffer.inIdxs| && Distinct(buffer.inIdxs)
    && forall k :: 0 <= k < |buffer.inIdxs| ==>
      && buffer.inIdxs[k] < n && buffer.inIdxs[k] < |job.binOf| && job.binOf[buffer.inIdxs[k]] == b
      && job.hashes[buffer.inIdxs[k]] == buffer.hashes[k]
  }

  // The values with the first k positions of idxs written.
  ghost predicate Filled<W(!new)>(job: Job<W>, idxs: seq<nat>, k: nat, values: seq<W>, out: seq<W>)
    requires job.Good()
  {
    && |out| == |values| == |job.hashes| && k <= |idxs|
    && forall i :: 0 <= i < |out| ==> out[i] == if i in idxs[..k] then job.Wanted(i) else values[i]
  }

  lemma NoneFilled<W(!new)>(job: Job<W>, idxs: seq<nat>, values: seq<W>)
    requires job.Good() && |values| == |job.hashes|
    ensures Filled(job, idxs, 0, values, values)
  {
  }

  lemma FillNext<W(!new)>(job: Job<W>, buffer: Buffer<W>, b: nat, k: nat, values: seq<W>, out: seq<W>, decoded: W)
    requires job.Good() && b < job.bins && BufferOk(job, buffer, b, |job.hashes|) && k < |buffer.inIdxs|
    requires Filled(job, buffer.inIdxs, k, values, out) && values[buffer.inIdxs[k]] == job.before[buffer.inIdxs[k]]
    requires decoded == job.c.At(job.Vector(b), buffer.hashes[k])
    ensures var i := buffer.inIdxs[k];
      i < |out| && Filled(job, buffer.inIdxs, k + 1, values, out[i := job.Written(out[i], decoded)])
  {
    var idxs := buffer.inIdxs;
    assert idxs[..k + 1] == idxs[..k] + [idxs[k]];
    assert idxs[k] !in idxs[..k];
    assert job.Written(out[idxs[k]], decoded) == job.Wanted(idxs[k]);
  }

  // Some decoded values go to their positions.
  method WriteBack<W(!new)>(job: Job<W>, buffer: Buffer<W>, b: nat, at: nat, decoded: seq<W>, ghost values: seq<W>,
      current: seq<W>) returns (out: seq<W>)
    requires job.Good() && b < job.bins && BufferOk(job, buffer, b, |job.hashes|)
    requires at + |decoded| <= |buffer.hashes|
    requires Filled(job, buffer.inIdxs, at, values, current)
    requires forall k :: 0 <= k < |buffer.inIdxs| ==> values[buffer.inIdxs[k]] == job.before[buffer.inIdxs[k]]
    requires forall k :: 0 <= k < |decoded| ==> decoded[k] == job.c.At(job.Vector(b), buffer.hashes[at + k])
    ensures Filled(job, buffer.inIdxs, at + |decoded|, values, out)
  {
    hide Job.Good, Filled;
    out := current;
    for k := 0 to |decoded|
      invariant Filled(job, buffer.inIdxs, at + k, values, out)
    {
      FillNext(job, buffer, b, at + k, values, out, decoded[k]);
      var i := buffer.inIdxs[at + k];
      out := out[i := job.Written(out[i], decoded[k])];
    }
  }

  const BATCH := 32

  // ImplDecodeBin: full groups of 32 hashes together, the others one at a time; each decoded
  // value is assigned or added at the position of its input.
  method DecodeBin<W(!new)>(job: Job<W>, values: seq<W>, buffer: Buffer<W>, b: nat) returns (out: seq<W>)
    requires job.Good() && b < job.bins && |values| == |job.hashes| && BufferOk(job, buffer, b, |job.hashes|)
    requires forall k :: 0 <= k < |buffer.inIdxs| ==> values[buffer.inIdxs[k]] == job.before[buffer.inIdxs[k]]
    ensures Filled(job, buffer.inIdxs, |buffer.inIdxs|, values, out)
  {
    hide Coding.Good, Filled;
    SliceFits(job.c.o.Size(), b, job.bins);
    var p := Baxos.Slice(job.p, job.c.o.Size(), b);
    var i := 0;
    out := values;
    assert Filled(job, buffer.inIdxs, 0, values, out) by {
      NoneFilled(job, buffer.inIdxs, values);
    }
    while i + BATCH <= |buffer.hashes|
      invariant i <= |buffer.hashes| && Filled(job, buffer.inIdxs, i, values, out)
    {
      var decoded := DecodeGroup(job.c, buffer.hashes[i..i + BATCH], p);
      out := WriteBack(job, buffer, b, i, decoded, values, out);
      i := i + BATCH;
    }
    while i < |buffer.hashes|
      invariant i <= |buffer.hashes| && Filled(job, buffer.inIdxs, i, values, out)
    {
      var v := DecodeOne(job.c, buffer.hashes[i], p);
      out := WriteBack(job, buffer, b, i, [v], values, out);
      i := i + 1;
    }
  }

  // Every value is untouched as long as its input has not been reached or waits in the buffer
  // of its bin, and final otherwise.
  ghost predicate Stage<W(!new)>(job: Job<W>, values: seq<W>, buffers: seq<Buffer<W>>, n: nat)
    requires job.Good()
  {
    && |values| == |job.hashes| && |buffers| == job.bins
    && (forall b :: 0 <= b < job.bins ==> BufferOk(job, buffers[b], b, n))
    && forall i :: 0 <= i < |values| ==>
      values[i] == if n <= i || i in buffers[job.binOf[i]].inIdxs then job.before[i] else job.Wanted(i)
  }

  // No buffer is full, so the next input fits.
  predicate Room<W>(decodeSize: nat, buffers: seq<Buffer<W>>)
  {
    forall b :: 0 <= b < |buffers| ==> buffers[b].inIdxs == [] || |buffers[b].inIdxs| < decodeSize
  }

  lemma Entered<W(!new)>(job: Job<W>, values: seq<W>, buffers: seq<Buffer<W>>, i: nat)
    requires job.Good() && i < |job.hashes| && Stage(job, values, buffers, i)
    ensures var b := job.binOf[i];
      Stage(job, values, buffers[b := Buffer(buffers[b].hashes + [job.hashes[i]], buffers[b].inIdxs + [i])], i + 1)
  {
    var b := job.binOf[i];
    var waiting := buffers[b].inIdxs;
    assert BufferOk(job, buffers[b], b, i);
    assert forall j :: j in waiting + [i] <==> j in waiting || j == i;
    forall c | 0 <= c < job.bins && c != b ensures BufferOk(job, buffers[c], c, i + 1) {
      assert BufferOk(job, buffers[c], c, i);
    }
  }

  lemma Emptied<W(!new)>(job: Job<W>, values: seq<W>, buffers: seq<Buffer<W>>, n: nat, b: nat, out: seq<W>)
    requires job.Good() && b < job.bins && Stage(job, values, buffers, n)
    requires Filled(job, buffers[b].inIdxs, |buffers[b].inIdxs|, values, out)
    ensures Stage(job, out, buffers[b := Buffer([], [])], n)
  {
    var idxs, buffers' := buffers[b].inIdxs, buffers[b := Buffer([], [])];
    assert idxs[..|idxs|] == idxs;
    assert BufferOk(job, buffers[b], b, n);
    forall c | 0 <= c < job.bins ensures BufferOk(job, buffers'[c], c, n) {
      assert c != b ==> BufferOk(job, buffers[c], c, n);
    }
  }

  lemma Waiting<W(!new)>(job: Job<W>, values: seq<W>, buffers: seq<Buffer<W>>, n: nat, b: nat)
    requires job.Good() && b < job.bins && Stage(job, values, buffers, n) && n <= |job.hashes|
    ensures |values| == |job.hashes| && |buffers| == job.bins && BufferOk(job, buffers[b], b, |job.hashes|)
    ensures forall k :: 0 <= k < |buffers[b].inIdxs| ==>
      buffers[b].inIdxs[k] < |values| && values[buffers[b].inIdxs[k]] == job.before[buffers[b].inIdxs[k]]
  {
    assert BufferOk(job, buffers[b], b, n);
  }

  // One input enters the buffer of its bin, and a full buffer is decoded.
  method Take<W(!new)>(job: Job<W>, decodeSize: nat, values: seq<W>, buffers: seq<Buffer<W>>, i: nat)
    returns (values': seq<W>, buffers': seq<Buffer<W>>)
    requires job.Good() && i < |job.hashes| && 0 < decodeSize
    requires Stage(job, values, buffers, i) && Room(decodeSize, buffers)
    ensures Stage(job, values', buffers', i + 1) && Room(decodeSize, buffers')
  {
    hide Coding.Good, Stage;
    var b := job.binOf[i];
    assert |buffers| == job.bins && |buffers[b].hashes| == |buffers[b].inIdxs| by {
      Waiting(job, values, buffers, i, b);
    }
    var buffer := Buffer(buffers[b].hashes + [job.hashes[i]], buffers[b].inIdxs + [i]);
    values', buffers' := values, buffers[b := buffer];
    Entered(job, values, buffers, i);
    if |buffer.inIdxs| == decodeSize {
      Waiting(job, values, buffers', i + 1, b);
      values' := DecodeBin(job, values, buffer, b);
      Emptied(job, values, buffers', i + 1, b, values');
      buffers' := buffers'[b := Buffer([], [])];
    }
  }

  /** ImplDecodeBatch: whatever the order of the bins and of the flushes, every input's value is
      what decoding it alone gives, added to what was there if the decoder adds. */
  method ImplDecodeBatch<W(!new)>(job: Job<W>) returns (values: seq<W>)
    requires job.Good()
    ensures |values| == |job.hashes| && forall i :: 0 <= i < |values| ==> values[i] == job.Wanted(i)
  {
    hide Coding.Good, Stage;
    var n := |job.hashes|;
    var decodeSize := if n < 512 then n else 512;
    var buffers: seq<Buffer<W>> := seq(job.bins, _ => Buffer([], []));
    values := job.before;
    assert Stage(job, values, buffers, 0) by {
      AllWait(job, buffers);
    }
    for i := 0 to n
      invariant Stage(job, values, buffers, i) && Room(decodeSize, buffers)
    {
      values, buffers := Take(job, decodeSize, values, buffers, i);
    }
    values := FlushAll(job, values, buffers);
  }

  lemma AllWait<W(!new)>(job: Job<W>, buffers: seq<Buffer<W>>)
    requires job.Good() && buffers == seq(job.bins, _ => Buffer([], []))
    ensures Stage(job, job.before, buffers, 0)
  {
    assert forall b :: 0 <= b < job.bins ==> buffers[b] == Buffer([], []);
  }

  // The partly filled buffers at the end.
  method FlushAll<W(!new)>(job: Job<W>, values: seq<W>, buffers: seq<Buffer<W>>) returns (out: seq<W>)
    requires job.Good() && Stage(job, values, buffers, |job.hashes|)
    ensures |out| == |job.hashes| && forall i :: 0 <= i < |out| ==> out[i] == job.Wanted(i)
  {
    hide Coding.Good, Stage;
    out := values;
    ghost var left := buffers;
    assert |buffers| == job.bins by {
      StageSizes(job, values, buffers, |job.hashes|);
    }
    for b := 0 to job.bins
      invariant |left| == job.bins && Stage(job, out, left, |job.hashes|)
      invariant forall c :: 0 <= c < job.bins ==> if c < b then left[c].inIdxs == [] else left[c] == buffers[c]
    {
      if |buffers[b].inIdxs| != 0 {
        Waiting(job, out, left, |job.hashes|, b);
        ghost var before := out;
        out := DecodeBin(job, out, buffers[b], b);
        Emptied(job, before, left, |job.hashes|, b, out);
        left := left[b := Buffer([], [])];
      }
    }
    NoneWaits(job, out, left);
  }

  lemma StageSizes<W(!new)>(job: Job<W>, values: seq<W>, buffers: seq<Buffer<W>>, n: nat)
    requires job.Good() && Stage(job, values, buffers, n)
    ensures |values| == |job.hashes| && |buffers| == job.bins
  {
  }

  lemma NoneWaits<W(!new)>(job: Job<W>, values: seq<W>, buffers: seq<Buffer<W>>)
    requires job.Good() && Stage(job, values, buffers, |job.hashes|)
    requires forall b :: 0 <= b < |buffers| ==> buffers[b].inIdxs == []
    ensures |values| == |job.hashes| && forall i :: 0 <= i < |values| ==> values[i] == job.Wanted(i)
  {
  }

  // Decoding in one bin: inputs in order, in groups of 32 and one by one.
  method DecodeInOrder<W(!new)>(c: Coding<W>, hashes: seq<W>, p: seq<W>) returns (values: seq<W>)
    requires c.Good() && |p| == c.o.Size()
    ensures |values| == |hashes| && forall i :: 0 <= i < |hashes| ==> values[i] == c.At(p, hashes[i])
  {
    hide Coding.Good;
    values := [];
    var i := 0;
    while i + BATCH <= |hashes|
      invariant i == |values| <= |hashes| && forall j :: 0 <= j < i ==> values[j] == c.At(p, hashes[j])
    {
      var decoded := DecodeGroup(c, hashes[i..i + BATCH], p);
      values, i := values + decoded, i + BATCH;
    }
    while i < |hashes|
      invariant i == |values| <= |hashes| && forall j :: 0 <= j < i ==> values[j] == c.At(p, hashes[j])
    {
      var v := DecodeOne(c, hashes[i], p);
      values, i := values + [v], i + 1;
    }
  }

  /** ImplParDecode: every thread decodes its range, and together they decode every input. A
      single bin is decoded by an object that never adds, whatever the decoder was told. */
  method ImplParDecode<W(!new)>(job: Job<W>, threads: nat) returns (values: seq<W>)
    requires job.Good()
    ensures |values| == |job.hashes|
    ensures forall i :: 0 <= i < |values| ==>
      values[i] == if job.bins == 1 then job.(add := false).Wanted(i) else job.Wanted(i)
  {
    hide Coding.Good, Begin, Job.Wanted;
    var n := |job.hashes|;
    if job.bins == 1 {
      values := DecodeInOrder(job.c, job.hashes, job.p);
      OneBin(job);
      return;
    }
    var count := if threads < 1 then 1 else threads;
    values := [];
    Ranges(n, count, 0);
    for t := 0 to count
      invariant |values| == Begin(n, count, t) <= n
      invariant forall i :: 0 <= i < |values| ==> values[i] == job.Wanted(i)
    {
      Ranges(n, count, t);
      var lo, hi := Begin(n, count, t), Begin(n, count, t + 1);
      var part := ImplDecodeBatch(job.Part(lo, hi));
      PartWanted(job, lo, hi);
      values := values + part;
    }
  }

  lemma OneBin<W(!new)>(job: Job<W>)
    requires job.Good() && job.bins == 1
    ensures |job.p| == job.c.o.Size()
    ensures forall i :: 0 <= i < |job.hashes| ==>
      job.(add := false).Wanted(i) == job.c.At(job.p, job.hashes[i])
  {
    assert job.Vector(0) == job.p;
  }

  /** A decoder that is told to add gets what it asked for from a single bin only where nothing was
      there before. */
  lemma OneBinDoesNotAdd<W(!new)>(job: Job<W>, i: nat)
    requires job.Good() && job.bins == 1 && job.add && i < |job.hashes|
    ensures job.(add := false).Wanted(i) == job.Wanted(i) <==> job.before[i] == job.c.Nil()
  {
    hide Okvs.Good;
    var u, v := job.before[i], job.c.At(job.Vector(0), job.hashes[i]);
    match job.c
    case Powered(_, sp) => SameSum(sp, u, v);
    case Masked(_, bits, _) => SameSum(bits, u, v);
  }

  lemma SameSum<K(!new), V(!new)>(sp: Space<K, V>, u: V, v: V)
    requires sp.IsSpace()
    ensures v == sp.Plus(u, v) <==> u == sp.nil
  {
    assert sp.ValueLaws(u, v, v) && sp.ValueLaws(v, u, u);
  }

  lemma PartWanted<W(!new)>(job: Job<W>, lo: nat, hi: nat)
    requires job.Good() && lo <= hi <= |job.hashes|
    ensures job.Part(lo, hi).Good()
    ensures forall i :: 0 <= i < hi - lo ==> job.Part(lo, hi).Wanted(i) == job.Wanted(lo + i)
  {
  }

  /** Solving and decoding on any numbers of threads gives back every value, whenever the bins are
      solved. */
  method SolveThenDecode<K(==, !new)>(sp: Space<K, K>, o: Okvs<K>, x: Inputs<K, K>, sh: Shape, itemsPerBin: nat,
      threads: nat) returns (res: Result<seq<K>>, ghost trs: seq<Trace>)
    requires sp.IsSpace() && sp.one != sp.zero && o.Good() && 0 < o.weight && 0 < sh.threads && x.Good(sh.bins)
    requires if sh.bins == 1 then |x.hashes| + 2 <= o.sparseSize
             else itemsPerBin + 2 <= o.sparseSize && sh.Fits(x.binOf)
    ensures res.Ok? ==> res.value == x.values
    ensures ParEnds(sp, o, x, itemsPerBin, sh.bins, trs, ErrorOf(res))
    ensures ParPeelable(o, x, itemsPerBin, sh.bins) ==> res.Ok?
  {
    hide Okvs.Good, ParEnds, ParPeelable;
    var p;
    p, trs := ImplParSolve(sp, o, x, sh, itemsPerBin);
    if p.Err? {
      return Err(p.error), trs;
    }
    var job := Job(Powered(o, sp), false, sh.bins, x.hashes, x.binOf, p.value, seq(|x.hashes|, _ => sp.nil));
    var v2 := ImplParDecode(job, threads);
    forall i | 0 <= i < |v2| ensures v2[i] == x.values[i] {
      assert v2[i] == job.c.At(job.Vector(x.binOf[i]), x.hashes[i]);
      assert v2[i] == BinAt(sp, o, p.value, x.hashes[i], x.binOf[i]);
    }
    res := Ok(v2);
  }
}
