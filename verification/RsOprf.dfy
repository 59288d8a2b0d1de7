/** The semi-honest oblivious PRF of RsOprf.cpp: the receiver sends its vector in chunks, and the
    sender evaluates any input to what the receiver got for it. */
module RsOprf {
  import opened Lists
  import opened Algebra
  import opened PaxosState
  import opened Triangulation
  import opened Backfill
  import opened MaskedDecoding

  // ----- Sending the masked vector in chunks -----

  // p with c added on len entries.
  function AddedOn<K(!new)>(sp: Space<K, K>, p: seq<K>, c: seq<K>, at: nat, len: nat): (s: seq<K>)
    requires |p| == |c| && at + len <= |p|
    ensures |s| == |p|
  {
    seq(|p|, i requires 0 <= i < |p| => if at <= i < at + len then sp.Plus(p[i], c[i]) else p[i])
  }

  function Min(a: nat, b: nat): nat { if a < b then a else b }

  // One turn of the loop. The span p has been cut to [po, po + ps) of the vector; it is cut
  // again only if this chunk is not all of it, and the second inner loop runs to the size of
  // the cut span.
  datatype Turn<K> = Turn(p: seq<K>, po: nat, ps: nat, message: seq<K>, moved: bool)

  function Eighths(n: nat): (m: nat)
    ensures m <= n && (n % 8 == 0 ==> m == n)
  {
    n / 8 * 8
  }

  // How many entries of a chunk of sl get masked when the span now has size ps.
  function Masked(sl: nat, ps: nat): nat
  {
    if Eighths(sl) < ps then ps else Eighths(sl)
  }

  function Iterate<K(!new)>(sp: Space<K, K>, p: seq<K>, c: seq<K>, po: nat, ps: nat, chunk: nat): (t: Turn<K>)
    requires |p| == |c| && po + ps == |p| && 0 < ps && 0 < chunk
    ensures |t.p| == |p| && t.po + t.ps == |p| && (!t.moved ==> t.ps < ps)
  {
    if ps <= chunk then
      Turn(AddedOn(sp, p, c, po, Masked(ps, ps)), po, ps, AddedOn(sp, p, c, po, Masked(ps, ps))[po..], true)
    else
      var p' := AddedOn(sp, p, c, po, Masked(chunk, ps - chunk));
      var moved := ps - chunk == chunk;
      Turn(p', po + chunk, ps - chunk, if moved then p'[po + chunk..] else p'[po..po + chunk], moved)
  }

  // The messages of the loop. Sending the span itself moves its memory away. A turn that cuts
  // the span down to exactly one chunk, the first one when there are two chunks, sends the span
  // in place of the chunk it has cut off; the code then goes on with memory it has moved away.
  // The model stops there: a chunk is lost already.
  function Messages<K(!new)>(sp: Space<K, K>, p: seq<K>, c: seq<K>, po: nat, ps: nat, chunk: nat): seq<seq<K>>
    requires |p| == |c| && po + ps == |p| && 0 < chunk
    decreases ps
  {
    if ps == 0 then [] else
      var t := Iterate(sp, p, c, po, ps, chunk);
      [t.message] + if t.moved then [] else Messages(sp, t.p, c, t.po, t.ps, chunk)
  }

  function Joined<K>(messages: seq<seq<K>>): seq<K>
  {
    if messages == [] then [] else messages[0] + Joined(messages[1..])
  }

  function Sum<K(!new)>(sp: Space<K, K>, p: seq<K>, c: seq<K>): (s: seq<K>)
    requires |p| == |c|
    ensures |s| == |p|
  {
    seq(|p|, i requires 0 <= i < |p| => sp.Plus(p[i], c[i]))
  }

  lemma JoinedOne<K>(m: seq<K>)
    ensures Joined([m]) == m
  {
    assert [m][1..] == [];
  }

  lemma JoinedTwo<K>(m: seq<K>, n: seq<K>)
    ensures Joined([m] + [n]) == m + n
  {
    assert ([m] + [n])[1..] == [n];
    JoinedOne(n);
  }

  // The last chunk, alone or after another one.
  lemma LastChunk<K(!new)>(sp: Space<K, K>, p: seq<K>, c: seq<K>, po: nat, ps: nat, chunk: nat)
    requires |p| == |c| && po + ps == |p| && 0 < ps <= chunk
    ensures Messages(sp, p, c, po, ps, chunk) == [Sum(sp, p, c)[po..]]
  {
    var t := Iterate(sp, p, c, po, ps, chunk);
    assert t.message == Sum(sp, p, c)[po..];
  }

  /** The masked vector arrives exactly when it is shorter than two chunks (unless the first
      entry of the second chunk happens to be masked by nil). */
  lemma ChunksArriveIff<K(!new)>(sp: Space<K, K>, p: seq<K>, c: seq<K>, chunk: nat)
    requires sp.IsSpace() && |p| == |c| && 0 < chunk && chunk % 8 == 0
    requires chunk < |c| ==> c[chunk] != sp.nil
    ensures Joined(Messages(sp, p, c, 0, |p|, chunk)) == Sum(sp, p, c) <==> |p| < 2 * chunk
  {
    var n := |p|;
    if n == 0 {
      assert Messages(sp, p, c, 0, 0, chunk) == [];
    } else if n <= chunk {
      LastChunk(sp, p, c, 0, n, chunk);
      JoinedOne(Sum(sp, p, c)[0..]);
    } else if n < 2 * chunk {
      TwoChunks(sp, p, c, chunk);
    } else if n == 2 * chunk {
      var t := Iterate(sp, p, c, 0, n, chunk);
      JoinedOne(t.message);
      assert Messages(sp, p, c, 0, n, chunk) == [t.message];
    } else {
      LongVectorFails(sp, p, c, chunk);
    }
  }

  // The chunk size of the code.
  const CHUNK := 0x1000_0000

  /** With the chunks of the code a vector of fewer than 2^29 blocks arrives. */
  lemma ShortVectorsArrive<K(!new)>(sp: Space<K, K>, p: seq<K>, c: seq<K>)
    requires |p| == |c| < 0x2000_0000
    ensures Joined(Messages(sp, p, c, 0, |p|, CHUNK)) == Sum(sp, p, c)
  {
    if p == [] {
      assert Messages(sp, p, c, 0, 0, CHUNK) == [];
    } else {
      ArrivesShort(sp, p, c, CHUNK);
    }
  }

  /** A failing length: 2^29 blocks other than nil, over a vector of nils. */
  lemma TwoChunksLost<K(!new)>(sp: Space<K, K>, x: K)
    requires sp.IsSpace() && x != sp.nil
    ensures var p, c := seq(0x2000_0000, _ => sp.nil), seq(0x2000_0000, _ => x);
      Joined(Messages(sp, p, c, 0, |p|, CHUNK)) != Sum(sp, p, c)
  {
    var p, c := seq(2 * CHUNK, _ => sp.nil), seq(2 * CHUNK, _ => x);
    ChunksArriveIff(sp, p, c, CHUNK);
  }

  lemma TwoChunks<K(!new)>(sp: Space<K, K>, p: seq<K>, c: seq<K>, chunk: nat)
    requires |p| == |c| && 0 < chunk && chunk % 8 == 0 && chunk < |p| < 2 * chunk
    ensures Joined(Messages(sp, p, c, 0, |p|, chunk)) == Sum(sp, p, c)
  {
    var n := |p|;
    var t := Iterate(sp, p, c, 0, n, chunk);
    var last := Sum(sp, t.p, c)[chunk..];
    LastChunk(sp, t.p, c, chunk, n - chunk, chunk);
    assert Messages(sp, p, c, 0, n, chunk) == [t.message] + [last];
    JoinedTwo(t.message, last);
    assert last == Sum(sp, p, c)[chunk..];
    assert t.message == Sum(sp, p, c)[..chunk];
  }

  // The second chunk's first entry is masked twice, unless the second chunk is lost.
  lemma MaskedTwice<K(!new)>(sp: Space<K, K>, p: seq<K>, c: seq<K>, chunk: nat, t: Turn<K>, t2: Turn<K>)
    requires sp.IsSpace() && |p| == |c| && 0 < chunk && chunk % 8 == 0 && 2 * chunk < |p|
    requires t == Iterate(sp, p, c, 0, |p|, chunk) && t2 == Iterate(sp, t.p, c, chunk, |p| - chunk, chunk)
    ensures !t.moved && t.po == chunk && t.ps == |p| - chunk && |t.message| == chunk
    ensures t2.moved ==> |t2.message| == chunk && |p| == 3 * chunk
    ensures !t2.moved ==> |t2.message| == chunk && t2.message[0] == p[chunk]
  {
    if !t2.moved {
      assert t.p[chunk] == sp.Plus(p[chunk], c[chunk]);
      assert t2.message[0] == t2.p[chunk] == sp.Plus(t.p[chunk], c[chunk]);
      assert sp.ValueLaws(p[chunk], c[chunk], c[chunk]) && sp.ValueLaws(c[chunk], c[chunk], c[chunk]) &&
          sp.ValueLaws(p[chunk], p[chunk], p[chunk]);
    }
  }

  lemma TwoTurns<K(!new)>(sp: Space<K, K>, p: seq<K>, c: seq<K>, chunk: nat, t: Turn<K>, t2: Turn<K>, more: seq<seq<K>>)
    requires |p| == |c| && 0 < chunk && 2 * chunk < |p|
    requires t == Iterate(sp, p, c, 0, |p|, chunk) && !t.moved && t.po == chunk && t.ps == |p| - chunk
    requires t2 == Iterate(sp, t.p, c, chunk, |p| - chunk, chunk)
    requires more == if t2.moved then [] else Messages(sp, t2.p, c, t2.po, t2.ps, chunk)
    ensures Joined(Messages(sp, p, c, 0, |p|, chunk)) == t.message + (t2.message + Joined(more))
  {
    hide Iterate;
    FirstOfTwo(t.message, [t2.message] + more);
    FirstOfTwo(t2.message, more);
  }

  lemma LongVectorFails<K(!new)>(sp: Space<K, K>, p: seq<K>, c: seq<K>, chunk: nat)
    requires sp.IsSpace() && |p| == |c| && 0 < chunk && chunk % 8 == 0 && 2 * chunk < |p| && c[chunk] != sp.nil
    ensures Joined(Messages(sp, p, c, 0, |p|, chunk)) != Sum(sp, p, c)
  {
    hide Iterate, Messages;
    var n := |p|;
    var t := Iterate(sp, p, c, 0, n, chunk);
    var t2 := Iterate(sp, t.p, c, chunk, n - chunk, chunk);
    MaskedTwice(sp, p, c, chunk, t, t2);
    var more := if t2.moved then [] else Messages(sp, t2.p, c, t2.po, t2.ps, chunk);
    TwoTurns(sp, p, c, chunk, t, t2, more);
    var all := t.message + (t2.message + Joined(more));
    if t2.moved {
      assert |all| == 2 * chunk;
    } else {
      Undo(sp, p[chunk], c[chunk]);
      assert all[chunk] == p[chunk];
    }
  }

  lemma FirstOfTwo<K>(m: seq<K>, rest: seq<seq<K>>)
    ensures Joined([m] + rest) == m + Joined(rest)
  {
    assert ([m] + rest)[1..] == rest;
  }

  // The receiver's loop, on the vector's own memory.
  method SendMasked<K(!new)>(sp: Space<K, K>, p: array<K>, c: seq<K>, chunk: nat) returns (messages: seq<seq<K>>)
    requires p.Length == |c| && 0 < chunk && chunk % 8 == 0
    modifies p
    ensures messages == Messages(sp, old(p[..]), c, 0, p.Length, chunk)
  {
    hide Iterate;
    messages := [];
    var po, ps, co := 0, p.Length, 0;
    ghost var all := Messages(sp, p[..], c, 0, p.Length, chunk);
    var moved := false;
    while co < |c| && !moved
      invariant po + ps == p.Length && co <= |c| && (co < |c| && !moved ==> po == co)
      invariant all == messages + if co < |c| && !moved then Messages(sp, p[..], c, po, ps, chunk) else []
      decreases |c| - co
    {
      ghost var rest := Messages(sp, p[..], c, po, ps, chunk);
      co := co + Min(ps, chunk);
      var message;
      po, ps, moved, message := SendChunk(sp, p, c, po, ps, chunk);
      messages := messages + [message];
    }
  }

  // One turn of the loop; the size of the chunk is the only thing kept from before the cut.
  method SendChunk<K(!new)>(sp: Space<K, K>, p: array<K>, c: seq<K>, po0: nat, ps0: nat, chunk: nat)
    returns (po: nat, ps: nat, moved: bool, message: seq<K>)
    requires p.Length == |c| && 0 < chunk && po0 + ps0 == p.Length && 0 < ps0
    modifies p
    ensures Turn(p[..], po, ps, message, moved) == Iterate(sp, old(p[..]), c, po0, ps0, chunk)
    ensures moved || po0 < po == po0 + Min(ps0, chunk) < p.Length
  {
    hide AddedOn, Masked, Eighths;
    po, ps := po0, ps0;
    var sl := Min(ps, chunk);
    if ps != sl {
      po, ps := po + sl, ps - sl;
    }
    MaskChunk(sp, p, c, po0, sl, ps);
    moved := ps == sl;
    message := if moved then p[po..po + ps] else p[po0..po0 + sl];
  }

  // The two inner loops: eight entries at a time, and the rest up to the size of the span.
  method MaskChunk<K(!new)>(sp: Space<K, K>, p: array<K>, c: seq<K>, at: nat, sl: nat, ps: nat)
    requires p.Length == |c| && at + sl <= p.Length && at + ps <= p.Length
    modifies p
    ensures p[..] == AddedOn(sp, old(p[..]), c, at, Masked(sl, ps))
  {
    ghost var before := p[..];
    var main := Eighths(sl);
    var i := 0;
    while i < main
      invariant 0 <= i <= main
      invariant p[..] == AddedOn(sp, before, c, at, i)
    {
      p[at + i] := sp.Plus(p[at + i], c[at + i]);
      i := i + 1;
      assert p[..] == AddedOn(sp, before, c, at, i);
    }
    i := main;
    while i < ps
      invariant main <= i && i <= Masked(sl, ps)
      invariant p[..] == AddedOn(sp, before, c, at, i)
    {
      p[at + i] := sp.Plus(p[at + i], c[at + i]);
      i := i + 1;
      assert p[..] == AddedOn(sp, before, c, at, i);
    }
  }

  // ----- The PRF -----

  // The sender adds delta times each message to the matching part of its vector.
  method AddMessages<K(!new)>(sp: Space<K, K>, delta: K, b: array<K>, messages: seq<seq<K>>)
    requires |Joined(messages)| == b.Length
    modifies b
    ensures forall i :: 0 <= i < b.Length ==> b[i] == sp.Plus(old(b[i]), sp.Act(delta, Joined(messages)[i]))
  {
    ghost var before, want := b[..], Joined(messages);
    var at: nat := 0;
    for n := 0 to |messages|
      invariant at <= b.Length && want[at..] == Joined(messages[n..])
      invariant forall i :: 0 <= i < b.Length ==>
        b[i] == if i < at then sp.Plus(before[i], sp.Act(delta, want[i])) else before[i]
    {
      var m := messages[n];
      assert messages[n..][1..] == messages[n + 1..];
      assert want[at..] == m + Joined(messages[n + 1..]);
      for i := 0 to |m|
        invariant forall j :: 0 <= j < b.Length ==>
          b[j] == if j < at + i then sp.Plus(before[j], sp.Act(delta, want[j])) else before[j]
      {
        assert want[at + i] == want[at..][i] == m[i];
        b[at + i] := sp.Plus(b[at + i], sp.Act(delta, m[i]));
      }
      assert want[at + |m|..] == want[at..][|m|..];
      at := at + |m|;
    }
    assert messages[|messages|..] == [];
  }

  // RsOprfSender::eval: the decoded mask, shifted by delta times the hash, and hashed.
  method Eval<K(!new)>(sp: Space<K, K>, o: Okvs<K>, aes: K -> K, delta: K, b: seq<K>, x: K) returns (y: K)
    requires sp.IsSpace() && o.Good() && |b| == o.Size()
    ensures y == aes(sp.Plus(At(sp, o, b, x), sp.Act(delta, aes(x))))
  {
    var decoded := DecodeAll(sp, o, [x], b);
    assert At(sp, o, b, [x][0]) == decoded[0];
    y := aes(sp.Plus(decoded[0], sp.Act(delta, aes(x))));
  }

  function Mapped<K>(f: K -> K, s: seq<K>): (t: seq<K>)
    ensures |t| == |s|
  {
    seq(|s|, i requires 0 <= i < |s| => f(s[i]))
  }

  /** RsOprfReceiver::receive with the sender's send, for vectors shorter than two chunks. It
      succeeds exactly if the inputs are solved for. */
  method Receive<K(==, !new)>(sp: Space<K, K>, o: Okvs<K>, aes: K -> K, delta: K, a: seq<K>, b: array<K>, c: seq<K>,
      chunk: nat, values: seq<K>)
    returns (res: Result<seq<K>>, ghost p: seq<K>, ghost tr: Trace)
    requires sp.IsSpace() && sp.one != sp.zero && o.Good() && |values| + 2 <= o.sparseSize
    requires |a| == b.Length == |c| == o.Size() && Correlated(sp, delta, c, b[..], a)
    requires 0 < chunk && chunk % 8 == 0 && o.Size() < 2 * chunk
    modifies b
    ensures SolveEnds(sp, o, values, Mapped(aes, values), tr, ErrorOf(res))
    ensures Peelable(o, values) ==> res.Ok?
    ensures !HasCore(KeyRows(o, values)) && res.Err? ==> res.error == TooManyInColumn
    ensures res == Err(TooManyInColumn) <==>
      exists col: nat :: col < o.sparseSize && 200 <= |RowSet(KeyRows(o, values), col)|
    ensures res.Ok? ==> Distinct(values)
    ensures res.Ok? ==> |p| == o.Size() && Shifted(sp, delta, c, old(b[..]), p, b[..])
    ensures res.Ok? ==> |res.value| == |values| && forall i :: 0 <= i < |values| ==>
      At(sp, o, p, values[i]) == aes(values[i]) && res.value[i] == aes(At(sp, o, a, values[i]))
  {
    hide SolveEnds, Peelable;
    p := [];
    var h := Mapped(aes, values);
    var solved;
    solved, tr := Solve(sp, o, values, h);
    if solved.Err? {
      return Err(solved.error), p, tr;
    }
    p := solved.value;
    var vector := new K[o.Size()](i requires 0 <= i < |solved.value| => solved.value[i]);
    assert vector[..] == p;
    var messages := SendMasked(sp, vector, c, chunk);
    ArrivesShort(sp, p, c, chunk);
    ghost var before := b[..];
    AddMessages(sp, delta, b, messages);
    SumIsShift(sp, delta, c, before, p, b[..]);
    var outputs := DecodeAll(sp, o, values, a);
    res := Ok(seq(|values|, i requires 0 <= i < |values| => aes(outputs[i])));
  }

  lemma ArrivesShort<K(!new)>(sp: Space<K, K>, p: seq<K>, c: seq<K>, chunk: nat)
    requires |p| == |c| && 0 < chunk && chunk % 8 == 0 && 0 < |p| < 2 * chunk
    ensures Joined(Messages(sp, p, c, 0, |p|, chunk)) == Sum(sp, p, c)
  {
    if |p| <= chunk {
      LastChunk(sp, p, c, 0, |p|, chunk);
      JoinedOne(Sum(sp, p, c)[0..]);
    } else {
      TwoChunks(sp, p, c, chunk);
    }
  }

  lemma SumIsShift<K(!new)>(sp: Space<K, K>, delta: K, c: seq<K>, b: seq<K>, p: seq<K>, k: seq<K>)
    requires sp.IsSpace() && |b| == |c| == |p| == |k|
    requires forall i :: 0 <= i < |k| ==> k[i] == sp.Plus(b[i], sp.Act(delta, Sum(sp, p, c)[i]))
    ensures Shifted(sp, delta, c, b, p, k)
  {
    forall i | 0 <= i < |c| ensures k[i] == sp.Plus(b[i], sp.Act(delta, sp.Plus(c[i], p[i]))) {
      assert sp.ValueLaws(c[i], p[i], p[i]);
    }
  }

  /** The sender evaluates every input of the receiver to the receiver's output for it. */
  lemma EvalAgrees<K(!new)>(sp: Space<K, K>, o: Okvs<K>, aes: K -> K, delta: K, a: seq<K>, b: seq<K>, c: seq<K>,
      p: seq<K>, k: seq<K>, x: K)
    requires sp.IsSpace() && o.Good() && |c| == o.Size()
    requires Correlated(sp, delta, c, b, a) && Shifted(sp, delta, c, b, p, k) && At(sp, o, p, x) == aes(x)
    ensures aes(sp.Plus(At(sp, o, k, x), sp.Act(delta, aes(x)))) == aes(At(sp, o, a, x))
  {
    MasksAgree(sp, o, delta, c, b, a, p, k, x);
  }

  // The sender's evaluations of some inputs.
  method EvalAll<K(!new)>(sp: Space<K, K>, o: Okvs<K>, aes: K -> K, delta: K, b: seq<K>, values: seq<K>)
    returns (evals: seq<K>)
    requires sp.IsSpace() && o.Good() && |b| == o.Size()
    ensures |evals| == |values|
    ensures forall i :: 0 <= i < |values| ==>
      evals[i] == aes(sp.Plus(At(sp, o, b, values[i]), sp.Act(delta, aes(values[i]))))
  {
    hide Okvs.Good;
    evals := [];
    for i := 0 to |values|
      invariant |evals| == i && forall j :: 0 <= j < i ==>
        evals[j] == aes(sp.Plus(At(sp, o, b, values[j]), sp.Act(delta, aes(values[j]))))
    {
      var y := Eval(sp, o, aes, delta, b, values[i]);
      evals := evals + [y];
    }
  }

  lemma AllAgree<K(!new)>(sp: Space<K, K>, o: Okvs<K>, aes: K -> K, delta: K, a: seq<K>, b: seq<K>, c: seq<K>,
      p: seq<K>, k: seq<K>, values: seq<K>, outputs: seq<K>, evals: seq<K>)
    requires sp.IsSpace() && o.Good() && |a| == |b| == |c| == |p| == |k| == o.Size()
    requires |values| == |outputs| == |evals|
    requires Correlated(sp, delta, c, b, a) && Shifted(sp, delta, c, b, p, k)
    requires forall i :: 0 <= i < |values| ==>
      At(sp, o, p, values[i]) == aes(values[i]) && outputs[i] == aes(At(sp, o, a, values[i]))
    requires forall i :: 0 <= i < |values| ==>
      evals[i] == aes(sp.Plus(At(sp, o, k, values[i]), sp.Act(delta, aes(values[i]))))
    ensures evals == outputs
  {
    hide Okvs.Good, Correlated, Shifted;
    forall i | 0 <= i < |values| ensures evals[i] == outputs[i] {
      EvalAgrees(sp, o, aes, delta, a, b, c, p, k, values[i]);
    }
  }

  /** The whole protocol: for every input the sender evaluates what the receiver has got. */
  method ReceiveThenEval<K(==, !new)>(sp: Space<K, K>, o: Okvs<K>, aes: K -> K, delta: K, a: seq<K>, b: array<K>,
      c: seq<K>, chunk: nat, values: seq<K>)
    returns (res: Result<seq<K>>, evals: seq<K>, ghost tr: Trace)
    requires sp.IsSpace() && sp.one != sp.zero && o.Good() && |values| + 2 <= o.sparseSize
    requires |a| == b.Length == |c| == o.Size() && Correlated(sp, delta, c, b[..], a)
    requires 0 < chunk && chunk % 8 == 0 && o.Size() < 2 * chunk
    modifies b
    ensures SolveEnds(sp, o, values, Mapped(aes, values), tr, ErrorOf(res))
    ensures res.Ok? ==> evals == res.value
  {
    hide SolveEnds, Okvs.Good, Correlated, Shifted;
    evals := [];
    ghost var before, p := b[..], [];
    res, p, tr := Receive(sp, o, aes, delta, a, b, c, chunk, values);
    if res.Ok? {
      var k := b[..];
      evals := EvalAll(sp, o, aes, delta, k, values);
      AllAgree(sp, o, aes, delta, a, before, c, p, k, values, res.value, evals);
    }
  }
}
