/** The bucket lists that triangulation uses to find a column of least weight
    (struct WeightData in PxUtil.h and its port in paxos_utils.h). */
module WeightBuckets {
  import opened Lists

  const NULL_NODE := -1
  const INITIAL_SETS := 200

  // A column: its weight and its neighbours in the list of columns with that weight.
  datatype WeightNode = WeightNode(weight: nat, prev: int, next: int)

  // ----- The linked lists as values -----

  // heads[w] starts a doubly linked list of the nodes in `live` that have weight w. The ghost
  // stamps record when a node was pushed; they decrease along every list.
  ghost predicate Linked(heads: seq<int>, nodes: seq<WeightNode>, live: set<int>, stamp: seq<int>)
  {
    && |stamp| == |nodes|
    && (forall i :: i in live ==> 0 <= i < |nodes| && nodes[i].weight < |heads|)
    && (forall i :: i in live ==> PrevLinked(heads, nodes, live, stamp, i) && NextLinked(nodes, live, stamp, i))
    && (forall i :: 0 <= i < |nodes| && i !in live ==> nodes[i].prev == NULL_NODE && nodes[i].next == NULL_NODE)
    && (forall w :: 0 <= w < |heads| ==> HeadLinked(heads, nodes, live, w))
  }

  ghost predicate PrevLinked(heads: seq<int>, nodes: seq<WeightNode>, live: set<int>, stamp: seq<int>, i: int)
    requires 0 <= i < |nodes| == |stamp| && nodes[i].weight < |heads|
  {
    var p := nodes[i].prev;
    if p == NULL_NODE then heads[nodes[i].weight] == i
    else
      && p in live && 0 <= p < |nodes| && nodes[p].next == i && nodes[p].weight == nodes[i].weight
      && stamp[i] < stamp[p]
  }

  ghost predicate NextLinked(nodes: seq<WeightNode>, live: set<int>, stamp: seq<int>, i: int)
    requires 0 <= i < |nodes| == |stamp|
  {
    var q := nodes[i].next;
    q != NULL_NODE ==>
      q in live && 0 <= q < |nodes| && nodes[q].prev == i && nodes[q].weight == nodes[i].weight && stamp[q] < stamp[i]
  }

  ghost predicate HeadLinked(heads: seq<int>, nodes: seq<WeightNode>, live: set<int>, w: int)
    requires 0 <= w < |heads|
  {
    var h := heads[w];
    h != NULL_NODE ==> h in live && 0 <= h < |nodes| && nodes[h].weight == w && nodes[h].prev == NULL_NODE
  }

  // The list that starts at node h.
  ghost function Walk(nodes: seq<WeightNode>, live: set<int>, stamp: seq<int>, h: int): (s: seq<int>)
    requires |stamp| == |nodes| && (h != NULL_NODE ==> h in live)
    requires forall i :: i in live ==> 0 <= i < |nodes| && NextLinked(nodes, live, stamp, i)
    decreases if h == NULL_NODE then {} else Below(live, stamp, h)
    ensures forall i :: 0 <= i < |s| ==> s[i] in live && h in live && stamp[s[i]] <= stamp[h]
    ensures forall i, j :: 0 <= i < j < |s| ==> stamp[s[j]] < stamp[s[i]]
  {
    if h == NULL_NODE then [] else
      assert NextLinked(nodes, live, stamp, h);
      var q := nodes[h].next;
      assert q != NULL_NODE ==> Below(live, stamp, q) < Below(live, stamp, h) by {
        if q != NULL_NODE {
          assert h in Below(live, stamp, h) && h !in Below(live, stamp, q);
        }
      }
      assert h in Below(live, stamp, h);
      [h] + Walk(nodes, live, stamp, q)
  }

  ghost function Below(live: set<int>, stamp: seq<int>, h: int): set<int>
    requires 0 <= h < |stamp| 
    requires forall i :: i in live ==> 0 <= i < |stamp|
  {
    set i | i in live && stamp[i] <= stamp[h]
  }

  // Following prev from a node reaches the head of its list, so the bucket is not empty and
  // the walk from its head passes through the node.
  lemma {:induction false} OnItsList(heads: seq<int>, nodes: seq<WeightNode>, live: set<int>, stamp: seq<int>, i: int,
      above: set<int>)
    requires Linked(heads, nodes, live, stamp) && i in live
    requires above == set j | j in live && stamp[i] < stamp[j]
    ensures HeadLinked(heads, nodes, live, nodes[i].weight) && heads[nodes[i].weight] != NULL_NODE
    ensures i in Walk(nodes, live, stamp, heads[nodes[i].weight])
    decreases above
  {
    assert PrevLinked(heads, nodes, live, stamp, i) && HeadLinked(heads, nodes, live, nodes[i].weight);
    var p := nodes[i].prev;
    if p != NULL_NODE {
      var above' := set j | j in live && stamp[p] < stamp[j];
      assert p in above && p !in above';
      OnItsList(heads, nodes, live, stamp, p, above');
      WalkNext(nodes, live, stamp, heads[nodes[i].weight], p);
    }
  }

  lemma {:induction false} WalkNext(nodes: seq<WeightNode>, live: set<int>, stamp: seq<int>, h: int, p: int)
    requires |stamp| == |nodes| && (h != NULL_NODE ==> h in live)
    requires forall i :: i in live ==> 0 <= i < |nodes| && NextLinked(nodes, live, stamp, i)
    requires p in Walk(nodes, live, stamp, h) && nodes[p].next != NULL_NODE
    ensures nodes[p].next in Walk(nodes, live, stamp, h)
    decreases |Walk(nodes, live, stamp, h)|
  {
    var q := nodes[h].next;
    assert NextLinked(nodes, live, stamp, h);
    assert Walk(nodes, live, stamp, h) == [h] + Walk(nodes, live, stamp, q);
    if p == h {
      assert Walk(nodes, live, stamp, q)[0] == q;
    } else {
      WalkNext(nodes, live, stamp, q, p);
    }
  }

  // All nodes of a walk have the weight of its first node.
  lemma {:induction false} WalkWeight(nodes: seq<WeightNode>, live: set<int>, stamp: seq<int>, h: int, i: int)
    requires |stamp| == |nodes| && (h != NULL_NODE ==> h in live)
    requires forall i :: i in live ==> 0 <= i < |nodes| && NextLinked(nodes, live, stamp, i)
    requires i in Walk(nodes, live, stamp, h)
    ensures 0 <= h < |nodes| && 0 <= i < |nodes| && nodes[i].weight == nodes[h].weight
    decreases |Walk(nodes, live, stamp, h)|
  {
    assert Walk(nodes, live, stamp, h) == [h] + Walk(nodes, live, stamp, nodes[h].next);
    assert NextLinked(nodes, live, stamp, h);
    if i != h {
      WalkWeight(nodes, live, stamp, nodes[h].next, i);
    }
  }

  /** Every live node is on exactly one list, that of its weight, and exactly once. */
  lemma ListsPartitionLive(heads: seq<int>, nodes: seq<WeightNode>, live: set<int>, stamp: seq<int>, w: nat)
    requires Linked(heads, nodes, live, stamp) && w < |heads|
    ensures HeadLinked(heads, nodes, live, w)
    ensures forall i :: i in Walk(nodes, live, stamp, heads[w]) <==> i in live && nodes[i].weight == w
    ensures forall a, b :: 0 <= a < b < |Walk(nodes, live, stamp, heads[w])| ==>
      Walk(nodes, live, stamp, heads[w])[a] != Walk(nodes, live, stamp, heads[w])[b]
  {
    assert HeadLinked(heads, nodes, live, w);
    var walk := Walk(nodes, live, stamp, heads[w]);
    forall i ensures i in walk <==> i in live && nodes[i].weight == w {
      if i in walk {
        WalkWeight(nodes, live, stamp, heads[w], i);
      } else if i in live && nodes[i].weight == w {
        OnItsList(heads, nodes, live, stamp, i, set j | j in live && stamp[i] < stamp[j]);
      }
    }
  }

  // ----- Unlinking and linking as functions on the lists -----

  function UnlinkHeads(heads: seq<int>, nodes: seq<WeightNode>, i: nat): seq<int>
    requires i < |nodes| && nodes[i].weight < |heads|
  {
    if nodes[i].prev == NULL_NODE then heads[nodes[i].weight := nodes[i].next] else heads
  }

  function UnlinkNodes(nodes: seq<WeightNode>, i: nat): (s: seq<WeightNode>)
    requires i < |nodes|
    ensures |s| == |nodes|
  {
    seq(|nodes|, k requires 0 <= k < |nodes| =>
      if k == i then WeightNode(nodes[k].weight, NULL_NODE, NULL_NODE)
      else if k == nodes[i].prev then WeightNode(nodes[k].weight, nodes[k].prev, nodes[i].next)
      else if k == nodes[i].next then WeightNode(nodes[k].weight, nodes[i].prev, nodes[k].next)
      else nodes[k])
  }

  // The neighbours of i point back at it.
  ghost predicate Unlinkable(heads: seq<int>, nodes: seq<WeightNode>, i: nat)
  {
    && i < |nodes| && nodes[i].weight < |heads|
    && (nodes[i].prev != NULL_NODE ==> 0 <= nodes[i].prev < |nodes| && nodes[nodes[i].prev].next == i)
    && (nodes[i].next != NULL_NODE ==> 0 <= nodes[i].next < |nodes| && nodes[nodes[i].next].prev == i)
    && nodes[i].prev != i && nodes[i].next != i
    && (nodes[i].prev != NULL_NODE ==> nodes[i].prev != nodes[i].next)
  }

  lemma UnlinkOne(heads: seq<int>, nodes: seq<WeightNode>, live: set<int>, stamp: seq<int>, i: nat, k: int)
    requires Linked(heads, nodes, live, stamp) && i in live && k in live - {i} && Unlinkable(heads, nodes, i)
    ensures PrevLinked(UnlinkHeads(heads, nodes, i), UnlinkNodes(nodes, i), live - {i}, stamp, k)
    ensures NextLinked(UnlinkNodes(nodes, i), live - {i}, stamp, k)
  {
    assert PrevLinked(heads, nodes, live, stamp, i) && NextLinked(nodes, live, stamp, i);
    assert PrevLinked(heads, nodes, live, stamp, k) && NextLinked(nodes, live, stamp, k);
  }

  lemma UnlinkKeepsLinked(heads: seq<int>, nodes: seq<WeightNode>, live: set<int>, stamp: seq<int>, i: nat)
    requires Linked(heads, nodes, live, stamp) && i in live
    ensures Unlinkable(heads, nodes, i)
    ensures Linked(UnlinkHeads(heads, nodes, i), UnlinkNodes(nodes, i), live - {i}, stamp)
  {
    var heads', nodes', live' := UnlinkHeads(heads, nodes, i), UnlinkNodes(nodes, i), live - {i};
    assert PrevLinked(heads, nodes, live, stamp, i) && NextLinked(nodes, live, stamp, i);
    forall k | k in live'
      ensures PrevLinked(heads', nodes', live', stamp, k) && NextLinked(nodes', live', stamp, k)
    {
      UnlinkOne(heads, nodes, live, stamp, i, k);
    }
    forall w | 0 <= w < |heads'| ensures HeadLinked(heads', nodes', live', w) {
      assert HeadLinked(heads, nodes, live, w);
    }
  }

  // The bucket vector after growing it to hold weight w.
  function Grown(heads: seq<int>, w: nat): (s: seq<int>)
    ensures w < |s|
  {
    if |heads| <= w then heads + seq(w + 1 - |heads|, _ => NULL_NODE) else heads
  }

  lemma GrownKeepsLinked(heads: seq<int>, nodes: seq<WeightNode>, live: set<int>, stamp: seq<int>, w: nat)
    requires Linked(heads, nodes, live, stamp)
    ensures Linked(Grown(heads, w), nodes, live, stamp)
  {
    var heads' := Grown(heads, w);
    forall k | k in live ensures PrevLinked(heads', nodes, live, stamp, k) && NextLinked(nodes, live, stamp, k) {
      assert PrevLinked(heads, nodes, live, stamp, k);
    }
    forall u | 0 <= u < |heads'| ensures HeadLinked(heads', nodes, live, u) {
      assert u < |heads| ==> HeadLinked(heads, nodes, live, u);
    }
  }

  function LinkNodes(heads: seq<int>, nodes: seq<WeightNode>, i: nat): (s: seq<WeightNode>)
    requires i < |nodes| && nodes[i].weight < |heads|
    ensures |s| == |nodes|
  {
    var h := heads[nodes[i].weight];
    seq(|nodes|, k requires 0 <= k < |nodes| =>
      if k == i then WeightNode(nodes[k].weight, nodes[k].prev, h)
      else if k == h then WeightNode(nodes[k].weight, i, nodes[k].next)
      else nodes[k])
  }

  ghost predicate Linkable(heads: seq<int>, nodes: seq<WeightNode>, i: nat)
  {
    && i < |nodes| && nodes[i].weight < |heads| && nodes[i].next == NULL_NODE
    && var h := heads[nodes[i].weight]; h != i && (h != NULL_NODE ==> 0 <= h < |nodes|)
  }

  lemma LinkOne(heads: seq<int>, nodes: seq<WeightNode>, live: set<int>, stamp: seq<int>, i: nat, clock: int, k: int)
    requires Linked(heads, nodes, live, stamp) && i < |nodes| && i !in live && nodes[i].weight < |heads|
    requires Linkable(heads, nodes, i) && k in live && stamp[k] < clock
    ensures PrevLinked(heads[nodes[i].weight := i], LinkNodes(heads, nodes, i), live + {i}, stamp[i := clock], k)
    ensures NextLinked(LinkNodes(heads, nodes, i), live + {i}, stamp[i := clock], k)
  {
    assert HeadLinked(heads, nodes, live, nodes[i].weight);
    assert PrevLinked(heads, nodes, live, stamp, k) && NextLinked(nodes, live, stamp, k);
  }

  lemma LinkHead(heads: seq<int>, nodes: seq<WeightNode>, live: set<int>, stamp: seq<int>, i: nat, u: nat)
    requires Linked(heads, nodes, live, stamp) && i < |nodes| && i !in live && nodes[i].weight < |heads|
    requires Linkable(heads, nodes, i) && u < |heads|
    ensures HeadLinked(heads[nodes[i].weight := i], LinkNodes(heads, nodes, i), live + {i}, u)
  {
    assert HeadLinked(heads, nodes, live, u) && HeadLinked(heads, nodes, live, nodes[i].weight);
  }

  lemma LinkKeepsLinked(heads: seq<int>, nodes: seq<WeightNode>, live: set<int>, stamp: seq<int>, i: nat, clock: int)
    requires Linked(heads, nodes, live, stamp) && i < |nodes| && i !in live && nodes[i].weight < |heads|
    requires forall k :: k in live ==> stamp[k] < clock
    ensures Linkable(heads, nodes, i)
    ensures Linked(heads[nodes[i].weight := i], LinkNodes(heads, nodes, i), live + {i}, stamp[i := clock])
  {
    var w := nodes[i].weight;
    assert HeadLinked(heads, nodes, live, w);
    var heads', nodes', live', stamp' := heads[w := i], LinkNodes(heads, nodes, i), live + {i}, stamp[i := clock];
    forall k | k in live'
      ensures PrevLinked(heads', nodes', live', stamp', k) && NextLinked(nodes', live', stamp', k)
    {
      if k != i {
        LinkOne(heads, nodes, live, stamp, i, clock, k);
      }
    }
    forall u | 0 <= u < |heads'| ensures HeadLinked(heads', nodes', live', u) {
      LinkHead(heads, nodes, live, stamp, i, u);
    }
  }

  // An empty last bucket can be dropped.
  lemma TrimKeepsLinked(heads: seq<int>, nodes: seq<WeightNode>, live: set<int>, stamp: seq<int>, j: int)
    requires Linked(heads, nodes, live, stamp) && j in live
    requires 0 < |heads| && heads[|heads| - 1] == NULL_NODE
    ensures 1 < |heads| && Linked(heads[..|heads| - 1], nodes, live, stamp)
  {
    var heads' := heads[..|heads| - 1];
    forall i | i in live ensures nodes[i].weight < |heads'| {
      OnItsList(heads, nodes, live, stamp, i, set k | k in live && stamp[i] < stamp[k]);
    }
    assert nodes[j].weight < |heads'|;
    forall k | k in live ensures PrevLinked(heads', nodes, live, stamp, k) && NextLinked(nodes, live, stamp, k) {
      assert PrevLinked(heads, nodes, live, stamp, k);
    }
    forall u | 0 <= u < |heads'| ensures HeadLinked(heads', nodes, live, u) {
      assert HeadLinked(heads, nodes, live, u);
    }
  }

  lemma OffListWeight(heads: seq<int>, nodes: seq<WeightNode>, live: set<int>, stamp: seq<int>, i: nat, w: nat)
    requires Linked(heads, nodes, live, stamp) && i < |nodes| && i !in live
    ensures Linked(heads, nodes[i := nodes[i].(weight := w)], live, stamp)
  {
    var nodes' := nodes[i := nodes[i].(weight := w)];
    forall k | k in live ensures PrevLinked(heads, nodes', live, stamp, k) && NextLinked(nodes', live, stamp, k) {
      assert PrevLinked(heads, nodes, live, stamp, k) && NextLinked(nodes, live, stamp, k);
    }
    forall u | 0 <= u < |heads| ensures HeadLinked(heads, nodes', live, u) {
      assert HeadLinked(heads, nodes, live, u);
    }
  }

  ghost function UpTo(n: nat): (s: set<int>)
    ensures forall i :: i in s <==> 0 <= i < n
  {
    if n == 0 then {} else UpTo(n - 1) + {n - 1}
  }

  // ----- The data structure -----

  class WeightData {
    var weightSets: seq<int>
    var nodes: array<WeightNode>
    ghost var live: set<int>
    ghost var stamp: seq<int>
    ghost var clock: int

    ghost predicate Valid()
      reads this, nodes
    {
      && Linked(weightSets, nodes[..], live, stamp)
      && (forall i :: i in live ==> stamp[i] < clock)
      && 0 < |weightSets| && weightSets[|weightSets| - 1] != NULL_NODE
    }

    // The weight stored for each column.
    ghost function Weights(): (ws: seq<nat>)
      reads this, nodes
      ensures |ws| == nodes.Length
    {
      seq(nodes.Length, i requires 0 <= i < nodes.Length reads this, nodes => nodes[i].weight)
    }

    constructor (n: nat)
      ensures fresh(nodes) && nodes.Length == n
    {
      weightSets := [];
      nodes := new WeightNode[n](_ => WeightNode(0, NULL_NODE, NULL_NODE));
      live, stamp, clock := {}, seq(n, _ => 0), 0;
    }

    // The writes that make node i the head of the list for its weight.
    method Link(i: nat)
      requires Linkable(weightSets, nodes[..], i)
      modifies this`weightSets, nodes
      ensures Weights() == old(Weights())
      ensures nodes[..] == LinkNodes(old(weightSets), old(nodes[..]), i)
      ensures weightSets == old(weightSets)[old(nodes[i].weight) := i]
    {
      var w := nodes[i].weight;
      var h := weightSets[w];
      if h != NULL_NODE {
        nodes[h] := nodes[h].(prev := i);
        nodes[i] := nodes[i].(next := h);
      }
      weightSets := weightSets[w := i];
    }

    method PushNode(i: nat)
      requires Valid() && i < nodes.Length && i !in live
      modifies this`weightSets, this`live, this`stamp, this`clock, nodes
      ensures Valid() && live == old(live) + {i} && Weights() == old(Weights())
    {
      hide Linked;
      GrownKeepsLinked(weightSets, nodes[..], live, stamp, nodes[i].weight);
      Grow(nodes[i].weight);
      LinkKeepsLinked(weightSets, nodes[..], live, stamp, i, clock);
      Link(i);
      stamp, clock := stamp[i := clock], clock + 1;
      live := live + {i};
    }

    method Grow(w: nat)
      modifies this`weightSets
      ensures weightSets == Grown(old(weightSets), w)
    {
      if |weightSets| <= w {
        weightSets := weightSets + seq(w + 1 - |weightSets|, _ => NULL_NODE);
      }
    }

    // The writes that take node i out of its list.
    method Unlink(i: nat)
      requires Unlinkable(weightSets, nodes[..], i)
      modifies this`weightSets, nodes
      ensures Weights() == old(Weights())
      ensures nodes[..] == UnlinkNodes(old(nodes[..]), i)
      ensures weightSets == UnlinkHeads(old(weightSets), old(nodes[..]), i)
    {
      var node := nodes[i];
      if node.prev == NULL_NODE {
        if node.next == NULL_NODE {
          weightSets := weightSets[node.weight := NULL_NODE];
        } else {
          weightSets := weightSets[node.weight := node.next];
          nodes[node.next] := nodes[node.next].(prev := NULL_NODE);
        }
      } else {
        if node.next == NULL_NODE {
          nodes[node.prev] := nodes[node.prev].(next := NULL_NODE);
        } else {
          nodes[node.prev] := nodes[node.prev].(next := node.next);
          nodes[node.next] := nodes[node.next].(prev := node.prev);
        }
      }
      nodes[i] := nodes[i].(prev := NULL_NODE, next := NULL_NODE);
    }

    // Unlinks node i and drops empty buckets from the end. Dropping would run past the front
    // of the vector if i were the last live node.
    method PopNode(i: nat)
      requires Valid() && i in live && live != {i}
      modifies this`weightSets, this`live, nodes
      ensures Valid() && live == old(live) - {i} && Weights() == old(Weights())
    {
      UnlinkKeepsLinked(weightSets, nodes[..], live, stamp, i);
      Unlink(i);
      ghost var others := live - {i};
      assert live == others + {i};
      ghost var j := SomeMember(others);
      live := others;
      TrimSets(j);
    }

    // The loop that pops empty buckets off the end.
    method TrimSets(ghost j: int)
      requires Linked(weightSets, nodes[..], live, stamp) && j in live && 0 < |weightSets|
      modifies this`weightSets
      ensures Linked(weightSets, nodes[..], live, stamp)
      ensures 0 < |weightSets| && weightSets[|weightSets| - 1] != NULL_NODE
    {
      while weightSets[|weightSets| - 1] == NULL_NODE
        invariant Linked(weightSets, nodes[..], live, stamp)
        invariant 0 < |weightSets|
        decreases |weightSets|
      {
        TrimKeepsLinked(weightSets, nodes[..], live, stamp, j);
        weightSets := weightSets[..|weightSets| - 1];
      }
    }

    // Overwrites the weight of a column that is on no list.
    method SetWeight(i: nat, w: nat)
      requires Valid() && i < nodes.Length && i !in live
      modifies nodes
      ensures Valid() && Weights() == old(Weights())[i := w]
    {
      ghost var before := nodes[..];
      nodes[i] := nodes[i].(weight := w);
      assert nodes[..] == before[i := before[i].(weight := w)];
      OffListWeight(weightSets, before, live, stamp, i, w);
      assert Weights()[i] == w;
    }

    // decementWeight: moves a column to the next lower bucket.
    method DecrementWeight(i: nat)
      requires Valid() && i in live && live != {i} && Weights()[i] > 0
      modifies this, nodes
      ensures Valid() && live == old(live) && nodes == old(nodes)
      ensures Weights() == old(Weights())[i := old(Weights())[i] - 1]
    {
      PopNode(i);
      SetWeight(i, nodes[i].weight - 1);
      PushNode(i);
    }

    // A live column whose weight is positive and least among the positive ones.
    method GetMinWeightNode() returns (i: nat)
      requires Valid() && 1 < |weightSets|
      ensures i < nodes.Length && i in live && 0 < Weights()[i]
      ensures forall j :: j in live && 0 < Weights()[j] ==> Weights()[i] <= Weights()[j]
    {
      var w := 1;
      while weightSets[w] == NULL_NODE
        invariant 1 <= w < |weightSets|
        invariant forall u :: 1 <= u < w ==> weightSets[u] == NULL_NODE
        decreases |weightSets| - w
      {
        w := w + 1;
      }
      assert HeadLinked(weightSets, nodes[..], live, w);
      i := weightSets[w];
      forall j | j in live && 0 < Weights()[j] ensures Weights()[i] <= Weights()[j] {
        OnItsList(weightSets, nodes[..], live, stamp, j, set k | k in live && stamp[j] < stamp[k]);
      }
    }

    // What Init keeps after the first n columns.
    ghost predicate Filled(weights: seq<nat>, n: nat)
      reads this, nodes
    {
      && n <= |weights| == nodes.Length == |stamp| && |weightSets| == INITIAL_SETS
      && live == UpTo(n)
      && Linked(weightSets, nodes[..], live, stamp)
      && (forall k :: k in live ==> stamp[k] < clock)
      && forall k :: 0 <= k < n ==> nodes[k].weight == weights[k] && weights[k] < INITIAL_SETS
    }

    method InitNode(weights: seq<nat>, i: nat)
      requires i < |weights| && Filled(weights, i) && weights[i] < INITIAL_SETS
      modifies this`weightSets, this`live, this`stamp, this`clock, nodes
      ensures Filled(weights, i + 1)
    {
      hide Linked;
      ghost var before := nodes[..];
      nodes[i] := nodes[i].(weight := weights[i]);
      assert nodes[..] == before[i := before[i].(weight := weights[i])];
      OffListWeight(weightSets, before, live, stamp, i, weights[i]);
      LinkKeepsLinked(weightSets, nodes[..], live, stamp, i, clock);
      ghost var ws := Weights();
      Link(i);
      stamp, clock := stamp[i := clock], clock + 1;
      live := live + {i};
      assert forall k :: 0 <= k < nodes.Length ==> nodes[k].weight == Weights()[k] == ws[k];
    }

    // Links every column into the bucket of its weight. A weight outside the initial buckets
    // means that some key was given more than once.
    method Init(weights: seq<nat>) returns (ok: bool)
      requires 0 < |weights| == nodes.Length
      modifies this, nodes
      ensures ok <==> forall i :: 0 <= i < |weights| ==> weights[i] < 200
      ensures ok ==> Valid() && live == UpTo(nodes.Length) && Weights() == weights
      ensures nodes == old(nodes)
    {
      weightSets := seq(INITIAL_SETS, _ => NULL_NODE);
      live, stamp, clock := {}, seq(nodes.Length, _ => 0), 0;
      forall k | 0 <= k < nodes.Length {
        nodes[k] := WeightNode(0, NULL_NODE, NULL_NODE);
      }
      for i := 0 to |weights|
        invariant nodes == old(nodes) && Filled(weights, i)
      {
        if INITIAL_SETS <= weights[i] {
          return false;
        }
        InitNode(weights, i);
      }
      TrimSets(0);
      assert Weights() == weights;
      return true;
    }
  }
}
