/**
  The weighted undirected co-authorship graph both scripts build with
  networkx: a node set and, for every edge `{u, v}`, its `weight`. The
  weight is stored under both orders `(u, v)` and `(v, u)`, as networkx
  stores one attribute dict under both ends; a self-loop `{u, u}` is the
  single key `(u, u)`.

  The weight the build loops give an edge is specified by `PairCount`: the
  number of index pairs `i < j` of an author list naming the edge's two ends.
 */
module WeightedGraph {

  /** A graph as a value: its nodes and its edge weights keyed by ordered pairs. */
  datatype UGraph = UGraph(nodes: set<string>, weight: map<(string, string), nat>)

  /** `{a, b}` and `{u, v}` are the same unordered pair of nodes. */
  predicate SamePair(a: string, b: string, u: string, v: string)
  {
    (a == u && b == v) || (a == v && b == u)
  }

  /** Both ends of an edge are nodes, and an edge has one weight, at least 1, under both orders. */
  ghost predicate IsUndirected(g: UGraph)
  {
    forall e | e in g.weight ::
      e.0 in g.nodes && e.1 in g.nodes && (e.1, e.0) in g.weight
      && g.weight[(e.1, e.0)] == g.weight[e] && g.weight[e] >= 1
  }

  /** Weight of edge `{u, v}`, or 0 where there is no such edge. */
  function Weight(g: UGraph, u: string, v: string): nat
  {
    if (u, v) in g.weight then g.weight[(u, v)] else 0
  }

  /** Weights are symmetric in the two ends of an edge. */
  lemma WeightSymmetric(g: UGraph, u: string, v: string)
    requires IsUndirected(g)
    ensures Weight(g, u, v) == Weight(g, v, u)
  {
    if (u, v) in g.weight {
      assert ((u, v).1, (u, v).0) == (v, u);
    }
    if (v, u) in g.weight {
      assert ((v, u).1, (v, u).0) == (u, v);
    }
  }

  /** `nx.isolates`: the nodes without any incident edge (a self-loop counts as one). */
  function Isolates(g: UGraph): (r: set<string>)
    requires IsUndirected(g)
    ensures forall u :: u in r <==> u in g.nodes && forall v :: Weight(g, u, v) == 0
  {
    var ends := set e | e in g.weight :: e.0;
    forall u | u in ends ensures exists v :: Weight(g, u, v) != 0 {
      var e :| e in g.weight && e.0 == u;
      assert Weight(g, u, e.1) == g.weight[e] >= 1;
    }
    g.nodes - ends
  }

  /**
    `G.subgraph(keep)`: the nodes of `g` that are in `keep` and every edge
    of `g` between two of them, with its weight.
   */
  function Induced(g: UGraph, keep: set<string>): (h: UGraph)
    ensures h.nodes == g.nodes * keep
    ensures forall u, v :: Weight(h, u, v) == if u in keep && v in keep then Weight(g, u, v) else 0
  {
    UGraph(g.nodes * keep, map e | e in g.weight && e.0 in keep && e.1 in keep :: g.weight[e])
  }

  /** An induced subgraph of an undirected graph is an undirected graph. */
  lemma InducedIsUndirected(g: UGraph, keep: set<string>)
    requires IsUndirected(g)
    ensures IsUndirected(Induced(g, keep))
  {
  }

  /** The entries of an author list as a set. */
  function Elems(xs: seq<string>): (s: set<string>)
    ensures forall x :: x in s <==> x in xs
  {
    set x | x in xs
  }

  /** Occurrences of `x` in `xs`. */
  function Count(xs: seq<string>, x: string): nat
  {
    if xs == [] then 0 else (if xs[0] == x then 1 else 0) + Count(xs[1..], x)
  }

  /** Indices `j` with `j0 <= j < |xs|` such that `{xs[i], xs[j]}` is `{u, v}`. */
  function PartnerCount(xs: seq<string>, i: nat, j0: nat, u: string, v: string): nat
    requires i < |xs|
    decreases |xs| - j0
  {
    if j0 >= |xs| then 0
    else (if SamePair(xs[i], xs[j0], u, v) then 1 else 0) + PartnerCount(xs, i, j0 + 1, u, v)
  }

  /** Index pairs `i0 <= i < j < |xs|` such that `{xs[i], xs[j]}` is `{u, v}`. */
  function PairsFrom(xs: seq<string>, i0: nat, u: string, v: string): nat
    decreases |xs| - i0
  {
    if i0 >= |xs| then 0 else PartnerCount(xs, i0, i0 + 1, u, v) + PairsFrom(xs, i0 + 1, u, v)
  }

  /**
    What one author list adds to the weight of `{u, v}`: the index pairs
    `i < j`, in the order `combinations(xs, 2)` and the nested `i < j` loops
    visit them, that name `u` and `v`.
   */
  function PairCount(xs: seq<string>, u: string, v: string): nat
  {
    PairsFrom(xs, 0, u, v)
  }

  /** What a whole sequence of author lists adds to the weight of `{u, v}`. */
  function TotalPairs(lists: seq<seq<string>>, u: string, v: string): nat
  {
    if lists == [] then 0
    else TotalPairs(lists[..|lists| - 1], u, v) + PairCount(lists[|lists| - 1], u, v)
  }

  /** Nodes `add_edge` creates for one author list: all of them once there are two entries. */
  function PairedNodes(xs: seq<string>): (r: set<string>)
    ensures |xs| >= 2 ==> forall x :: x in r <==> x in xs
    ensures |xs| < 2 ==> r == {}
  {
    if |xs| < 2 then {} else set k | 0 <= k < |xs| :: xs[k]
  }

  /** Nodes created for a whole sequence of author lists. */
  function AllPairedNodes(lists: seq<seq<string>>): set<string>
  {
    if lists == [] then {} else AllPairedNodes(lists[..|lists| - 1]) + PairedNodes(lists[|lists| - 1])
  }

  lemma CountSuffix(xs: seq<string>, i: nat, x: string)
    requires i < |xs|
    ensures Count(xs[i..], x) == (if xs[i] == x then 1 else 0) + Count(xs[i + 1..], x)
  {
    assert xs[i..][1..] == xs[i + 1..];
  }

  /** For `u != v`, the partners of `xs[i]` from `j` on are the other end's occurrences. */
  lemma {:induction false} PartnerCountDistinct(xs: seq<string>, i: nat, j: nat, u: string, v: string)
    requires i < |xs| && j <= |xs| && u != v
    ensures PartnerCount(xs, i, j, u, v) ==
            (if xs[i] == u then Count(xs[j..], v) else 0) + (if xs[i] == v then Count(xs[j..], u) else 0)
    decreases |xs| - j
  {
    if j < |xs| {
      PartnerCountDistinct(xs, i, j + 1, u, v);
      CountSuffix(xs, j, u);
      CountSuffix(xs, j, v);
    }
  }

  /** For a loop pair `{u, u}`, the partners of `xs[i]` from `j` on are the later copies of `u`. */
  lemma {:induction false} PartnerCountLoop(xs: seq<string>, i: nat, j: nat, u: string)
    requires i < |xs| && j <= |xs|
    ensures PartnerCount(xs, i, j, u, u) == if xs[i] == u then Count(xs[j..], u) else 0
    decreases |xs| - j
  {
    if j < |xs| {
      PartnerCountLoop(xs, i, j + 1, u);
      CountSuffix(xs, j, u);
    }
  }

  lemma {:induction false} PairsFromDistinct(xs: seq<string>, i: nat, u: string, v: string)
    requires i <= |xs| && u != v
    ensures PairsFrom(xs, i, u, v) == Count(xs[i..], u) * Count(xs[i..], v)
    decreases |xs| - i
  {
    if i < |xs| {
      PairsFromDistinct(xs, i + 1, u, v);
      PartnerCountDistinct(xs, i, i + 1, u, v);
      CountSuffix(xs, i, u);
      CountSuffix(xs, i, v);
      ProductStep(if xs[i] == u then 1 else 0, if xs[i] == v then 1 else 0,
                  Count(xs[i + 1..], u), Count(xs[i + 1..], v));
    }
  }

  /** Adding at most one to one of two factors. */
  lemma ProductStep(a: int, b: int, cu: int, cv: int)
    requires a == 0 || b == 0
    ensures (a + cu) * (b + cv) == a * cv + b * cu + cu * cv
  {
    if a == 0 {
      assert (a + cu) * (b + cv) == cu * b + cu * cv;
    } else {
      assert (a + cu) * (b + cv) == a * cv + cu * cv;
    }
  }

  lemma {:induction false} PairsFromLoop(xs: seq<string>, i: nat, u: string)
    requires i <= |xs|
    ensures 2 * PairsFrom(xs, i, u, u) == Count(xs[i..], u) * (Count(xs[i..], u) - 1)
    decreases |xs| - i
  {
    if i < |xs| {
      PairsFromLoop(xs, i + 1, u);
      PartnerCountLoop(xs, i, i + 1, u);
      CountSuffix(xs, i, u);
      var c: int := Count(xs[i + 1..], u);
      var p: int := PairsFrom(xs, i + 1, u, u);
      assert 2 * p == c * (c - 1);
      if xs[i] == u {
        assert PairsFrom(xs, i, u, u) == c + p;
        assert (c + 1) * c == 2 * c + c * (c - 1);
      } else {
        assert PairsFrom(xs, i, u, u) == p;
      }
    }
  }

  /**
    The weight one author list gives an edge between two different names is
    the product of their numbers of occurrences.
   */
  lemma PairCountDistinct(xs: seq<string>, u: string, v: string)
    requires u != v
    ensures PairCount(xs, u, v) == Count(xs, u) * Count(xs, v)
  {
    PairsFromDistinct(xs, 0, u, v);
    assert xs[0..] == xs;
  }

  /**
    The weight one author list gives the loop `{u, u}` is the number of
    pairs among the occurrences of `u`: `c * (c - 1) / 2` for `c` copies.
   */
  lemma PairCountLoop(xs: seq<string>, u: string)
    ensures 2 * PairCount(xs, u, u) == Count(xs, u) * (Count(xs, u) - 1)
  {
    PairsFromLoop(xs, 0, u);
    assert xs[0..] == xs;
  }

  /** Counting pairs does not depend on the order in which the two ends are named. */
  lemma PairCountSymmetric(xs: seq<string>, u: string, v: string)
    ensures PairCount(xs, u, v) == PairCount(xs, v, u)
  {
    if u != v {
      PairCountDistinct(xs, u, v);
      PairCountDistinct(xs, v, u);
    }
  }

  lemma {:induction false} CountPositive(xs: seq<string>, x: string)
    ensures Count(xs, x) > 0 <==> x in xs
  {
    if xs != [] {
      CountPositive(xs[1..], x);
      assert xs == [xs[0]] + xs[1..];
    }
  }

  /**
    An author list gives `{u, v}` a positive weight exactly when both names
    are in it, at two different positions.
   */
  lemma PairCountPositive(xs: seq<string>, u: string, v: string)
    ensures PairCount(xs, u, v) > 0 <==>
            (u != v && u in xs && v in xs) || (u == v && Count(xs, u) >= 2)
  {
    CountPositive(xs, u);
    CountPositive(xs, v);
    if u != v {
      PairCountDistinct(xs, u, v);
    } else {
      PairCountLoop(xs, u);
    }
  }

  /** A node is created for a list exactly when it is one end of a pair that list counts. */
  lemma PairedNodesAreEndpoints(xs: seq<string>, x: string)
    ensures x in PairedNodes(xs) <==> exists y :: PairCount(xs, x, y) > 0
  {
    if x in PairedNodes(xs) {
      var k :| 0 <= k < |xs| && xs[k] == x;
      var other := if k == 0 then 1 else 0;
      var y := xs[other];
      PairCountPositive(xs, x, y);
      if x == y {
        CountTwo(xs, k, other);
      }
    } else {
      forall y ensures PairCount(xs, x, y) == 0 {
        PairCountPositive(xs, x, y);
        CountPositive(xs, x);
        if x in xs && |xs| < 2 {
          CountAtMostLength(xs, x);
          if y in xs {
            assert x == xs[0] == y;
          }
        }
      }
    }
  }

  lemma {:induction false} CountAtMostLength(xs: seq<string>, x: string)
    ensures Count(xs, x) <= |xs|
  {
    if xs != [] {
      CountAtMostLength(xs[1..], x);
    }
  }

  /** Two different positions holding `x` make at least two occurrences. */
  lemma {:induction false} CountTwo(xs: seq<string>, k: nat, l: nat)
    requires k < |xs| && l < |xs| && k != l && xs[k] == xs[l]
    ensures Count(xs, xs[k]) >= 2
  {
    var x := xs[k];
    if k == 0 || l == 0 {
      var m := if k == 0 then l else k;
      assert xs[1..][m - 1] == x;
      CountPositive(xs[1..], x);
    } else {
      assert xs[1..][k - 1] == x && xs[1..][l - 1] == x;
      CountTwo(xs[1..], k - 1, l - 1);
    }
  }

  /** `g` with the edge `{u, v}` given weight `w`, its ends added as nodes. */
  function SetPair(g: UGraph, u: string, v: string, w: nat): UGraph
  {
    UGraph(g.nodes + {u, v}, g.weight[(u, v) := w][(v, u) := w])
  }

  /** Setting one edge's weight keeps the graph undirected and changes only that edge. */
  lemma SetPairSpec(g: UGraph, u: string, v: string, w: nat)
    requires IsUndirected(g) && w >= 1
    ensures IsUndirected(SetPair(g, u, v, w))
    ensures forall x, y :: Weight(SetPair(g, u, v, w), x, y) == if SamePair(u, v, x, y) then w else Weight(g, x, y)
  {
    var h := SetPair(g, u, v, w);
    forall e | e in h.weight
      ensures e.0 in h.nodes && e.1 in h.nodes && (e.1, e.0) in h.weight
              && h.weight[(e.1, e.0)] == h.weight[e] && h.weight[e] >= 1
    {
      if e != (u, v) && e != (v, u) {
        assert e in g.weight;
        assert (e.1, e.0) != (u, v) && (e.1, e.0) != (v, u);
      }
    }
    forall x, y ensures Weight(h, x, y) == if SamePair(u, v, x, y) then w else Weight(g, x, y) {
      if !SamePair(u, v, x, y) {
        assert (x, y) != (u, v) && (x, y) != (v, u);
      }
    }
  }

  class Graph {
    var nodes: set<string>
    var weight: map<(string, string), nat>

    function Value(): UGraph
      reads this
    {
      UGraph(nodes, weight)
    }

    ghost predicate Valid()
      reads this
    {
      IsUndirected(Value())
    }

    /** `nx.Graph()`: no nodes, no edges. */
    constructor ()
      ensures Valid() && nodes == {} && weight == map[]
    {
      nodes := {};
      weight := map[];
    }

    /** `G.has_edge(u, v)`. */
    function HasEdge(u: string, v: string): (b: bool)
      reads this
      requires Valid()
      ensures b <==> Weight(Value(), u, v) >= 1
    {
      (u, v) in weight
    }

    /** `G.add_node(u)`: a new node without edges; an existing node is left as it is. */
    method AddNode(u: string)
      requires Valid()
      modifies this
      ensures Valid()
      ensures nodes == old(nodes) + {u} && weight == old(weight)
    {
      nodes := nodes + {u};
    }

    /** `G.add_edge(u, v, weight=w)` for a pair that has no edge yet; missing ends become nodes. */
    method AddEdge(u: string, v: string, w: nat)
      requires Valid() && !HasEdge(u, v) && w >= 1
      modifies this
      ensures Valid()
      ensures nodes == old(nodes) + {u, v}
      ensures forall x, y :: Weight(Value(), x, y) == if SamePair(u, v, x, y) then w else old(Weight(Value(), x, y))
    {
      SetPairSpec(Value(), u, v, w);
      nodes := nodes + {u, v};
      weight := weight[(u, v) := w][(v, u) := w];
    }

    /** `G[u][v]['weight'] += 1` on an existing edge. */
    method IncrementWeight(u: string, v: string)
      requires Valid() && HasEdge(u, v)
      modifies this
      ensures Valid()
      ensures nodes == old(nodes)
      ensures forall x, y :: Weight(Value(), x, y) == old(Weight(Value(), x, y)) + if SamePair(u, v, x, y) then 1 else 0
    {
      WeightSymmetric(Value(), u, v);
      var w := weight[(u, v)] + 1;
      SetPairSpec(Value(), u, v, w);
      assert nodes + {u, v} == nodes;
      weight := weight[(u, v) := w][(v, u) := w];
    }

    /**
      The pair step of both scripts: `G[u][v]['weight'] += 1` when the edge
      exists, `G.add_edge(u, v, weight=1)` otherwise; either way `{u, v}`
      gains one.
     */
    method AddOrIncrement(u: string, v: string)
      requires Valid()
      modifies this
      ensures Valid()
      ensures nodes == old(nodes) + {u, v}
      ensures forall x, y :: Weight(Value(), x, y) == old(Weight(Value(), x, y)) + if SamePair(u, v, x, y) then 1 else 0
    {
      if HasEdge(u, v) {
        assert u in nodes && v in nodes;
        IncrementWeight(u, v);
      } else {
        AddEdge(u, v, 1);
      }
    }

    /** `G.remove_edges_from(nx.selfloop_edges(G))`. */
    method RemoveSelfLoops()
      requires Valid()
      modifies this
      ensures Valid()
      ensures nodes == old(nodes)
      ensures forall x, y :: Weight(Value(), x, y) == if x == y then 0 else old(Weight(Value(), x, y))
    {
      weight := map e | e in weight && e.0 != e.1 :: weight[e];
    }

    /** `G.remove_nodes_from(ns)`: the nodes in `ns` go, and every edge touching them. */
    method RemoveNodes(ns: set<string>)
      requires Valid()
      modifies this
      ensures Valid()
      ensures nodes == old(nodes) - ns
      ensures forall x, y :: Weight(Value(), x, y) == if x in ns || y in ns then 0 else old(Weight(Value(), x, y))
    {
      nodes := nodes - ns;
      weight := map e | e in weight && e.0 !in ns && e.1 !in ns :: weight[e];
    }
  }

  /** The entries `xs[a..b]` as a set. */
  function SpanNodes(xs: seq<string>, a: nat, b: nat): (r: set<string>)
    requires a <= b <= |xs|
    ensures forall x :: x in r <==> exists k :: a <= k < b && xs[k] == x
  {
    set k | a <= k < b :: xs[k]
  }

  /** Nodes `add_edge` creates while `xs[i]` is paired with the entries after it. */
  function PartnerNodes(xs: seq<string>, i: nat): set<string>
    requires i < |xs|
  {
    if i + 1 < |xs| then SpanNodes(xs, i, |xs|) else {}
  }

  /** Nodes created once `xs[i]` has been paired with `xs[i + 1..j]`. */
  function PartnerSpan(xs: seq<string>, i: nat, j: nat): set<string>
    requires i < j <= |xs|
  {
    if j > i + 1 then SpanNodes(xs, i, j) else {}
  }

  lemma PartnerSpanStep(xs: seq<string>, i: nat, j: nat)
    requires i < j < |xs|
    ensures PartnerSpan(xs, i, j + 1) == PartnerSpan(xs, i, j) + {xs[i], xs[j]}
  {
    assert xs[i] in SpanNodes(xs, i, j + 1);
  }

  /** The inner `j` loop: `xs[i]` paired with every later entry. */
  method AddPartners(g: Graph, xs: seq<string>, i: nat)
    requires g.Valid() && i < |xs|
    modifies g
    ensures g.Valid()
    ensures g.nodes == old(g.nodes) + PartnerNodes(xs, i)
    ensures forall u, v :: Weight(g.Value(), u, v) == old(Weight(g.Value(), u, v)) + PartnerCount(xs, i, i + 1, u, v)
  {
    for j := i + 1 to |xs|
      invariant g.Valid()
      invariant g.nodes == old(g.nodes) + PartnerSpan(xs, i, j)
      invariant forall u, v :: Weight(g.Value(), u, v) + PartnerCount(xs, i, j, u, v)
                               == old(Weight(g.Value(), u, v)) + PartnerCount(xs, i, i + 1, u, v)
    {
      g.AddOrIncrement(xs[i], xs[j]);
      PartnerSpanStep(xs, i, j);
    }
  }

  /**
    The pair loop shared by both scripts: for every index pair `i < j` of
    `xs`, in order, `G[xs[i]][xs[j]]['weight'] += 1` when the edge exists and
    `G.add_edge(xs[i], xs[j], weight=1)` otherwise.
   */
  method AddPairs(g: Graph, xs: seq<string>)
    requires g.Valid()
    modifies g
    ensures g.Valid()
    ensures g.nodes == old(g.nodes) + PairedNodes(xs)
    ensures forall u, v :: Weight(g.Value(), u, v) == old(Weight(g.Value(), u, v)) + PairCount(xs, u, v)
  {
    for i := 0 to |xs|
      invariant g.Valid()
      invariant g.nodes == old(g.nodes) + if i > 0 then PairedNodes(xs) else {}
      invariant forall u, v :: Weight(g.Value(), u, v) + PairsFrom(xs, i, u, v) == old(Weight(g.Value(), u, v)) + PairCount(xs, u, v)
    {
      AddPartners(g, xs, i);
      assert i == 0 ==> PartnerNodes(xs, i) == PairedNodes(xs);
      assert PartnerNodes(xs, i) <= PairedNodes(xs);
    }
  }
}
