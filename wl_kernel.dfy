/** The Weisfeiler-Lehman graph kernel of the X-Trace web UI. Each round
    relabels every node of a kernel graph with a fresh label for its old
    label together with the multiset of its neighbours' labels, and a base
    kernel scores the two graphs at every round. One label generator, shared
    by both graphs, hands out the fresh labels, so equal labels in the two
    graphs mean equal canonical labels: the old label, a colon, and the
    sorted neighbour labels joined by commas. (That text can be the same
    for different neighbourhoods when labels hold commas or colons.)

    A fresh label is a JavaScript number; it is used as an object key and
    concatenated into canonical labels, where it reads as its decimal text,
    so the model keeps labels as that text. Scores are JavaScript numbers,
    modelled as exact reals. The base kernel is a function of the two
    graphs' states. */
module WLKernel {
  import opened Common
  import Grouping
  import opened StringSort
  import opened TextSplit
  import opened KernelGraphs

  // ---------------------------------------------------------------------
  // Parameters
  // ---------------------------------------------------------------------

  const DEFAULT_DEPTH: nat := 4

  type Depth = n: nat | n >= 1 witness 1

  /** `(depth && depth > 0) ? depth : 4`; an absent depth is `None`. */
  function DepthOf(depth: Option<int>): (r: Depth)
    ensures depth.Some? && depth.value > 0 ==> r == depth.value
    ensures depth.None? || depth.value <= 0 ==> r == DEFAULT_DEPTH
  {
    if depth.Some? && depth.value > 0 then depth.value else DEFAULT_DEPTH
  }

  datatype Direction = Both | Up | Down

  // ---------------------------------------------------------------------
  // Canonical labels
  // ---------------------------------------------------------------------

  /** The text of an issued label. */
  function LabelText(n: nat): string
  {
    NatToString(n)
  }

  lemma LabelTextInjective(m: nat, n: nat)
    requires LabelText(m) == LabelText(n)
    ensures m == n
  {
    Grouping.NatToStringValue(m);
    Grouping.NatToStringValue(n);
  }

  /** `label + ":" + neighbour_labels.sort().join(",")`. */
  function Canonical(lbl: string, neighbours: seq<string>): string
  {
    lbl + ":" + Join(Sort(neighbours), ",")
  }

  /** The canonical label depends on the neighbour labels only as a
      multiset: their order does not matter. */
  lemma CanonicalOrderFree(lbl: string, a: seq<string>, b: seq<string>)
    requires multiset(a) == multiset(b)
    ensures Canonical(lbl, a) == Canonical(lbl, b)
  {
    SortOrderFree(a, b);
  }

  /** Some sequence holding the elements of a multiset. */
  ghost function SeqOf(m: multiset<string>): (r: seq<string>)
    ensures multiset(r) == m
    decreases |m|
  {
    if m == multiset{} then []
    else
      var x :| x in m;
      [x] + SeqOf(m - multiset{x})
  }

  /** The canonical label of a label and a multiset of neighbour labels. */
  ghost function Key(lbl: string, m: multiset<string>): string
  {
    Canonical(lbl, SeqOf(m))
  }

  lemma CanonicalIsKey(lbl: string, xs: seq<string>)
    ensures Canonical(lbl, xs) == Key(lbl, multiset(xs))
  {
    CanonicalOrderFree(lbl, xs, SeqOf(multiset(xs)));
  }

  // ---------------------------------------------------------------------
  // The label generator
  // ---------------------------------------------------------------------

  /** `m2` keeps every entry of `m1`. */
  ghost predicate Extends(m1: map<string, nat>, m2: map<string, nat>)
  {
    forall k :: k in m1 ==> k in m2 && m2[k] == m1[k]
  }

  lemma ExtendsTransitive(m1: map<string, nat>, m2: map<string, nat>, m3: map<string, nat>)
    requires Extends(m1, m2) && Extends(m2, m3)
    ensures Extends(m1, m3)
  {
  }

  ghost predicate Injective(m: map<string, nat>)
  {
    forall k1, k2 :: k1 in m && k2 in m && m[k1] == m[k2] ==> k1 == k2
  }

  /** `WLMultisetLabelGenerator`: a memo from canonical labels to the numbers
      issued for them. */
  class LabelGenerator {
    var labels: map<string, nat>
    var seed: nat
    /** The canonical labels in the order their numbers were issued. */
    ghost var issued: seq<string>

    /** The `i`-th canonical label issued got the number `i`, and each
        remembered canonical label got the number it is listed at. */
    ghost predicate Valid()
      reads this
    {
      && |issued| == seed
      && (forall i :: 0 <= i < |issued| ==> issued[i] in labels && labels[issued[i]] == i)
      && (forall k :: k in labels ==> labels[k] < seed && issued[labels[k]] == k)
    }

    constructor ()
      ensures Valid() && labels == map[] && seed == 0
    {
      labels, seed, issued := map[], 0, [];
    }

    /** Distinct canonical labels have distinct numbers. */
    lemma IssuedInjective()
      requires Valid()
      ensures Injective(labels)
    {
      forall k1, k2 | k1 in labels && k2 in labels && labels[k1] == labels[k2]
        ensures k1 == k2
      {
        assert issued[labels[k1]] == k1 && issued[labels[k2]] == k2;
      }
    }

    /** `next`: the seed, which then goes up by one. */
    method Next() returns (r: nat)
      modifies this
      ensures r == old(seed) && seed == old(seed) + 1
      ensures labels == old(labels) && issued == old(issued)
    {
      r := seed;
      seed := seed + 1;
    }

    /** `relabel`: the number remembered for the canonical label, or the next
        number, remembered from now on. */
    method Relabel(lbl: string, neighbours: seq<string>) returns (r: nat)
      requires Valid()
      modifies this
      ensures Valid() && Extends(old(labels), labels)
      ensures Canonical(lbl, neighbours) in labels && r == labels[Canonical(lbl, neighbours)]
      ensures Canonical(lbl, neighbours) in old(labels) ==> labels == old(labels) && seed == old(seed)
      ensures Canonical(lbl, neighbours) !in old(labels) ==>
        r == old(seed) && seed == old(seed) + 1 && labels == old(labels)[Canonical(lbl, neighbours) := r]
    {
      var key := Canonical(lbl, neighbours);
      if key !in labels {
        var n := Next();
        labels := labels[key := n];
        issued := issued + [key];
      }
      r := labels[key];
    }
  }

  // ---------------------------------------------------------------------
  // One relabelling round, as a relation between two graph states
  // ---------------------------------------------------------------------

  /** The labels of the neighbours of `x` that `relabel` looks at. In a
      well-formed graph every neighbour is a node (`AdjacentAreNodes`), so
      keeping only the nodes among them changes nothing. */
  ghost function NeighbourLabels(g: Graph, x: string, dir: Direction): multiset<string>
  {
    var ps := SetAt(g.parents, x) * g.nodes.Keys;
    var cs := SetAt(g.children, x) * g.nodes.Keys;
    match dir
    case Both => LabelsOf(g.nodes, cs) + LabelsOf(g.nodes, ps)
    case Up => LabelsOf(g.nodes, ps)
    case Down => LabelsOf(g.nodes, cs)
  }

  /** The canonical label of node `x`. */
  ghost function NodeKey(g: Graph, x: string, dir: Direction): string
    requires x in g.nodes
  {
    Key(g.nodes[x].lbl, NeighbourLabels(g, x, dir))
  }

  /** Whether node `x` survives the round: looking up or down, a node
      without parents, or without children, is dropped. */
  predicate Stays(g: Graph, x: string, dir: Direction)
  {
    match dir
    case Both => true
    case Up => SetAt(g.parents, x) != {}
    case Down => SetAt(g.children, x) != {}
  }

  /** Node `x` of `h` carries the number that `labels` gives the canonical
      label of `x` in `g`, and keeps its data. */
  ghost predicate NewLabel(g: Graph, h: Graph, labels: map<string, nat>, x: string, dir: Direction)
  {
    && x in g.nodes && x in h.nodes
    && NodeKey(g, x, dir) in labels
    && h.nodes[x].lbl == LabelText(labels[NodeKey(g, x, dir)])
    && h.nodes[x].data == g.nodes[x].data
  }

  /** Every node of `nodes` holds the data it has in `g`. */
  ghost predicate KeepsData(g: Graph, nodes: map<string, KernelNode>)
  {
    forall x :: x in nodes ==> x in g.nodes && nodes[x].data == g.nodes[x].data
  }

  /** The adjacency map `m` cut down to the nodes in `keep`: their entries
      only, each holding only nodes in `keep`. */
  function Restricted(m: map<string, set<string>>, keep: set<string>): map<string, set<string>>
  {
    map k | k in m && k in keep :: m[k] * keep
  }

  /** The edges of `h` are exactly those of `g` between nodes of `h`. */
  ghost predicate KeptEdges(g: Graph, h: Graph)
  {
    h.parents == Restricted(g.parents, h.nodes.Keys) && h.children == Restricted(g.children, h.nodes.Keys)
  }

  /** `h` is `g` after one round of `relabel` with the generator's memo
      `labels`. */
  ghost predicate Round(g: Graph, h: Graph, dir: Direction, labels: map<string, nat>)
  {
    && (forall x :: x in h.nodes <==> x in g.nodes && Stays(g, x, dir))
    && (forall x {:trigger NewLabel(g, h, labels, x, dir)} :: x in h.nodes ==> NewLabel(g, h, labels, x, dir))
    && (dir == Both ==> h.parents == g.parents && h.children == g.children)
    && (dir != Both ==> KeptEdges(g, h))
  }

  lemma NewLabelExtends(g: Graph, h: Graph, l1: map<string, nat>, l2: map<string, nat>, x: string, dir: Direction)
    requires NewLabel(g, h, l1, x, dir) && Extends(l1, l2)
    ensures NewLabel(g, h, l2, x, dir)
  {
  }

  /** A round stays a round once the memo has grown. */
  lemma RoundExtends(g: Graph, h: Graph, dir: Direction, l1: map<string, nat>, l2: map<string, nat>)
    requires Round(g, h, dir, l1) && Extends(l1, l2)
    ensures Round(g, h, dir, l2)
  {
    forall x | x in h.nodes
      ensures NewLabel(g, h, l2, x, dir)
    {
      NewLabelExtends(g, h, l1, l2, x, dir);
    }
  }

  /** The two loops of `relabel` make a round: the first gives every node
      its new label, the second drops the nodes `Stays` rules out. */
  lemma RoundOf(g: Graph, h1: Graph, h2: Graph, labels: map<string, nat>, dir: Direction)
    requires forall x {:trigger NewLabel(g, h1, labels, x, dir)} :: x in g.nodes ==> NewLabel(g, h1, labels, x, dir)
    requires h1.nodes.Keys == g.nodes.Keys && h1.parents == g.parents && h1.children == g.children
    requires dir == Both ==> h2 == h1
    requires dir != Both ==> forall x :: x in h2.nodes <==> x in g.nodes && Stays(g, x, dir)
    requires dir != Both ==> forall x :: x in h2.nodes ==> x in h1.nodes && h2.nodes[x] == h1.nodes[x]
    requires dir != Both ==> KeptEdges(g, h2)
    ensures Round(g, h2, dir, labels)
  {
    forall x | x in h2.nodes
      ensures NewLabel(g, h2, labels, x, dir)
    {
      assert NewLabel(g, h1, labels, x, dir);
    }
  }

  /** A round is determined by the graph and the memo: two well-formed
      rounds of `g` are the same graph, so the base kernel scores one
      graph per round. */
  lemma RoundDetermined(g: Graph, h1: Graph, h2: Graph, dir: Direction, labels: map<string, nat>)
    requires WellFormed(h1) && WellFormed(h2)
    requires Round(g, h1, dir, labels) && Round(g, h2, dir, labels)
    ensures h1 == h2
  {
    RoundNodes(g, h1, h2, dir, labels);
    RoundEdges(g, h1, h2, dir, labels);
    IndexUnique(h1.nodes, h1.labels, h2.labels);
  }

  lemma RoundNodes(g: Graph, h1: Graph, h2: Graph, dir: Direction, labels: map<string, nat>)
    requires IdKeyed(h1.nodes) && IdKeyed(h2.nodes)
    requires Round(g, h1, dir, labels) && Round(g, h2, dir, labels)
    ensures h1.nodes == h2.nodes
  {
    forall x | x in h1.nodes
      ensures x in h2.nodes && h1.nodes[x] == h2.nodes[x]
    {
      assert NewLabel(g, h1, labels, x, dir) && NewLabel(g, h2, labels, x, dir);
    }
    assert h1.nodes.Keys == h2.nodes.Keys;
  }

  lemma RoundEdges(g: Graph, h1: Graph, h2: Graph, dir: Direction, labels: map<string, nat>)
    requires h1.nodes.Keys == h2.nodes.Keys
    requires Round(g, h1, dir, labels) && Round(g, h2, dir, labels)
    ensures h1.parents == h2.parents && h1.children == h2.children
  {
  }

  /** In one round over one or two graphs sharing a generator, two nodes get
      the same new label exactly when their canonical labels (old label and
      sorted neighbour labels as one text) are equal. */
  lemma SameNewLabel(g1: Graph, h1: Graph, g2: Graph, h2: Graph, dir: Direction,
                     labels: map<string, nat>, x: string, y: string)
    requires Injective(labels) && NewLabel(g1, h1, labels, x, dir) && NewLabel(g2, h2, labels, y, dir)
    ensures h1.nodes[x].lbl == h2.nodes[y].lbl <==> NodeKey(g1, x, dir) == NodeKey(g2, y, dir)
  {
    if h1.nodes[x].lbl == h2.nodes[y].lbl {
      LabelTextInjective(labels[NodeKey(g1, x, dir)], labels[NodeKey(g2, y, dir)]);
    }
  }

  /** In "both" mode a round keeps the nodes and the edges. */
  lemma BothKeepsGraph(g: Graph, h: Graph, labels: map<string, nat>)
    requires Round(g, h, Both, labels)
    ensures h.nodes.Keys == g.nodes.Keys && h.parents == g.parents && h.children == g.children
  {
  }

  // ---------------------------------------------------------------------
  // The directional prune as written
  // ---------------------------------------------------------------------

  /** What a KernelNode object turns into when used as an object key. */
  const OBJECT_KEY: string := "[object Object]"

  /** The prune as written passes the node object, not its id, to
      `get_parent_ids` / `get_child_ids`, which look it up under
      `OBJECT_KEY`. */
  predicate StaysAsWritten(g: Graph, x: string, dir: Direction)
  {
    match dir
    case Both => true
    case Up => SetAt(g.parents, OBJECT_KEY) != {}
    case Down => SetAt(g.children, OBJECT_KEY) != {}
  }

  /** Looking up or down, and with no node under the id `OBJECT_KEY`, the
      prune as written drops every node. */
  lemma PruneAsWrittenDropsAll(g: Graph, dir: Direction, x: string)
    requires Keyed(g) && OBJECT_KEY !in g.nodes && dir != Both
    ensures !StaysAsWritten(g, x, dir)
  {
  }

  /** Nodes `a` and `b` with the edge a->b. */
  function ChainExample(): Graph
  {
    Graph(map["a" := KernelNode("a", "X", map[]), "b" := KernelNode("b", "X", map[])],
          map["a" := {}, "b" := {"a"}],
          map["a" := {"b"}, "b" := {}],
          map["X" := {"a", "b"}])
  }

  /** Looking up from a->b, `b` has a parent and stays, but the prune as
      written drops it. */
  lemma ChainExampleDropped()
    ensures Keyed(ChainExample()) && OBJECT_KEY !in ChainExample().nodes
    ensures Stays(ChainExample(), "b", Up) && !StaysAsWritten(ChainExample(), "b", Up)
    ensures !Stays(ChainExample(), "a", Up)
  {
  }

  // ---------------------------------------------------------------------
  // Scores
  // ---------------------------------------------------------------------

  /** The sum of the base kernel over the rounds. */
  function Total(kernel: (Graph, Graph) -> real, ga: seq<Graph>, gb: seq<Graph>): real
    requires |ga| == |gb|
  {
    if ga == [] then 0.0
    else Total(kernel, ga[..|ga| - 1], gb[..|gb| - 1]) + kernel(ga[|ga| - 1], gb[|gb| - 1])
  }

  /** `count_other / count_self`, inverted when above 1. */
  function Ratio(mine: nat, other: nat): (r: real)
    requires mine > 0
    ensures 0.0 <= r <= 1.0
    ensures r == 0.0 <==> other == 0
    ensures mine == other ==> r == 1.0
  {
    var s := other as real / mine as real;
    assert mine == other ==> s == 1.0 by {
      if mine == other {
        SelfRatio(mine);
      }
    }
    if s > 1.0 then 1.0 / s else s
  }

  lemma SelfRatio(m: nat)
    requires m > 0
    ensures m as real / m as real == 1.0
  {
  }

  /** The ratio does not depend on which graph is "self". */
  lemma RatioSymmetric(m: nat, n: nat)
    requires m > 0 && n > 0
    ensures Ratio(m, n) == Ratio(n, m)
  {
    var s := n as real / m as real;
    var t := m as real / n as real;
    assert s * t == 1.0;
  }

  /** What one round adds to the score of a node whose label `mine` nodes
      share in its own graph and `other` nodes in the other graph. A label
      of no node gives nothing, as JavaScript's division by zero does. */
  function Contribution(mine: nat, other: nat): (r: real)
    ensures r == 0.0 || (0.5 < r <= 1.0)
    ensures r == 0.0 <==> mine == 0 || other == 0
    ensures mine > 0 && mine == other ==> r == 1.0
  {
    if mine == 0 then 0.0
    else
      var s := Ratio(mine, other);
      if s > 0.0 then 0.5 + 0.5 * s else 0.0
  }

  /** `l1`/`s1` is `l0`/`s0` with label `lbl` and score `c` credited to
      `id`. */
  ghost predicate Credited(l0: map<string, seq<string>>, s0: map<string, real>,
                           l1: map<string, seq<string>>, s1: map<string, real>, id: string, lbl: string, c: real)
  {
    id in l0 && id in s0 && id in l1 && id in s1 && l1[id] == l0[id] + [lbl] && s1[id] == s0[id] + c
  }

  ghost predicate Unchanged(l0: map<string, seq<string>>, s0: map<string, real>,
                            l1: map<string, seq<string>>, s1: map<string, real>, id: string)
  {
    id in l0 && id in s0 && id in l1 && id in s1 && l1[id] == l0[id] && s1[id] == s0[id]
  }

  /** What a round adds for node `id` of `nodes` against `others`. */
  ghost function Earned(nodes: map<string, KernelNode>, others: map<string, KernelNode>, id: string): real
    requires id in nodes
  {
    Contribution(|Labelled(nodes, nodes[id].lbl)|, |Labelled(others, nodes[id].lbl)|)
  }

  /** The score bookkeeping of one round: every node of `nodes` is credited
      its label and what it earned; every other id is left alone. */
  ghost predicate RoundCredited(nodes: map<string, KernelNode>, others: map<string, KernelNode>,
                                l0: map<string, seq<string>>, s0: map<string, real>,
                                l1: map<string, seq<string>>, s1: map<string, real>)
  {
    && l1.Keys == l0.Keys && s1.Keys == s0.Keys
    && forall id :: id in l0 ==>
         if id in nodes then Credited(l0, s0, l1, s1, id, nodes[id].lbl, Earned(nodes, others, id))
         else Unchanged(l0, s0, l1, s1, id)
  }

  /** Credits `lbl` and `c` to each listed id. */
  method Credit(labels: map<string, seq<string>>, scores: map<string, real>, ids: seq<string>, lbl: string, c: real)
    returns (l1: map<string, seq<string>>, s1: map<string, real>)
    requires Distinct(ids) && forall id :: id in ids ==> id in labels && id in scores
    ensures l1.Keys == labels.Keys && s1.Keys == scores.Keys
    ensures forall id :: id in ids ==> Credited(labels, scores, l1, s1, id, lbl, c)
    ensures forall id :: id in labels && id in scores && id !in ids ==> Unchanged(labels, scores, l1, s1, id)
  {
    l1, s1 := labels, scores;
    for k := 0 to |ids|
      invariant l1.Keys == labels.Keys && s1.Keys == scores.Keys
      invariant forall id :: id in ids[..k] ==> Credited(labels, scores, l1, s1, id, lbl, c)
      invariant forall id :: id in labels && id in scores && id !in ids[..k] ==> Unchanged(labels, scores, l1, s1, id)
    {
      var id := ids[k];
      DistinctAt(ids, k);
      l1 := l1[id := l1[id] + [lbl]];
      s1 := s1[id := s1[id] + c];
      assert ids[..k + 1] == ids[..k] + [id];
    }
    assert ids[..|ids|] == ids;
  }

  lemma DistinctAt(xs: seq<string>, k: nat)
    requires Distinct(xs) && k < |xs|
    ensures xs[k] !in xs[..k]
  {
    forall i | 0 <= i < k
      ensures xs[..k][i] != xs[k]
    {
    }
  }

  // ---------------------------------------------------------------------
  // The kernel
  // ---------------------------------------------------------------------

  class WeisfeilerLehmanKernel {
    const depth: Depth
    const kernel: (Graph, Graph) -> real
    const generator: LabelGenerator

    /** `new WeisfeilerLehmanKernel(depth, kernel)` with a fresh generator. */
    constructor (depth: Option<int>, kernel: (Graph, Graph) -> real)
      ensures this.depth == DepthOf(depth) && this.kernel == kernel
      ensures fresh(generator) && generator.Valid() && generator.labels == map[]
    {
      this.depth := DepthOf(depth);
      this.kernel := kernel;
      generator := new LabelGenerator();
    }

    /** `relabel(graph, direction)`: a relabelled copy of `graph`, which is
        left as it is. */
    method Relabel(graph: KernelGraph, dir: Direction) returns (next: KernelGraph)
      requires graph.Valid() && generator.Valid()
      modifies generator
      ensures fresh(next) && next.Valid()
      ensures generator.Valid() && Extends(old(generator.labels), generator.labels)
      ensures Round(graph.Snapshot(), next.Snapshot(), dir, generator.labels)
    {
      ghost var g := graph.Snapshot();
      var ids;
      next, ids := CloneRelabelled(g, graph, dir);
      Trim(g, graph, next, ids, dir, generator.labels);
    }

    /** The copy and the first loop of `relabel`. */
    method CloneRelabelled(ghost g: Graph, graph: KernelGraph, dir: Direction) returns (next: KernelGraph, ids: seq<string>)
      requires g == graph.Snapshot() && graph.Valid() && generator.Valid()
      modifies generator
      ensures fresh(next) && next.Valid() && Listing(ids, g.nodes.Keys)
      ensures generator.Valid() && Extends(old(generator.labels), generator.labels)
      ensures next.nodes.Keys == g.nodes.Keys && next.parents == g.parents && next.children == g.children
      ensures forall x {:trigger NewLabel(g, next.Snapshot(), generator.labels, x, dir)} :: x in g.nodes ==> NewLabel(g, next.Snapshot(), generator.labels, x, dir)
    {
      next := graph.Clone();
      ids := graph.NodeIds();
      RelabelAll(g, graph, next, ids, dir);
    }

    /** The first loop of `relabel`: each listed node of `next` gets the
        number for its canonical label in `graph`. */
    method RelabelAll(ghost g: Graph, graph: KernelGraph, next: KernelGraph, ids: seq<string>, dir: Direction)
      requires g == graph.Snapshot() && graph.Valid() && next.Valid() && generator.Valid() && next != graph
      requires next.nodes.Keys == graph.nodes.Keys && Listing(ids, graph.nodes.Keys)
      requires KeepsData(g, next.nodes)
      modifies next, generator
      ensures next.Valid() && generator.Valid() && Extends(old(generator.labels), generator.labels)
      ensures next.nodes.Keys == graph.nodes.Keys
      ensures next.parents == old(next.parents) && next.children == old(next.children)
      ensures forall x {:trigger NewLabel(g, next.Snapshot(), generator.labels, x, dir)} :: x in g.nodes ==> NewLabel(g, next.Snapshot(), generator.labels, x, dir)
    {
      ghost var start := generator.labels;
      for i := 0 to |ids|
        invariant next.Valid() && generator.Valid() && Extends(start, generator.labels)
        invariant next.nodes.Keys == graph.nodes.Keys && KeepsData(g, next.nodes)
        invariant next.parents == old(next.parents) && next.children == old(next.children)
        invariant forall x {:trigger NewLabel(g, next.Snapshot(), generator.labels, x, dir)} :: x in ids[..i] ==> NewLabel(g, next.Snapshot(), generator.labels, x, dir)
      {
        ghost var before := next.Snapshot();
        ghost var memo := generator.labels;
        var text := RelabelOne(graph, next, ids[i], dir);
        RelabelStep(g, before, next.Snapshot(), memo, generator.labels, ids, i, text, dir);
        RelabelKeepsData(g, before, ids[i], text);
      }
      assert ids[..|ids|] == ids;
    }

    /** One pass of the first loop of `relabel`. */
    method RelabelOne(graph: KernelGraph, next: KernelGraph, x: string, dir: Direction) returns (text: string)
      requires graph.Valid() && next.Valid() && generator.Valid() && next != graph
      requires x in graph.nodes && x in next.nodes && next.nodes[x].data == graph.nodes[x].data
      modifies next, generator
      ensures next.Valid() && generator.Valid() && Extends(old(generator.labels), generator.labels)
      ensures NewLabel(graph.Snapshot(), next.Snapshot(), generator.labels, x, dir)
      ensures next.Snapshot() == Relabelled(old(next.Snapshot()), x, text)
    {
      ghost var h := next.Snapshot();
      var neighbours := NeighbourLabelsOf(graph, x, dir);
      var n := generator.Relabel(graph.nodes[x].lbl, neighbours);
      CanonicalIsKey(graph.nodes[x].lbl, neighbours);
      text := LabelText(n);
      RelabelNode(h, next, x, text);
    }

    /** `do_calculate(a, b, direction)`: the base kernel summed over `depth`
        rounds of relabelling, divided by `depth`. The rounds' graph states
        are `ra` and `rb`. */
    method DoCalculate(a: KernelGraph, b: KernelGraph, dir: Direction)
      returns (score: real, ghost ra: seq<Graph>, ghost rb: seq<Graph>)
      requires a.Valid() && b.Valid() && generator.Valid()
      modifies generator
      ensures generator.Valid() && Extends(old(generator.labels), generator.labels)
      ensures |ra| == depth && |rb| == depth && ra[0] == a.Snapshot() && rb[0] == b.Snapshot()
      ensures Rounds(ra, rb, dir, generator.labels) && AllWellFormed(ra) && AllWellFormed(rb)
      ensures score == Total(kernel, ra, rb) / depth as real
    {
      ghost var a0, b0 := a.Snapshot(), b.Snapshot();
      ghost var start := generator.labels;
      var ga, gb := a, b;
      ra, rb := [a0], [b0];
      score := kernel(a.Snapshot(), b.Snapshot());
      TotalSnoc(kernel, [], [], a0, b0);
      for i := 1 to depth
        invariant ga.Valid() && gb.Valid() && generator.Valid() && Extends(start, generator.labels)
        invariant |ra| == i && |rb| == i && ra[0] == a0 && rb[0] == b0
        invariant ra[i - 1] == ga.Snapshot() && rb[i - 1] == gb.Snapshot()
        invariant Rounds(ra, rb, dir, generator.labels) && AllWellFormed(ra) && AllWellFormed(rb)
        invariant score == Total(kernel, ra, rb)
      {
        ghost var memo := generator.labels;
        ga, gb, ra, rb, score := NextRound(ra, rb, ga, gb, dir, score);
        ExtendsTransitive(start, memo, generator.labels);
      }
      score := score / depth as real;
    }

    /** One pass of `do_calculate`'s loop: relabel both graphs and add the
        base kernel's score for the new pair. */
    method NextRound(ghost ra: seq<Graph>, ghost rb: seq<Graph>, a: KernelGraph, b: KernelGraph, dir: Direction, score: real)
      returns (na: KernelGraph, nb: KernelGraph, ghost ra2: seq<Graph>, ghost rb2: seq<Graph>, score2: real)
      requires |ra| == |rb| > 0 && ra[|ra| - 1] == a.Snapshot() && rb[|rb| - 1] == b.Snapshot()
      requires a.Valid() && b.Valid() && generator.Valid()
      requires Rounds(ra, rb, dir, generator.labels) && score == Total(kernel, ra, rb)
      requires AllWellFormed(ra) && AllWellFormed(rb)
      modifies generator
      ensures na.Valid() && nb.Valid() && generator.Valid() && Extends(old(generator.labels), generator.labels)
      ensures ra2 == ra + [na.Snapshot()] && rb2 == rb + [nb.Snapshot()]
      ensures Rounds(ra2, rb2, dir, generator.labels) && score2 == Total(kernel, ra2, rb2)
      ensures AllWellFormed(ra2) && AllWellFormed(rb2)
    {
      ghost var memo := generator.labels;
      na, nb := RelabelBoth(ra[|ra| - 1], rb[|rb| - 1], a, b, dir);
      RoundsSnoc(ra, rb, na.Snapshot(), nb.Snapshot(), dir, memo, generator.labels);
      TotalSnoc(kernel, ra, rb, na.Snapshot(), nb.Snapshot());
      ra2, rb2 := ra + [na.Snapshot()], rb + [nb.Snapshot()];
      score2 := score + kernel(na.Snapshot(), nb.Snapshot());
      AllWellFormedSnoc(ra, na.Snapshot());
      AllWellFormedSnoc(rb, nb.Snapshot());
    }

    /** One round of relabelling for both graphs, `a` first; `sa` and `sb`
        are their states. */
    method RelabelBoth(ghost sa: Graph, ghost sb: Graph, a: KernelGraph, b: KernelGraph, dir: Direction)
      returns (na: KernelGraph, nb: KernelGraph)
      requires sa == a.Snapshot() && sb == b.Snapshot()
      requires a.Valid() && b.Valid() && generator.Valid()
      modifies generator
      ensures fresh(na) && fresh(nb) && na.Valid() && nb.Valid()
      ensures generator.Valid() && Extends(old(generator.labels), generator.labels)
      ensures Round(sa, na.Snapshot(), dir, generator.labels) && Round(sb, nb.Snapshot(), dir, generator.labels)
      ensures Within(na.nodes, sa.nodes, dir) && Within(nb.nodes, sb.nodes, dir)
    {
      na := Relabel(a, dir);
      ghost var mid := generator.labels;
      ghost var ha := na.Snapshot();
      nb := Relabel(b, dir);
      RoundExtends(sa, ha, dir, mid, generator.labels);
      RoundWithin(sa, ha, dir, generator.labels);
      RoundWithin(sb, nb.Snapshot(), dir, generator.labels);
    }

    /** `calculate`: both directions. */
    method Calculate(a: KernelGraph, b: KernelGraph)
      returns (score: real, ghost ra: seq<Graph>, ghost rb: seq<Graph>)
      requires a.Valid() && b.Valid() && generator.Valid()
      modifies generator
      ensures generator.Valid()
      ensures |ra| == depth && |rb| == depth && ra[0] == a.Snapshot() && rb[0] == b.Snapshot()
      ensures forall i :: 0 <= i < depth - 1 ==>
        Round(ra[i], ra[i + 1], Both, generator.labels) && Round(rb[i], rb[i + 1], Both, generator.labels)
      ensures AllWellFormed(ra) && AllWellFormed(rb)
      ensures score == Total(kernel, ra, rb) / depth as real
    {
      score, ra, rb := DoCalculate(a, b, Both);
    }

    /** `calculate_forwards`: towards the children. */
    method CalculateForwards(a: KernelGraph, b: KernelGraph)
      returns (score: real, ghost ra: seq<Graph>, ghost rb: seq<Graph>)
      requires a.Valid() && b.Valid() && generator.Valid()
      modifies generator
      ensures generator.Valid()
      ensures |ra| == depth && |rb| == depth && ra[0] == a.Snapshot() && rb[0] == b.Snapshot()
      ensures forall i :: 0 <= i < depth - 1 ==>
        Round(ra[i], ra[i + 1], Down, generator.labels) && Round(rb[i], rb[i + 1], Down, generator.labels)
      ensures AllWellFormed(ra) && AllWellFormed(rb)
      ensures score == Total(kernel, ra, rb) / depth as real
    {
      score, ra, rb := DoCalculate(a, b, Down);
    }

    /** `calculate_backwards`: towards the parents. */
    method CalculateBackwards(a: KernelGraph, b: KernelGraph)
      returns (score: real, ghost ra: seq<Graph>, ghost rb: seq<Graph>)
      requires a.Valid() && b.Valid() && generator.Valid()
      modifies generator
      ensures generator.Valid()
      ensures |ra| == depth && |rb| == depth && ra[0] == a.Snapshot() && rb[0] == b.Snapshot()
      ensures forall i :: 0 <= i < depth - 1 ==>
        Round(ra[i], ra[i + 1], Up, generator.labels) && Round(rb[i], rb[i + 1], Up, generator.labels)
      ensures AllWellFormed(ra) && AllWellFormed(rb)
      ensures score == Total(kernel, ra, rb) / depth as real
    {
      score, ra, rb := DoCalculate(a, b, Up);
    }

    /** `calculate_node_stability(a, b, direction)`: for every node of `a`
        (and of `b`) the labels it had in each round it was present in, and
        the sum of what it earned in those rounds. */
    method NodeStability(a: KernelGraph, b: KernelGraph, dir: Direction)
      returns (labelsA: map<string, seq<string>>, scoresA: map<string, real>,
               labelsB: map<string, seq<string>>, scoresB: map<string, real>)
      requires a.Valid() && b.Valid() && generator.Valid()
      modifies generator
      ensures generator.Valid()
      ensures Stable(a.nodes, labelsA, scoresA, depth, dir) && Stable(b.nodes, labelsB, scoresB, depth, dir)
    {
      labelsA, scoresA := Blank(a);
      labelsB, scoresB := Blank(b);
      ghost var an, bn := a.nodes, b.nodes;
      var ga, gb := a, b;
      for i := 0 to depth
        invariant ga.Valid() && gb.Valid() && generator.Valid()
        invariant i == 0 ==> ga.nodes == an && gb.nodes == bn
        invariant Within(ga.nodes, an, dir) && Within(gb.nodes, bn, dir)
        invariant Stable(an, labelsA, scoresA, i, dir) && Stable(bn, labelsB, scoresB, i, dir)
      {
        ga, gb, labelsA, scoresA, labelsB, scoresB :=
          StabilityRound(an, bn, ga, gb, labelsA, scoresA, labelsB, scoresB, i, dir);
      }
    }

    /** One pass of `calculate_node_stability`'s loop: score both graphs'
        nodes, then relabel both graphs. */
    method StabilityRound(ghost an: map<string, KernelNode>, ghost bn: map<string, KernelNode>,
                          a: KernelGraph, b: KernelGraph,
                          labelsA: map<string, seq<string>>, scoresA: map<string, real>,
                          labelsB: map<string, seq<string>>, scoresB: map<string, real>,
                          ghost rounds: nat, dir: Direction)
      returns (na: KernelGraph, nb: KernelGraph,
               la: map<string, seq<string>>, sa: map<string, real>,
               lb: map<string, seq<string>>, sb: map<string, real>)
      requires a.Valid() && b.Valid() && generator.Valid()
      requires rounds == 0 ==> a.nodes == an && b.nodes == bn
      requires Within(a.nodes, an, dir) && Within(b.nodes, bn, dir)
      requires Stable(an, labelsA, scoresA, rounds, dir) && Stable(bn, labelsB, scoresB, rounds, dir)
      modifies generator
      ensures na.Valid() && nb.Valid() && generator.Valid()
      ensures Within(na.nodes, an, dir) && Within(nb.nodes, bn, dir)
      ensures Stable(an, la, sa, rounds + 1, dir) && Stable(bn, lb, sb, rounds + 1, dir)
    {
      la, sa := ScoreRound(an, a, b, labelsA, scoresA, rounds, dir);
      lb, sb := ScoreRound(bn, b, a, labelsB, scoresB, rounds, dir);
      ghost var ka, kb := a.nodes, b.nodes;
      na, nb := RelabelBoth(a.Snapshot(), b.Snapshot(), a, b, dir);
      WithinTransitive(na.nodes, ka, an, dir);
      WithinTransitive(nb.nodes, kb, bn, dir);
    }
  }

  /** One round of `calculate_node_stability` for one graph. */
  method AddRound(g: KernelGraph, other: KernelGraph, labels: map<string, seq<string>>, scores: map<string, real>)
    returns (l1: map<string, seq<string>>, s1: map<string, real>)
    requires g.Valid() && other.Valid()
    requires g.nodes.Keys <= labels.Keys && labels.Keys == scores.Keys
    ensures RoundCredited(g.nodes, other.nodes, labels, scores, l1, s1)
  {
    var lbls := g.Labels();
    l1, s1 := labels, scores;
    for j := 0 to |lbls|
      invariant l1.Keys == labels.Keys && s1.Keys == scores.Keys
      invariant forall id :: id in labels ==>
        if id in g.nodes && g.nodes[id].lbl in lbls[..j] then
          Credited(labels, scores, l1, s1, id, g.nodes[id].lbl, Earned(g.nodes, other.nodes, id))
        else Unchanged(labels, scores, l1, s1, id)
    {
      var lbl := lbls[j];
      var mine := g.LabelCount(lbl);
      var theirs := other.LabelCount(lbl);
      var ids := g.NodeIdsForLabel(lbl);
      ghost var l0, s0 := l1, s1;
      l1, s1 := Credit(l1, s1, ids, lbl, Contribution(mine, theirs));
      DistinctAt(lbls, j);
      CreditStep(g.nodes, other.nodes, labels, scores, l0, s0, l1, s1, lbls, j, ids);
    }
    assert lbls[..|lbls|] == lbls;
    forall id | id in g.nodes
      ensures g.nodes[id].lbl in lbls
    {
    }
  }

  /** `calculate_node_stability`'s round for one graph: credits the
      current graph's nodes and keeps the results stable. */
  method ScoreRound(ghost nodes: map<string, KernelNode>, g: KernelGraph, other: KernelGraph,
                    labels: map<string, seq<string>>, scores: map<string, real>, ghost rounds: nat, dir: Direction)
    returns (l1: map<string, seq<string>>, s1: map<string, real>)
    requires g.Valid() && other.Valid()
    requires Stable(nodes, labels, scores, rounds, dir) && Within(g.nodes, nodes, dir)
    requires rounds == 0 ==> g.nodes == nodes
    ensures Stable(nodes, l1, s1, rounds + 1, dir)
  {
    l1, s1 := AddRound(g, other, labels, scores);
    StableStep(nodes, g.nodes, other.nodes, labels, scores, l1, s1, rounds, dir);
  }

  /** The nodes of a later round's graph: some of the first graph's (all of
      them in "both" mode). */
  ghost predicate Within(current: map<string, KernelNode>, nodes: map<string, KernelNode>, dir: Direction)
  {
    current.Keys <= nodes.Keys && (dir == Both ==> current.Keys == nodes.Keys)
  }

  lemma RoundWithin(g: Graph, h: Graph, dir: Direction, labels: map<string, nat>)
    requires Round(g, h, dir, labels)
    ensures Within(h.nodes, g.nodes, dir)
  {
    assert h.nodes.Keys <= g.nodes.Keys;
  }

  lemma WithinTransitive(n1: map<string, KernelNode>, n2: map<string, KernelNode>, n3: map<string, KernelNode>, dir: Direction)
    requires Within(n1, n2, dir) && Within(n2, n3, dir)
    ensures Within(n1, n3, dir)
  {
  }

  /** One more round on each side. */
  lemma RoundsSnoc(ra: seq<Graph>, rb: seq<Graph>, a: Graph, b: Graph, dir: Direction,
                   l1: map<string, nat>, l2: map<string, nat>)
    requires |ra| == |rb| > 0 && Rounds(ra, rb, dir, l1) && Extends(l1, l2)
    requires Round(ra[|ra| - 1], a, dir, l2) && Round(rb[|rb| - 1], b, dir, l2)
    ensures Rounds(ra + [a], rb + [b], dir, l2)
  {
    RoundsExtend(ra, rb, dir, l1, l2);
  }

  lemma TotalSnoc(kernel: (Graph, Graph) -> real, ra: seq<Graph>, rb: seq<Graph>, a: Graph, b: Graph)
    requires |ra| == |rb|
    ensures Total(kernel, ra + [a], rb + [b]) == Total(kernel, ra, rb) + kernel(a, b)
  {
    assert (ra + [a])[..|ra|] == ra && (rb + [b])[..|rb|] == rb;
  }

  /** The node-stability results after `rounds` rounds: an entry for every
      node, at most one label per round (exactly one per round in "both"
      mode) starting with the node's own label, and a score between 0 and
      the number of labels. */
  ghost predicate Stable(nodes: map<string, KernelNode>, labels: map<string, seq<string>>, scores: map<string, real>,
                         rounds: nat, dir: Direction)
  {
    && labels.Keys == nodes.Keys && scores.Keys == nodes.Keys
    && forall id :: id in labels ==>
         && |labels[id]| <= rounds
         && (dir == Both ==> |labels[id]| == rounds)
         && (rounds > 0 ==> |labels[id]| > 0 && labels[id][0] == nodes[id].lbl)
         && 0.0 <= scores[id] <= |labels[id]| as real
  }

  /** The second loop of `relabel`, which only looks up or down, after
      the first loop has given the nodes of `next` their new labels. */
  method Trim(ghost g: Graph, graph: KernelGraph, next: KernelGraph, ids: seq<string>, dir: Direction,
              ghost labels: map<string, nat>)
    requires g == graph.Snapshot() && graph.Valid() && next.Valid() && next != graph
    requires next.nodes.Keys == g.nodes.Keys && Listing(ids, g.nodes.Keys)
    requires next.parents == g.parents && next.children == g.children
    requires forall x {:trigger NewLabel(g, next.Snapshot(), labels, x, dir)} :: x in g.nodes ==> NewLabel(g, next.Snapshot(), labels, x, dir)
    modifies next
    ensures next.Valid() && Round(g, next.Snapshot(), dir, labels)
  {
    ghost var h := next.Snapshot();
    if dir != Both {
      Prune(g, graph, next, ids, dir);
    }
    RoundOf(g, h, next.Snapshot(), labels, dir);
  }

  /** The second loop of `relabel`, looking up or down: a node of `graph`
      without parents, or without children, leaves `next`. */
  method Prune(ghost g: Graph, graph: KernelGraph, next: KernelGraph, ids: seq<string>, dir: Direction)
    requires g == graph.Snapshot() && graph.Valid() && next.Valid() && next != graph
    requires next.nodes.Keys == graph.nodes.Keys && Listing(ids, graph.nodes.Keys)
    requires next.parents == g.parents && next.children == g.children
    modifies next
    ensures next.Valid()
    ensures forall x :: x in next.nodes <==> x in g.nodes && Stays(g, x, dir)
    ensures forall x :: x in next.nodes ==> x in old(next.nodes) && next.nodes[x] == old(next.nodes[x])
    ensures KeptEdges(g, next.Snapshot())
  {
    KeptAll(g);
    for i := 0 to |ids|
      invariant next.Valid()
      invariant forall x :: x in next.nodes <==> x in g.nodes && (x in ids[..i] ==> Stays(g, x, dir))
      invariant forall x :: x in next.nodes ==> x in old(next.nodes) && next.nodes[x] == old(next.nodes[x])
      invariant KeptEdges(g, next.Snapshot())
    {
      ghost var before := next.Snapshot();
      var removed := PruneOne(graph, next, ids[i], dir);
      PruneStep(g, before.nodes, next.nodes, ids, i, dir, removed);
      PrunedEdges(g, before, next.Snapshot(), ids[i], dir, removed);
    }
    assert ids[..|ids|] == ids;
  }

  /** A well-formed graph keeps all its own edges. */
  lemma KeptAll(g: Graph)
    requires WellFormed(g)
    ensures KeptEdges(g, g)
  {
    forall k | k in g.parents
      ensures g.parents[k] * g.nodes.Keys == g.parents[k]
    {
      forall p | p in g.parents[k]
        ensures p in g.nodes
      {
        assert p in g.children;
      }
    }
    forall k | k in g.children
      ensures g.children[k] * g.nodes.Keys == g.children[k]
    {
      forall c | c in g.children[k]
        ensures c in g.nodes
      {
        assert c in g.parents;
      }
    }
    assert Restricted(g.parents, g.nodes.Keys) == g.parents;
    assert Restricted(g.children, g.nodes.Keys) == g.children;
  }

  /** Removing a node the round drops keeps the edges those of `g` among
      the nodes left: the node has no parents (or no children) in `g`, so
      the removal splices no new edge in. */
  lemma RemovedKeepsEdges(g: Graph, h: Graph, x: string, dir: Direction)
    requires Symmetric(g) && KeptEdges(g, h) && !Stays(g, x, dir)
    ensures KeptEdges(g, Removed(h, x))
  {
    if x in h.nodes {
      RemovedKeepsParents(g, h, x, dir);
      RemovedKeepsChildren(g, h, x, dir);
    }
  }

  /** The edge part of the invariant of the second loop of `relabel`, one
      pass on. */
  lemma PrunedEdges(g: Graph, h1: Graph, h2: Graph, x: string, dir: Direction, removed: bool)
    requires WellFormed(g) && KeptEdges(g, h1)
    requires removed <==> !Stays(g, x, dir)
    requires h2 == if removed then Removed(h1, x) else h1
    ensures KeptEdges(g, h2)
  {
    if removed {
      RemovedKeepsEdges(g, h1, x, dir);
    }
  }

  lemma RemovedKeepsParents(g: Graph, h: Graph, x: string, dir: Direction)
    requires Symmetric(g) && KeptEdges(g, h) && !Stays(g, x, dir) && x in h.nodes
    ensures Removed(h, x).parents == Restricted(g.parents, h.nodes.Keys - {x})
  {
    var s := h.nodes.Keys - {x};
    var ps := SetAt(h.parents, x) - {x};
    var cs := SetAt(h.children, x) - {x};
    var m := Spliced(h.parents, x, cs, ps) - {x};
    forall k | k in m
      ensures m[k] == g.parents[k] * s
    {
      assert x in g.parents[k] ==> k in g.children[x];
    }
    assert m == Restricted(g.parents, s);
  }

  lemma RemovedKeepsChildren(g: Graph, h: Graph, x: string, dir: Direction)
    requires Symmetric(g) && KeptEdges(g, h) && !Stays(g, x, dir) && x in h.nodes
    ensures Removed(h, x).children == Restricted(g.children, h.nodes.Keys - {x})
  {
    var s := h.nodes.Keys - {x};
    var ps := SetAt(h.parents, x) - {x};
    var cs := SetAt(h.children, x) - {x};
    var m := Spliced(h.children, x, ps, cs) - {x};
    forall k | k in m
      ensures m[k] == g.children[k] * s
    {
      assert x in g.children[k] ==> k in g.parents[x];
    }
    assert m == Restricted(g.children, s);
  }

  /** One pass of the second loop of `relabel`: node `x` leaves `next` when
      `graph` gives it no parents, or no children, whichever `dir` looks
      at. */
  method PruneOne(graph: KernelGraph, next: KernelGraph, x: string, dir: Direction) returns (removed: bool)
    requires next.Valid() && next != graph
    modifies next
    ensures next.Valid()
    ensures removed <==> !Stays(graph.Snapshot(), x, dir)
    ensures next.nodes == if removed then old(next.nodes) - {x} else old(next.nodes)
    ensures next.Snapshot() == if removed then Removed(old(next.Snapshot()), x) else old(next.Snapshot())
  {
    var neighbours := [];
    if dir == Up {
      neighbours := graph.ParentIds(x);
      ListingEmpty(neighbours, SetAt(graph.parents, x));
    } else if dir == Down {
      neighbours := graph.ChildIds(x);
      ListingEmpty(neighbours, SetAt(graph.children, x));
    }
    removed := dir != Both && |neighbours| == 0;
    if removed {
      ghost var h := next.Snapshot();
      RemovedWellFormed(h, x);
      next.Remove(x);
      assert next.nodes == Removed(h, x).nodes;
      if x !in h.nodes {
        assert h.nodes - {x} == h.nodes;
      }
    }
  }

  lemma ListingEmpty(xs: seq<string>, s: set<string>)
    requires Listing(xs, s)
    ensures |xs| == 0 <==> s == {}
  {
    if |xs| > 0 {
      assert xs[0] in s;
    }
  }

  /** The invariant of the second loop of `relabel`, one pass on. */
  lemma PruneStep(g: Graph, n0: map<string, KernelNode>, n1: map<string, KernelNode>,
                  ids: seq<string>, i: nat, dir: Direction, removed: bool)
    requires i < |ids|
    requires forall x :: x in n0 <==> x in g.nodes && (x in ids[..i] ==> Stays(g, x, dir))
    requires removed <==> !Stays(g, ids[i], dir)
    requires n1 == if removed then n0 - {ids[i]} else n0
    ensures forall x :: x in n1 <==> x in g.nodes && (x in ids[..i + 1] ==> Stays(g, x, dir))
  {
    assert ids[..i + 1] == ids[..i] + [ids[i]];
  }

  /** `get_neighbour_labels`, `get_parent_labels` or `get_child_labels`,
      as `dir` says. */
  method NeighbourLabelsOf(graph: KernelGraph, x: string, dir: Direction) returns (r: seq<string>)
    requires graph.Valid()
    ensures multiset(r) == NeighbourLabels(graph.Snapshot(), x, dir)
  {
    if dir == Both {
      r := graph.NeighbourLabels(x);
      NodesOnly(SetAt(graph.parents, x), graph.nodes.Keys);
      NodesOnly(SetAt(graph.children, x), graph.nodes.Keys);
    } else if dir == Up {
      r := graph.ParentLabels(x);
      NodesOnly(SetAt(graph.parents, x), graph.nodes.Keys);
    } else {
      r := graph.ChildLabels(x);
      NodesOnly(SetAt(graph.children, x), graph.nodes.Keys);
    }
  }

  lemma NodesOnly(s: set<string>, keys: set<string>)
    requires s <= keys
    ensures s * keys == s
  {
  }

  /** `next.relabel(x, text)`, which keeps `next` well formed. */
  method RelabelNode(ghost h: Graph, next: KernelGraph, x: string, text: string)
    requires h == next.Snapshot() && WellFormed(h) && x in h.nodes
    modifies next
    ensures next.Valid() && next.Snapshot() == Relabelled(h, x, text)
  {
    RelabelledWellFormed(h, x, text);
    next.Relabel(x, text);
  }

  /** `labels_a[id] = []; scores_a[id] = 0` for each node id of `g`. */
  method Blank(g: KernelGraph) returns (labels: map<string, seq<string>>, scores: map<string, real>)
    ensures labels.Keys == g.nodes.Keys && scores.Keys == g.nodes.Keys
    ensures forall id :: id in labels ==> labels[id] == [] && scores[id] == 0.0
  {
    var ids := g.NodeIds();
    labels, scores := map[], map[];
    for k := 0 to |ids|
      invariant forall id :: id in labels <==> id in ids[..k]
      invariant labels.Keys == scores.Keys
      invariant forall id :: id in labels ==> labels[id] == [] && scores[id] == 0.0
    {
      labels, scores := labels[ids[k] := []], scores[ids[k] := 0.0];
      assert ids[..k + 1] == ids[..k] + [ids[k]];
    }
    assert ids[..|ids|] == ids;
  }

  /** Relabelling another node and growing the memo keep the new label of
      `x`. */
  lemma NewLabelKept(g: Graph, h1: Graph, l1: map<string, nat>, l2: map<string, nat>,
                     x: string, y: string, l: string, dir: Direction)
    requires NewLabel(g, h1, l1, x, dir) && Extends(l1, l2) && x != y && y in h1.nodes
    ensures NewLabel(g, Relabelled(h1, y, l), l2, x, dir)
  {
    RelabelledOnlyLabel(h1, y, l);
  }

  /** Relabelling a node keeps every node's data. */
  lemma RelabelKeepsData(g: Graph, h: Graph, x: string, l: string)
    requires KeepsData(g, h.nodes) && x in h.nodes
    ensures KeepsData(g, Relabelled(h, x, l).nodes)
  {
    RelabelledOnlyLabel(h, x, l);
  }

  /** The invariant of the first loop of `relabel`, one pass on. */
  lemma RelabelStep(g: Graph, h1: Graph, h2: Graph, l1: map<string, nat>, l2: map<string, nat>,
                    ids: seq<string>, i: nat, text: string, dir: Direction)
    requires i < |ids| && ids[i] in h1.nodes && Extends(l1, l2)
    requires forall x {:trigger NewLabel(g, h1, l1, x, dir)} :: x in ids[..i] ==> NewLabel(g, h1, l1, x, dir)
    requires h2 == Relabelled(h1, ids[i], text) && NewLabel(g, h2, l2, ids[i], dir)
    ensures forall x {:trigger NewLabel(g, h2, l2, x, dir)} :: x in ids[..i + 1] ==> NewLabel(g, h2, l2, x, dir)
    ensures h2.nodes.Keys == h1.nodes.Keys && h2.parents == h1.parents && h2.children == h1.children
  {
    RelabelledOnlyLabel(h1, ids[i], text);
    forall x | x in ids[..i + 1]
      ensures NewLabel(g, h2, l2, x, dir)
    {
      if x != ids[i] {
        assert x in ids[..i];
        NewLabelKept(g, h1, l1, l2, x, ids[i], text, dir);
      }
    }
  }

  /** Every recorded graph is well formed. */
  ghost predicate AllWellFormed(rs: seq<Graph>)
  {
    forall i {:trigger WellFormed(rs[i])} :: 0 <= i < |rs| ==> WellFormed(rs[i])
  }

  lemma AllWellFormedSnoc(rs: seq<Graph>, g: Graph)
    requires AllWellFormed(rs) && WellFormed(g)
    ensures AllWellFormed(rs + [g])
  {
    forall i | 0 <= i < |rs| + 1
      ensures WellFormed((rs + [g])[i])
    {
      if i < |rs| {
        assert (rs + [g])[i] == rs[i];
      }
    }
  }

  /** The rounds are fixed by the first pair of graphs and the memo: two
      runs of well-formed rounds from the same graphs are the same runs,
      so they get the same total score. */
  lemma RoundsDetermined(ra: seq<Graph>, rb: seq<Graph>, sa: seq<Graph>, sb: seq<Graph>,
                         dir: Direction, labels: map<string, nat>)
    requires |ra| == |rb| == |sa| == |sb| > 0 && ra[0] == sa[0] && rb[0] == sb[0]
    requires AllWellFormed(ra) && AllWellFormed(rb) && AllWellFormed(sa) && AllWellFormed(sb)
    requires Rounds(ra, rb, dir, labels) && Rounds(sa, sb, dir, labels)
    ensures ra == sa && rb == sb
  {
    forall k | 0 <= k < |ra|
      ensures ra[k] == sa[k] && rb[k] == sb[k]
    {
      RoundsAgree(ra, rb, sa, sb, dir, labels, k);
    }
  }

  lemma {:induction false} RoundsAgree(ra: seq<Graph>, rb: seq<Graph>, sa: seq<Graph>, sb: seq<Graph>,
                                       dir: Direction, labels: map<string, nat>, k: nat)
    requires |ra| == |rb| == |sa| == |sb| > k && ra[0] == sa[0] && rb[0] == sb[0]
    requires AllWellFormed(ra) && AllWellFormed(rb) && AllWellFormed(sa) && AllWellFormed(sb)
    requires Rounds(ra, rb, dir, labels) && Rounds(sa, sb, dir, labels)
    ensures ra[k] == sa[k] && rb[k] == sb[k]
  {
    if k > 0 {
      RoundsAgree(ra, rb, sa, sb, dir, labels, k - 1);
      assert Round(ra[k - 1], ra[k], dir, labels) && Round(sa[k - 1], sa[k], dir, labels);
      assert Round(rb[k - 1], rb[k], dir, labels) && Round(sb[k - 1], sb[k], dir, labels);
      RoundDetermined(ra[k - 1], ra[k], sa[k], dir, labels);
      RoundDetermined(rb[k - 1], rb[k], sb[k], dir, labels);
    }
  }

  /** The rounds recorded so far. */
  ghost predicate Rounds(ra: seq<Graph>, rb: seq<Graph>, dir: Direction, labels: map<string, nat>)
    requires |ra| == |rb|
  {
    forall i :: 0 <= i < |ra| - 1 ==> Round(ra[i], ra[i + 1], dir, labels) && Round(rb[i], rb[i + 1], dir, labels)
  }

  lemma RoundsExtend(ra: seq<Graph>, rb: seq<Graph>, dir: Direction, l1: map<string, nat>, l2: map<string, nat>)
    requires |ra| == |rb| && Rounds(ra, rb, dir, l1) && Extends(l1, l2)
    ensures Rounds(ra, rb, dir, l2)
  {
    forall i | 0 <= i < |ra| - 1
      ensures Round(ra[i], ra[i + 1], dir, l2) && Round(rb[i], rb[i + 1], dir, l2)
    {
      RoundExtends(ra[i], ra[i + 1], dir, l1, l2);
      RoundExtends(rb[i], rb[i + 1], dir, l1, l2);
    }
  }

  /** Crediting the nodes under one more label extends the invariant of
      `AddRound`'s loop by that label. */
  lemma CreditStep(nodes: map<string, KernelNode>, others: map<string, KernelNode>,
                   labels: map<string, seq<string>>, scores: map<string, real>,
                   l0: map<string, seq<string>>, s0: map<string, real>,
                   l1: map<string, seq<string>>, s1: map<string, real>,
                   lbls: seq<string>, j: nat, ids: seq<string>)
    requires j < |lbls| && lbls[j] !in lbls[..j]
    requires forall x :: x in ids <==> x in Labelled(nodes, lbls[j])
    requires forall id :: id in labels ==>
      if id in nodes && nodes[id].lbl in lbls[..j] then
        Credited(labels, scores, l0, s0, id, nodes[id].lbl, Earned(nodes, others, id))
      else Unchanged(labels, scores, l0, s0, id)
    requires l1.Keys == l0.Keys && s1.Keys == s0.Keys
    requires forall id :: id in ids ==>
      Credited(l0, s0, l1, s1, id, lbls[j],
               Contribution(|Labelled(nodes, lbls[j])|, |Labelled(others, lbls[j])|))
    requires forall id :: id in l0 && id in s0 && id !in ids ==> Unchanged(l0, s0, l1, s1, id)
    ensures forall id :: id in labels ==>
      if id in nodes && nodes[id].lbl in lbls[..j + 1] then
        Credited(labels, scores, l1, s1, id, nodes[id].lbl, Earned(nodes, others, id))
      else Unchanged(labels, scores, l1, s1, id)
  {
    assert lbls[..j + 1] == lbls[..j] + [lbls[j]];
    forall id | id in labels
      ensures if id in nodes && nodes[id].lbl in lbls[..j + 1] then
        Credited(labels, scores, l1, s1, id, nodes[id].lbl, Earned(nodes, others, id))
      else Unchanged(labels, scores, l1, s1, id)
    {
      if id in nodes && nodes[id].lbl == lbls[j] {
        assert id in ids;
      }
    }
  }

  /** One round keeps the node-stability results stable. */
  lemma StableStep(nodes: map<string, KernelNode>, current: map<string, KernelNode>, others: map<string, KernelNode>,
                   l0: map<string, seq<string>>, s0: map<string, real>,
                   l1: map<string, seq<string>>, s1: map<string, real>, rounds: nat, dir: Direction)
    requires Stable(nodes, l0, s0, rounds, dir) && Within(current, nodes, dir)
    requires rounds == 0 ==> current == nodes
    requires RoundCredited(current, others, l0, s0, l1, s1)
    ensures Stable(nodes, l1, s1, rounds + 1, dir)
  {
    forall id | id in l1
      ensures |l1[id]| <= rounds + 1 && 0.0 <= s1[id] <= |l1[id]| as real
      ensures dir == Both ==> |l1[id]| == rounds + 1
      ensures |l1[id]| > 0 && l1[id][0] == nodes[id].lbl
    {
      if id in current {
        var e := Earned(current, others, id);
        assert e <= 1.0;
        assert l1[id] == l0[id] + [current[id].lbl];
      }
    }
  }
}
