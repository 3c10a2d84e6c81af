/** The X-Trace web UI's kernel graph: a trace as a directed graph whose
    nodes carry a label, kept with four indexes that the graph updates in
    place (nodes by id, the parent ids and child ids of each node, and the
    node ids under each label). Removing a node links each of its parents to
    each of its children.

    JavaScript objects used as sets are `set<string>`; the order in which the
    source's `for ... in` loops and `Object.keys` visit them is left open
    (a listing of a set is any duplicate-free sequence of its elements). */
module KernelGraphs {

  /** A report's fields, each a list of values. */
  type Data = map<string, seq<string>>

  datatype KernelNode = KernelNode(id: string, lbl: string, data: Data)

  /** `field_equals`: whether the field `name` holds `val`. */
  method FieldEquals(node: KernelNode, name: string, val: string) returns (r: bool)
    ensures r <==> name in node.data && val in node.data[name]
  {
    if name in node.data {
      var values := node.data[name];
      var i := 0;
      while i < |values|
        invariant 0 <= i <= |values|
        invariant val !in values[..i]
      {
        if values[i] == val {
          return true;
        }
        i := i + 1;
      }
      assert values[..i] == values;
    }
    return false;
  }

  /** `field_one_of`: whether the field `name` holds one of `values`. */
  method FieldOneOf(node: KernelNode, name: string, values: seq<string>) returns (r: bool)
    ensures r <==> name in node.data && exists v :: v in values && v in node.data[name]
  {
    var i := 0;
    while i < |values|
      invariant 0 <= i <= |values|
      invariant forall v :: v in values[..i] ==> !(name in node.data && v in node.data[name])
    {
      var found := FieldEquals(node, name, values[i]);
      if found {
        return true;
      }
      i := i + 1;
    }
    assert values[..i] == values;
    return false;
  }

  /** Where the operation id starts in an X-Trace metadata string. */
  const OP_ID_OFFSET: nat := 18

  predicate HasXTrace(data: Data)
  {
    "X-Trace" in data && |data["X-Trace"]| > 0
  }

  /** `KernelNode.fromJSON`: the node of a report, identified by the part of
      its first X-Trace value after the task id (JavaScript's `substr` gives
      the empty string past the end). The label is the report's hash, which
      is computed outside this model. */
  function NodeOfReport(data: Data, hash: string): (r: KernelNode)
    requires HasXTrace(data)
    ensures r.data == data && r.lbl == hash
    ensures var x := data["X-Trace"][0];
      if |x| >= OP_ID_OFFSET then x == x[..OP_ID_OFFSET] + r.id else r.id == ""
  {
    var x := data["X-Trace"][0];
    KernelNode(if |x| >= OP_ID_OFFSET then x[OP_ID_OFFSET..] else "", hash, data)
  }

  // ---------------------------------------------------------------------
  // The graph's state as a value
  // ---------------------------------------------------------------------

  datatype Graph = Graph(nodes: map<string, KernelNode>, parents: map<string, set<string>>,
                         children: map<string, set<string>>, labels: map<string, set<string>>)

  /** The set under `k`, or the empty set (a missing JavaScript key). */
  function SetAt(m: map<string, set<string>>, k: string): set<string>
  {
    if k in m then m[k] else {}
  }

  /** Every node is stored under its own id. */
  ghost predicate IdKeyed(nodes: map<string, KernelNode>)
  {
    forall i :: i in nodes ==> nodes[i].id == i
  }

  /** Every node has its adjacency entries and is stored under its id. */
  ghost predicate Keyed(g: Graph)
  {
    && g.parents.Keys == g.nodes.Keys
    && g.children.Keys == g.nodes.Keys
    && IdKeyed(g.nodes)
  }

  /** `p` is a parent of `c` exactly when `c` is a child of `p`. */
  ghost predicate Symmetric(g: Graph)
  {
    && (forall c, p :: c in g.parents && p in g.parents[c] ==> p in g.children && c in g.children[p])
    && (forall p, c :: p in g.children && c in g.children[p] ==> c in g.parents && p in g.parents[c])
  }

  /** The label index lists each node under its label and nothing else, and
      keeps no empty bucket. */
  ghost predicate Indexed(nodes: map<string, KernelNode>, labels: map<string, set<string>>)
  {
    BucketsHoldNodes(nodes, labels) && NodesFiled(nodes, labels)
  }

  /** Every bucket is non-empty and holds only nodes with its label. */
  ghost predicate BucketsHoldNodes(nodes: map<string, KernelNode>, labels: map<string, set<string>>)
  {
    && (forall l :: l in labels ==> labels[l] != {})
    && (forall l, i :: l in labels && i in labels[l] ==> i in nodes && nodes[i].lbl == l)
  }

  /** Every node is in the bucket of its label. */
  ghost predicate NodesFiled(nodes: map<string, KernelNode>, labels: map<string, set<string>>)
  {
    forall i :: i in nodes ==> nodes[i].lbl in labels && i in labels[nodes[i].lbl]
  }

  ghost predicate WellFormed(g: Graph)
  {
    Keyed(g) && Symmetric(g) && Indexed(g.nodes, g.labels)
  }

  ghost predicate NoEdges(g: Graph)
  {
    && (forall k :: k in g.parents ==> g.parents[k] == {})
    && (forall k :: k in g.children ==> g.children[k] == {})
  }

  lemma NoEdgesSymmetric(g: Graph)
    requires NoEdges(g)
    ensures Symmetric(g)
  {
  }

  /** In a well-formed graph the parents and the children of a node are
      nodes. */
  lemma AdjacentAreNodes(g: Graph, n: string)
    requires Keyed(g) && Symmetric(g)
    ensures SetAt(g.parents, n) <= g.nodes.Keys && SetAt(g.children, n) <= g.nodes.Keys
    ensures n in g.parents ==> g.parents[n] <= g.children.Keys
    ensures n in g.children ==> g.children[n] <= g.parents.Keys
  {
  }

  /** The nodes whose label is `l`. */
  ghost function Labelled(nodes: map<string, KernelNode>, l: string): set<string>
  {
    set i | i in nodes && nodes[i].lbl == l
  }

  /** The label index is determined by the nodes. */
  lemma IndexUnique(nodes: map<string, KernelNode>, a: map<string, set<string>>, b: map<string, set<string>>)
    requires Indexed(nodes, a) && Indexed(nodes, b)
    ensures a == b
  {
    forall l | l in a
      ensures l in b && a[l] == b[l]
    {
      var i :| i in a[l];
      assert nodes[i].lbl == l;
      SameBucket(nodes, a, b, l);
    }
    forall l | l in b
      ensures l in a
    {
      var i :| i in b[l];
      assert nodes[i].lbl == l;
    }
  }

  lemma SameBucket(nodes: map<string, KernelNode>, a: map<string, set<string>>, b: map<string, set<string>>, l: string)
    requires Indexed(nodes, a) && Indexed(nodes, b) && l in a && l in b
    ensures a[l] == b[l]
  {
    forall x | x in a[l]
      ensures x in b[l]
    {
      assert nodes[x].lbl == l;
    }
    forall x | x in b[l]
      ensures x in a[l]
    {
      assert nodes[x].lbl == l;
    }
  }

  /** `get_label_count`: the bucket of a label holds exactly the nodes with
      that label, and an unknown label has none. */
  lemma BucketIsLabelled(nodes: map<string, KernelNode>, labels: map<string, set<string>>, l: string)
    requires Indexed(nodes, labels)
    ensures SetAt(labels, l) == Labelled(nodes, l)
    ensures l !in labels ==> Labelled(nodes, l) == {}
  {
    if l !in labels {
      forall i | i in nodes
        ensures nodes[i].lbl != l
      {
      }
    }
  }

  // ---------------------------------------------------------------------
  // Sequences without repetition
  // ---------------------------------------------------------------------

  predicate Distinct(xs: seq<string>)
  {
    forall i, j :: 0 <= i < j < |xs| ==> xs[i] != xs[j]
  }

  /** A duplicate-free sequence of the elements of `s`. */
  ghost predicate Listing(xs: seq<string>, s: set<string>)
  {
    Distinct(xs) && forall x :: x in xs <==> x in s
  }

  lemma DistinctSnoc(xs: seq<string>, x: string)
    requires Distinct(xs) && x !in xs
    ensures Distinct(xs + [x])
  {
  }

  lemma DistinctLast(xs: seq<string>)
    requires Distinct(xs) && xs != []
    ensures Distinct(xs[..|xs| - 1]) && xs[|xs| - 1] !in xs[..|xs| - 1]
  {
    var init := xs[..|xs| - 1];
    forall i | 0 <= i < |init|
      ensures init[i] != xs[|xs| - 1]
    {
      assert init[i] == xs[i];
    }
  }

  // ---------------------------------------------------------------------
  // Building
  // ---------------------------------------------------------------------

  /** The label index with `i` filed under `l`. */
  function Filed(labels: map<string, set<string>>, l: string, i: string): map<string, set<string>>
  {
    labels[l := SetAt(labels, l) + {i}]
  }

  /** The label index with `i` taken out of the bucket `l`, and the bucket
      dropped when that leaves it empty. */
  function Unindexed(labels: map<string, set<string>>, l: string, i: string): map<string, set<string>>
  {
    var rest := SetAt(labels, l) - {i};
    if rest == {} then labels - {l} else labels[l := rest]
  }

  /** One step of the constructor's loop. */
  function Add(g: Graph, node: KernelNode): Graph
  {
    Graph(g.nodes[node.id := node], g.parents[node.id := {}], g.children[node.id := {}],
          Filed(g.labels, node.lbl, node.id))
  }

  /** The graph the constructor builds from a node list. */
  function Built(nodelist: seq<KernelNode>): Graph
  {
    if nodelist == [] then Graph(map[], map[], map[], map[])
    else Add(Built(nodelist[..|nodelist| - 1]), nodelist[|nodelist| - 1])
  }

  /** The ids of the listed nodes. */
  function Ids(nodelist: seq<KernelNode>): set<string>
  {
    if nodelist == [] then {} else Ids(nodelist[..|nodelist| - 1]) + {nodelist[|nodelist| - 1].id}
  }

  /** No id is listed twice. */
  predicate DistinctIds(nodelist: seq<KernelNode>)
  {
    nodelist == [] ||
    (DistinctIds(nodelist[..|nodelist| - 1]) && nodelist[|nodelist| - 1].id !in Ids(nodelist[..|nodelist| - 1]))
  }

  lemma AddKeyed(g: Graph, node: KernelNode)
    requires Keyed(g)
    ensures Keyed(Add(g, node))
  {
  }

  lemma AddNoEdges(g: Graph, node: KernelNode)
    requires NoEdges(g)
    ensures NoEdges(Add(g, node))
  {
  }

  lemma AddIndexed(g: Graph, node: KernelNode)
    requires Indexed(g.nodes, g.labels) && node.id !in g.nodes
    ensures Indexed(Add(g, node).nodes, Add(g, node).labels)
  {
    var h := Add(g, node);
    forall l, i | l in h.labels && i in h.labels[l]
      ensures i in h.nodes && h.nodes[i].lbl == l
    {
      if i != node.id {
        assert i in g.labels[l];
      }
    }
  }

  /** The constructor stores each node under its id, with adjacency
      entries for exactly the listed ids. */
  lemma {:induction false} BuiltKeyed(nodelist: seq<KernelNode>)
    ensures Keyed(Built(nodelist)) && Built(nodelist).nodes.Keys == Ids(nodelist)
  {
    if nodelist != [] {
      BuiltKeyed(nodelist[..|nodelist| - 1]);
      AddKeyed(Built(nodelist[..|nodelist| - 1]), nodelist[|nodelist| - 1]);
    }
  }

  /** The constructor adds no edge. */
  lemma {:induction false} BuiltNoEdges(nodelist: seq<KernelNode>)
    ensures NoEdges(Built(nodelist))
  {
    if nodelist != [] {
      BuiltNoEdges(nodelist[..|nodelist| - 1]);
      AddNoEdges(Built(nodelist[..|nodelist| - 1]), nodelist[|nodelist| - 1]);
    }
  }

  /** From a list of distinct ids the constructor builds a correct label
      index. */
  lemma {:induction false} BuiltIndexed(nodelist: seq<KernelNode>)
    requires DistinctIds(nodelist)
    ensures Indexed(Built(nodelist).nodes, Built(nodelist).labels)
  {
    if nodelist != [] {
      var init := nodelist[..|nodelist| - 1];
      BuiltIndexed(init);
      BuiltKeyed(init);
      AddIndexed(Built(init), nodelist[|nodelist| - 1]);
    }
  }

  /** Every node of the built graph is one of the listed nodes. */
  lemma {:induction false} BuiltFromList(nodelist: seq<KernelNode>)
    ensures forall x :: x in Built(nodelist).nodes ==> Built(nodelist).nodes[x] in nodelist
  {
    if nodelist != [] {
      var init := nodelist[..|nodelist| - 1];
      BuiltFromList(init);
      assert nodelist == init + [nodelist[|nodelist| - 1]];
    }
  }

  /** From a list of distinct ids the constructor builds a well-formed graph
      without edges. */
  lemma BuiltWellFormed(nodelist: seq<KernelNode>)
    requires DistinctIds(nodelist)
    ensures WellFormed(Built(nodelist)) && NoEdges(Built(nodelist))
  {
    BuiltKeyed(nodelist);
    BuiltNoEdges(nodelist);
    NoEdgesSymmetric(Built(nodelist));
    BuiltIndexed(nodelist);
  }

  // ---------------------------------------------------------------------
  // Linking
  // ---------------------------------------------------------------------

  /** What `link(p, c)` needs: when both are nodes, their adjacency sets
      exist. */
  predicate CanLink(g: Graph, p: string, c: string)
  {
    p in g.nodes && c in g.nodes ==> c in g.parents && p in g.children
  }

  /** `link(p, c)`: an edge from `p` to `c` when both are nodes. */
  function Linked(g: Graph, p: string, c: string): Graph
    requires CanLink(g, p, c)
  {
    if p in g.nodes && c in g.nodes then
      g.(parents := g.parents[c := g.parents[c] + {p}], children := g.children[p := g.children[p] + {c}])
    else g
  }

  lemma LinkedSymmetric(g: Graph, p: string, c: string)
    requires Symmetric(g) && CanLink(g, p, c)
    ensures Symmetric(Linked(g, p, c))
  {
  }

  /** Linking keeps the graph well formed. */
  lemma LinkedWellFormed(g: Graph, p: string, c: string)
    requires WellFormed(g)
    ensures CanLink(g, p, c) && WellFormed(Linked(g, p, c))
  {
    LinkedSymmetric(g, p, c);
  }

  /** Linking adds the edge in both directions when both ends are nodes,
      and changes neither the nodes nor the labels. */
  lemma LinkedAdds(g: Graph, p: string, c: string)
    requires CanLink(g, p, c)
    ensures p in g.nodes && c in g.nodes ==>
      p in Linked(g, p, c).parents[c] && c in Linked(g, p, c).children[p]
    ensures Linked(g, p, c).nodes == g.nodes && Linked(g, p, c).labels == g.labels
    ensures p !in g.nodes || c !in g.nodes ==> Linked(g, p, c) == g
  {
  }

  // ---------------------------------------------------------------------
  // Removing
  // ---------------------------------------------------------------------

  /** Each set under a key in `at` loses `n` and gains `add`. */
  function Spliced(m: map<string, set<string>>, n: string, at: set<string>, add: set<string>): map<string, set<string>>
  {
    map k | k in m :: if k in at then (m[k] - {n}) + add else m[k]
  }

  /** `remove(n)`: every parent of `n` becomes a parent of every child of
      `n`, and `n` leaves the nodes, the adjacency sets and its label's
      bucket. `n` itself is neither a parent nor a child it links (see the
      self-edge note under `RemoveAsWritten`). */
  function Removed(g: Graph, n: string): Graph
  {
    if n !in g.nodes then g
    else
      var ps := SetAt(g.parents, n) - {n};
      var cs := SetAt(g.children, n) - {n};
      Graph(g.nodes - {n},
            Spliced(g.parents, n, cs, ps) - {n},
            Spliced(g.children, n, ps, cs) - {n},
            Unindexed(g.labels, g.nodes[n].lbl, n))
  }

  /** The adjacency sets of `Removed(g, n)`, one key at a time. */
  lemma RemovedAt(g: Graph, n: string, k: string)
    requires n in g.nodes && n in g.parents && n in g.children
    ensures var h := Removed(g, n);
      var ps := g.parents[n] - {n};
      var cs := g.children[n] - {n};
      && (k in h.parents <==> k in g.parents && k != n)
      && (k in h.children <==> k in g.children && k != n)
      && (k in h.parents ==> h.parents[k] == if k in cs then (g.parents[k] - {n}) + ps else g.parents[k])
      && (k in h.children ==> h.children[k] == if k in ps then (g.children[k] - {n}) + cs else g.children[k])
  {
  }

  lemma RemovedKeyed(g: Graph, n: string)
    requires Keyed(g)
    ensures Keyed(Removed(g, n))
  {
  }

  lemma RemovedSymmetric(g: Graph, n: string)
    requires Symmetric(g) && n in g.nodes && n in g.parents && n in g.children
    ensures Symmetric(Removed(g, n))
  {
    RemovedParentsLinked(g, n);
    RemovedChildrenLinked(g, n);
  }

  lemma RemovedParentsLinked(g: Graph, n: string)
    requires Symmetric(g) && n in g.nodes && n in g.parents && n in g.children
    ensures var h := Removed(g, n);
      forall c, p :: c in h.parents && p in h.parents[c] ==> p in h.children && c in h.children[p]
  {
    var h := Removed(g, n);
    forall c, p | c in h.parents && p in h.parents[c]
      ensures p in h.children && c in h.children[p]
    {
      RemovedParentEdge(g, n, c, p);
    }
  }

  lemma RemovedChildrenLinked(g: Graph, n: string)
    requires Symmetric(g) && n in g.nodes && n in g.parents && n in g.children
    ensures var h := Removed(g, n);
      forall p, c :: p in h.children && c in h.children[p] ==> c in h.parents && p in h.parents[c]
  {
    var h := Removed(g, n);
    forall p, c | p in h.children && c in h.children[p]
      ensures c in h.parents && p in h.parents[c]
    {
      RemovedChildEdge(g, n, p, c);
    }
  }

  lemma RemovedParentEdge(g: Graph, n: string, c: string, p: string)
    requires Symmetric(g) && n in g.nodes && n in g.parents && n in g.children
    requires c in Removed(g, n).parents && p in Removed(g, n).parents[c]
    ensures p in Removed(g, n).children && c in Removed(g, n).children[p]
  {
    RemovedAt(g, n, c);
    RemovedAt(g, n, p);
    if p !in g.parents[n] || c !in g.children[n] {
      assert p in g.parents[c];
    }
  }

  lemma RemovedChildEdge(g: Graph, n: string, p: string, c: string)
    requires Symmetric(g) && n in g.nodes && n in g.parents && n in g.children
    requires p in Removed(g, n).children && c in Removed(g, n).children[p]
    ensures c in Removed(g, n).parents && p in Removed(g, n).parents[c]
  {
    RemovedAt(g, n, c);
    RemovedAt(g, n, p);
    if p !in g.parents[n] || c !in g.children[n] {
      assert c in g.children[p];
    }
  }

  lemma RemovedBucketsHoldNodes(g: Graph, n: string)
    requires Indexed(g.nodes, g.labels) && n in g.nodes
    ensures BucketsHoldNodes(Removed(g, n).nodes, Removed(g, n).labels)
  {
    var h := Removed(g, n);
    forall k, i | k in h.labels && i in h.labels[k]
      ensures i in h.nodes && h.nodes[i].lbl == k
    {
      assert i in g.labels[k] && i != n;
    }
  }

  lemma RemovedNodesFiled(g: Graph, n: string)
    requires Indexed(g.nodes, g.labels) && n in g.nodes
    ensures NodesFiled(Removed(g, n).nodes, Removed(g, n).labels)
  {
    var h := Removed(g, n);
    var l := g.nodes[n].lbl;
    forall i | i in h.nodes
      ensures h.nodes[i].lbl in h.labels && i in h.labels[h.nodes[i].lbl]
    {
      if g.nodes[i].lbl == l {
        assert i in g.labels[l] - {n};
      }
    }
  }

  /** Removing keeps the graph well formed. */
  lemma RemovedWellFormed(g: Graph, n: string)
    requires WellFormed(g)
    ensures WellFormed(Removed(g, n))
  {
    if n in g.nodes {
      RemovedKeyed(g, n);
      RemovedSymmetric(g, n);
      RemovedBucketsHoldNodes(g, n);
      RemovedNodesFiled(g, n);
    }
  }

  /** After `remove(n)` every former parent of `n` is a parent of every
      former child of `n`. */
  lemma RemovedBridges(g: Graph, n: string, p: string, c: string)
    requires n in g.nodes && n in g.parents && n in g.children
    requires p in g.parents[n] && c in g.children[n] && p != n && c != n
    requires c in g.parents && p in g.children
    ensures c in Removed(g, n).parents && p in Removed(g, n).parents[c]
    ensures p in Removed(g, n).children && c in Removed(g, n).children[p]
  {
    RemovedAt(g, n, c);
    RemovedAt(g, n, p);
  }

  /** After `remove(n)`, `n` is a node no more and in no adjacency set. */
  lemma RemovedForgets(g: Graph, n: string)
    requires Symmetric(g) && n in g.nodes && n in g.parents && n in g.children
    ensures var h := Removed(g, n);
      && h.nodes == g.nodes - {n}
      && (forall k :: k in h.parents ==> n !in h.parents[k])
      && (forall k :: k in h.children ==> n !in h.children[k])
  {
    var h := Removed(g, n);
    forall k | k in h.parents
      ensures n !in h.parents[k]
    {
      RemovedAt(g, n, k);
      if n in g.parents[k] {
        assert k in g.children[n];
      }
    }
    forall k | k in h.children
      ensures n !in h.children[k]
    {
      RemovedAt(g, n, k);
      if n in g.children[k] {
        assert k in g.parents[n];
      }
    }
  }

  /** After `remove(n)`, `n` is in no label bucket, and its label's bucket is
      gone exactly when `n` was its only node. */
  lemma RemovedUnlabels(g: Graph, n: string)
    requires Indexed(g.nodes, g.labels) && n in g.nodes
    ensures var h := Removed(g, n);
      && (forall l :: l in h.labels ==> n !in h.labels[l])
      && (g.labels[g.nodes[n].lbl] == {n} <==> g.nodes[n].lbl !in h.labels)
  {
  }

  /** Edges between other nodes survive a removal. */
  lemma RemovedKeeps(g: Graph, n: string, p: string, c: string)
    requires n in g.nodes && n in g.parents && n in g.children
    requires c in g.parents && p in g.parents[c] && p != n && c != n
    ensures c in Removed(g, n).parents && p in Removed(g, n).parents[c]
  {
    RemovedAt(g, n, c);
  }

  /** One pass of the source's removal loop for key `k`: the set under `k`
      loses `n` and gains the set under `n`, read afresh because the source
      holds it by reference; when `k` is `n` itself that is the set it has
      just changed. */
  function Pass(m: map<string, set<string>>, n: string, k: string): map<string, set<string>>
  {
    if k !in m then m
    else
      var after := m[k] - {n};
      m[k := after + (if k == n then after else SetAt(m, n))]
  }

  function Passes(m: map<string, set<string>>, n: string, ks: seq<string>): map<string, set<string>>
  {
    if ks == [] then m else Pass(Passes(m, n, ks[..|ks| - 1]), n, ks[|ks| - 1])
  }

  /** `remove(n)` as the source writes it, visiting the parents of `n` in the
      order `pOrder` and then the children of `n` in the order `cOrder`. The
      child set it walks is the one the first loop has left. */
  function RemoveAsWritten(g: Graph, n: string, pOrder: seq<string>, cOrder: seq<string>): Graph
    requires n in g.nodes
  {
    var children := Passes(g.children, n, pOrder);
    var parents := Passes(g.parents, n, cOrder);
    Graph(g.nodes - {n}, parents - {n}, children - {n}, Unindexed(g.labels, g.nodes[n].lbl, n))
  }

  /** Nodes `n` and `c` with edges n->n and n->c. */
  function SelfEdgeExample(): Graph
  {
    Graph(map["n" := KernelNode("n", "L", map[]), "c" := KernelNode("c", "L", map[])],
          map["n" := {"n"}, "c" := {"n"}],
          map["n" := {"n", "c"}, "c" := {}],
          map["L" := {"n", "c"}])
  }

  lemma SelfEdgeExampleWellFormed()
    ensures WellFormed(SelfEdgeExample())
  {
    SelfEdgeExampleKeyed();
    SelfEdgeExampleSymmetric();
    SelfEdgeExampleIndexed();
  }

  lemma SelfEdgeExampleKeyed()
    ensures Keyed(SelfEdgeExample())
  {
  }

  lemma SelfEdgeExampleSymmetric()
    ensures Symmetric(SelfEdgeExample())
  {
  }

  lemma SelfEdgeExampleIndexed()
    ensures Indexed(SelfEdgeExample().nodes, SelfEdgeExample().labels)
  {
  }

  /** With a self-edge on the removed node the source leaves a dangling
      parent: after removing `n` from `SelfEdgeExample()` the child `c` still
      lists `n` as a parent, where `Removed` leaves it none. */
  lemma RemoveAsWrittenDangles()
    ensures var g := SelfEdgeExample();
      && Listing(["c"], Passes(g.children, "n", ["n"])["n"])
      && "n" !in RemoveAsWritten(g, "n", ["n"], ["c"]).nodes
      && RemoveAsWritten(g, "n", ["n"], ["c"]).parents["c"] == {"n"}
      && Removed(g, "n").parents["c"] == {}
  {
    var g := SelfEdgeExample();
    assert Passes(g.children, "n", ["n"]) == Pass(g.children, "n", "n");
    assert Passes(g.children, "n", ["n"])["n"] == {"c"};
    assert Passes(g.parents, "n", ["c"]) == Pass(g.parents, "n", "c");
    assert Removed(g, "n").parents["c"] == ({"n"} - {"n"}) + ({"n"} - {"n"});
  }

  /** The elements of a sequence. */
  function Elems(xs: seq<string>): set<string>
  {
    if xs == [] then {} else Elems(xs[..|xs| - 1]) + {xs[|xs| - 1]}
  }

  lemma {:induction false} ElemsMember(xs: seq<string>)
    ensures forall x :: x in Elems(xs) <==> x in xs
  {
    if xs != [] {
      ElemsMember(xs[..|xs| - 1]);
      assert xs == xs[..|xs| - 1] + [xs[|xs| - 1]];
    }
  }

  lemma ElemsSnoc(xs: seq<string>, i: nat)
    requires i < |xs|
    ensures Elems(xs[..i + 1]) == Elems(xs[..i]) + {xs[i]}
  {
    assert xs[..i + 1][..i] == xs[..i];
  }

  lemma ListingElems(xs: seq<string>, s: set<string>)
    requires forall x :: x in xs <==> x in s
    ensures Elems(xs) == s
  {
    ElemsMember(xs);
  }

  /** Passing over keys other than `n` splices the set under `n` in; a key
      passed twice is spliced once, as `n` is not in the set under `n`. */
  lemma {:induction false} PassesSpliced(m: map<string, set<string>>, n: string, ks: seq<string>)
    requires n in m && n !in m[n] && n !in ks
    ensures Passes(m, n, ks) == Spliced(m, n, Elems(ks), m[n])
  {
    if ks != [] {
      var init := ks[..|ks| - 1];
      var k := ks[|ks| - 1];
      assert ks == init + [k];
      PassesSpliced(m, n, init);
      ElemsMember(init);
      var sp := Spliced(m, n, Elems(init), m[n]);
      assert sp[n] == m[n];
      if k in m {
        var after := Spliced(m, n, Elems(init) + {k}, m[n]);
        forall j | j in m
          ensures Pass(sp, n, k)[j] == after[j]
        {
        }
        assert Pass(sp, n, k) == after;
      }
    }
  }

  /** Without a self-edge on `n`, the source's `remove(n)` is `Removed`,
      whatever order its loops visit the parents and the children in. */
  lemma RemoveAsWrittenAgrees(g: Graph, n: string, pOrder: seq<string>, cOrder: seq<string>)
    requires WellFormed(g) && n in g.nodes && n !in g.parents[n]
    requires Listing(pOrder, g.parents[n]) && Listing(cOrder, g.children[n])
    ensures RemoveAsWritten(g, n, pOrder, cOrder) == Removed(g, n)
  {
    assert n !in g.children[n];
    AgreesWithoutSelfEdge(g, n, pOrder, cOrder);
  }

  lemma AgreesWithoutSelfEdge(g: Graph, n: string, pOrder: seq<string>, cOrder: seq<string>)
    requires n in g.nodes && n in g.parents && n in g.children
    requires n !in g.parents[n] && n !in g.children[n]
    requires Listing(pOrder, g.parents[n]) && Listing(cOrder, g.children[n])
    ensures RemoveAsWritten(g, n, pOrder, cOrder) == Removed(g, n)
  {
    ElemsMember(pOrder);
    ElemsMember(cOrder);
    var ps := SetAt(g.parents, n) - {n};
    var cs := SetAt(g.children, n) - {n};
    assert Elems(pOrder) == ps == g.parents[n];
    assert Elems(cOrder) == cs == g.children[n];
    PassesSpliced(g.children, n, pOrder);
    PassesSpliced(g.parents, n, cOrder);
    assert Passes(g.children, n, pOrder) == Spliced(g.children, n, ps, cs);
    assert Passes(g.parents, n, cOrder) == Spliced(g.parents, n, cs, ps);
  }

  // ---------------------------------------------------------------------
  // Relabelling
  // ---------------------------------------------------------------------

  /** `relabel(i, l)`: node `i` moves from its old label's bucket, dropped
      when left empty, to the bucket of `l`. */
  function Relabelled(g: Graph, i: string, l: string): Graph
    requires i in g.nodes
  {
    g.(nodes := g.nodes[i := g.nodes[i].(lbl := l)],
       labels := Filed(Unindexed(g.labels, g.nodes[i].lbl, i), l, i))
  }

  lemma RelabelledBucketsHoldNodes(g: Graph, i: string, l: string)
    requires Indexed(g.nodes, g.labels) && i in g.nodes
    ensures BucketsHoldNodes(Relabelled(g, i, l).nodes, Relabelled(g, i, l).labels)
  {
    var h := Relabelled(g, i, l);
    forall k, j | k in h.labels && j in h.labels[k]
      ensures j in h.nodes && h.nodes[j].lbl == k
    {
      if j != i {
        assert j in g.labels[k];
      }
    }
  }

  lemma RelabelledNodesFiled(g: Graph, i: string, l: string)
    requires Indexed(g.nodes, g.labels) && i in g.nodes
    ensures NodesFiled(Relabelled(g, i, l).nodes, Relabelled(g, i, l).labels)
  {
    var h := Relabelled(g, i, l);
    var old_label := g.nodes[i].lbl;
    forall j | j in h.nodes
      ensures h.nodes[j].lbl in h.labels && j in h.labels[h.nodes[j].lbl]
    {
      if j != i && g.nodes[j].lbl == old_label {
        assert j in g.labels[old_label] - {i};
      }
    }
  }

  /** Relabelling keeps the graph well formed. */
  lemma RelabelledWellFormed(g: Graph, i: string, l: string)
    requires WellFormed(g) && i in g.nodes
    ensures WellFormed(Relabelled(g, i, l))
  {
    RelabelledKeyed(g, i, l);
    RelabelledSymmetric(g, i, l);
    RelabelledBucketsHoldNodes(g, i, l);
    RelabelledNodesFiled(g, i, l);
  }

  lemma RelabelledKeyed(g: Graph, i: string, l: string)
    requires Keyed(g) && i in g.nodes
    ensures Keyed(Relabelled(g, i, l))
  {
  }

  lemma RelabelledSymmetric(g: Graph, i: string, l: string)
    requires Symmetric(g) && i in g.nodes
    ensures Symmetric(Relabelled(g, i, l))
  {
  }

  /** Relabelling keeps the node set and the edges, and changes only the
      label of `i`. */
  lemma RelabelledOnlyLabel(g: Graph, i: string, l: string)
    requires i in g.nodes
    ensures Relabelled(g, i, l).nodes.Keys == g.nodes.Keys
    ensures Relabelled(g, i, l).nodes[i] == g.nodes[i].(lbl := l)
    ensures forall j :: j in g.nodes && j != i ==> Relabelled(g, i, l).nodes[j] == g.nodes[j]
    ensures Relabelled(g, i, l).parents == g.parents && Relabelled(g, i, l).children == g.children
  {
  }

  // ---------------------------------------------------------------------
  // Cloning
  // ---------------------------------------------------------------------

  /** `get_nodes`: the nodes under the listed ids. */
  function NodesAt(nodes: map<string, KernelNode>, ids: seq<string>): (r: seq<KernelNode>)
    requires forall x :: x in ids ==> x in nodes
    ensures |r| == |ids|
  {
    if ids == [] then [] else NodesAt(nodes, ids[..|ids| - 1]) + [nodes[ids[|ids| - 1]]]
  }

  /** The nodes under the listed ids are nodes of `nodes`. */
  lemma {:induction false} NodesAtNodes(nodes: map<string, KernelNode>, ids: seq<string>)
    requires IdKeyed(nodes) && forall x :: x in ids ==> x in nodes
    ensures forall v :: v in NodesAt(nodes, ids) ==> v.id in nodes && nodes[v.id] == v
  {
    if ids != [] {
      NodesAtNodes(nodes, ids[..|ids| - 1]);
    }
  }

  /** The ids of the nodes under the listed ids are the listed ids. */
  lemma {:induction false} NodesAtIdsMember(nodes: map<string, KernelNode>, ids: seq<string>)
    requires IdKeyed(nodes) && forall x :: x in ids ==> x in nodes
    ensures forall x :: x in Ids(NodesAt(nodes, ids)) <==> x in ids
  {
    if ids != [] {
      var init := ids[..|ids| - 1];
      NodesAtIdsMember(nodes, init);
      assert ids == init + [ids[|ids| - 1]];
    }
  }

  /** The nodes under distinct ids have distinct ids. */
  lemma {:induction false} NodesAtDistinct(nodes: map<string, KernelNode>, ids: seq<string>)
    requires IdKeyed(nodes) && Distinct(ids) && forall x :: x in ids ==> x in nodes
    ensures DistinctIds(NodesAt(nodes, ids))
  {
    if ids != [] {
      var init := ids[..|ids| - 1];
      DistinctLast(ids);
      NodesAtDistinct(nodes, init);
      NodesAtIdsMember(nodes, init);
      assert NodesAt(nodes, ids)[..|ids| - 1] == NodesAt(nodes, init);
    }
  }

  /** `g` with only the edges into the children in `done`. */
  function Partial(g: Graph, done: set<string>): Graph
  {
    g.(parents := map c | c in g.parents :: if c in done then g.parents[c] else {},
       children := map p | p in g.children :: g.children[p] * done)
  }

  lemma PartialKeys(g: Graph, done: set<string>)
    ensures Partial(g, done).nodes == g.nodes
    ensures Partial(g, done).parents.Keys == g.parents.Keys
    ensures Partial(g, done).children.Keys == g.children.Keys
  {
  }

  /** The graph after linking every node of `ps` to `c`. */
  function Gathered(g: Graph, ps: set<string>, c: string): Graph
  {
    g.(parents := g.parents[c := SetAt(g.parents, c) + ps],
       children := map p | p in g.children :: if p in ps then g.children[p] + {c} else g.children[p])
  }

  lemma GatheredNone(g: Graph, c: string)
    requires c in g.parents
    ensures Gathered(g, {}, c) == g
  {
    var h := Gathered(g, {}, c);
    forall p | p in g.children
      ensures p in h.children && h.children[p] == g.children[p]
    {
    }
    assert h.children == g.children;
    assert h.parents[c] == g.parents[c];
    assert h.parents == g.parents;
  }

  lemma GatheredStep(g: Graph, ps: set<string>, p: string, c: string)
    requires p in g.nodes && c in g.nodes && c in g.parents && p in g.children
    ensures CanLink(Gathered(g, ps, c), p, c)
    ensures Linked(Gathered(g, ps, c), p, c) == Gathered(g, ps + {p}, c)
  {
    var a := Linked(Gathered(g, ps, c), p, c);
    var b := Gathered(g, ps + {p}, c);
    forall q | q in g.children
      ensures q in a.children && a.children[q] == b.children[q]
    {
    }
    assert a.children == b.children;
    assert a.parents[c] == b.parents[c];
    assert a.parents == b.parents;
  }

  lemma PartialParentsStep(g: Graph, done: set<string>, c: string)
    requires c in g.parents
    ensures Gathered(Partial(g, done), g.parents[c], c).parents == Partial(g, done + {c}).parents
  {
    var a := Gathered(Partial(g, done), g.parents[c], c);
    var b := Partial(g, done + {c});
    forall k | k in g.parents
      ensures k in a.parents && a.parents[k] == b.parents[k]
    {
    }
  }

  lemma PartialChildrenStep(g: Graph, done: set<string>, c: string)
    requires Symmetric(g) && c in g.parents
    ensures Gathered(Partial(g, done), g.parents[c], c).children == Partial(g, done + {c}).children
  {
    var a := Gathered(Partial(g, done), g.parents[c], c);
    var b := Partial(g, done + {c});
    forall p | p in g.children
      ensures a.children[p] == b.children[p]
    {
      if c in g.children[p] {
        assert p in g.parents[c];
      }
    }
  }

  /** Linking the parents of one more child extends the partial copy by that
      child. */
  lemma PartialStep(g: Graph, done: set<string>, c: string)
    requires Symmetric(g) && c in g.parents
    ensures Gathered(Partial(g, done), g.parents[c], c) == Partial(g, done + {c})
  {
    PartialParentsStep(g, done, c);
    PartialChildrenStep(g, done, c);
  }

  lemma PartialAll(g: Graph)
    requires Symmetric(g)
    ensures Partial(g, g.parents.Keys) == g
  {
    var h := Partial(g, g.parents.Keys);
    forall p | p in g.children
      ensures h.children[p] == g.children[p]
    {
    }
  }

  /** The constructor applied to the nodes under a listing of the ids of a
      well-formed graph gives back its nodes and labels, without edges. */
  lemma BuiltFromListing(g: Graph, ids: seq<string>)
    requires Keyed(g) && Indexed(g.nodes, g.labels) && Listing(ids, g.nodes.Keys)
    ensures Built(NodesAt(g.nodes, ids)) == Partial(g, {})
  {
    var list := NodesAt(g.nodes, ids);
    var b := Built(list);
    BuiltNodesAt(g.nodes, ids);
    BuiltKeyed(list);
    BuiltNoEdges(list);
    NodesAtDistinct(g.nodes, ids);
    BuiltIndexed(list);
    IndexUnique(g.nodes, b.labels, g.labels);
    EmptyAdjacency(g, b);
  }

  /** The constructor stores the nodes under a listing of the ids back under
      those ids. */
  lemma BuiltNodesAt(nodes: map<string, KernelNode>, ids: seq<string>)
    requires IdKeyed(nodes) && Listing(ids, nodes.Keys)
    ensures Built(NodesAt(nodes, ids)).nodes == nodes
  {
    var list := NodesAt(nodes, ids);
    NodesAtNodes(nodes, ids);
    NodesAtIdsMember(nodes, ids);
    BuiltKeyed(list);
    BuiltFromList(list);
    var b := Built(list);
    forall x | x in nodes
      ensures x in b.nodes
    {
      assert x in ids;
    }
    forall x | x in b.nodes
      ensures x in nodes && b.nodes[x] == nodes[x]
    {
      assert b.nodes[x] in list;
    }
  }

  /** A graph without edges on the nodes of `g` has the adjacency of
      `Partial(g, {})`. */
  lemma EmptyAdjacency(g: Graph, b: Graph)
    requires Keyed(g) && Keyed(b) && NoEdges(b) && b.nodes == g.nodes
    ensures b.parents == Partial(g, {}).parents && b.children == Partial(g, {}).children
  {
    EmptyParents(g, b.parents);
    EmptyChildren(g.children, b.children);
  }

  lemma EmptyParents(g: Graph, e: map<string, set<string>>)
    requires e.Keys == g.parents.Keys && forall k :: k in e ==> e[k] == {}
    ensures e == Partial(g, {}).parents
  {
  }

  lemma EmptyChildren(m: map<string, set<string>>, e: map<string, set<string>>)
    requires e.Keys == m.Keys && forall k :: k in e ==> e[k] == {}
    ensures e == map p | p in m :: m[p] * {}
  {
    var h := map p | p in m :: m[p] * {};
    forall p | p in m
      ensures h[p] == {}
    {
    }
  }

  // ---------------------------------------------------------------------
  // Listing the keys of an object
  // ---------------------------------------------------------------------

  /** `Object.keys` of a set-like object: its elements in some order. */
  method ListOf(s: set<string>) returns (r: seq<string>)
    ensures Listing(r, s) && |r| == |s|
  {
    r := [];
    var todo := s;
    while todo != {}
      invariant todo <= s
      invariant Distinct(r)
      invariant forall x :: x in r <==> x in s - todo
      invariant |r| == |s| - |todo|
      decreases |todo|
    {
      var x :| x in todo;
      DistinctSnoc(r, x);
      r := r + [x];
      todo := todo - {x};
    }
  }

  /** The labels of the listed nodes, in listing order. */
  function LabelSeq(nodes: map<string, KernelNode>, xs: seq<string>): (r: seq<string>)
    requires forall x :: x in xs ==> x in nodes
    ensures |r| == |xs|
  {
    if xs == [] then [] else LabelSeq(nodes, xs[..|xs| - 1]) + [nodes[xs[|xs| - 1]].lbl]
  }

  /** The listed nodes whose label is `l`. */
  function LabelledIn(nodes: map<string, KernelNode>, xs: seq<string>, l: string): set<string>
    requires forall x :: x in xs ==> x in nodes
  {
    if xs == [] then {}
    else LabelledIn(nodes, xs[..|xs| - 1], l) + (if nodes[xs[|xs| - 1]].lbl == l then {xs[|xs| - 1]} else {})
  }

  lemma {:induction false} LabelledInMember(nodes: map<string, KernelNode>, xs: seq<string>, l: string)
    requires forall x :: x in xs ==> x in nodes
    ensures forall x :: x in LabelledIn(nodes, xs, l) <==> x in xs && nodes[x].lbl == l
  {
    if xs != [] {
      LabelledInMember(nodes, xs[..|xs| - 1], l);
      assert xs == xs[..|xs| - 1] + [xs[|xs| - 1]];
    }
  }

  ghost function SomeListing(s: set<string>): (r: seq<string>)
    ensures Listing(r, s)
    decreases |s|
  {
    if s == {} then []
    else
      var x :| x in s;
      var rest := SomeListing(s - {x});
      [x] + rest
  }

  /** The labels of a set of nodes, with their multiplicities. */
  ghost function LabelsOf(nodes: map<string, KernelNode>, s: set<string>): multiset<string>
    requires s <= nodes.Keys
  {
    multiset(LabelSeq(nodes, SomeListing(s)))
  }

  /** How often a label occurs among the labels of listed nodes is the
      number of listed nodes with that label. */
  lemma {:induction false} LabelSeqCount(nodes: map<string, KernelNode>, xs: seq<string>, l: string)
    requires (forall x :: x in xs ==> x in nodes) && Distinct(xs)
    ensures multiset(LabelSeq(nodes, xs))[l] == |LabelledIn(nodes, xs, l)|
  {
    if xs != [] {
      var init := xs[..|xs| - 1];
      var last := xs[|xs| - 1];
      DistinctLast(xs);
      LabelSeqCount(nodes, init, l);
      LabelledInMember(nodes, init, l);
      assert last !in LabelledIn(nodes, init, l);
    }
  }

  /** Two listings of one set of nodes have the same nodes under each label. */
  lemma SameLabelled(nodes: map<string, KernelNode>, xs: seq<string>, ys: seq<string>, s: set<string>, l: string)
    requires s <= nodes.Keys && Listing(xs, s) && Listing(ys, s)
    ensures LabelledIn(nodes, xs, l) == LabelledIn(nodes, ys, l)
  {
    LabelledInMember(nodes, xs, l);
    LabelledInMember(nodes, ys, l);
  }

  /** Any listing of a set of nodes has the same labels with the same
      multiplicities: the order `Object.keys` picks does not matter. */
  lemma ListingLabels(nodes: map<string, KernelNode>, xs: seq<string>, s: set<string>)
    requires s <= nodes.Keys && Listing(xs, s)
    ensures multiset(LabelSeq(nodes, xs)) == LabelsOf(nodes, s)
  {
    var ys := SomeListing(s);
    forall l
      ensures multiset(LabelSeq(nodes, xs))[l] == multiset(LabelSeq(nodes, ys))[l]
    {
      LabelSeqCount(nodes, xs, l);
      LabelSeqCount(nodes, ys, l);
      SameLabelled(nodes, xs, ys, s, l);
    }
  }

  // ---------------------------------------------------------------------
  // The graph object
  // ---------------------------------------------------------------------

  class KernelGraph {
    const id: string
    var nodes: map<string, KernelNode>
    var parents: map<string, set<string>>
    var children: map<string, set<string>>
    var labels: map<string, set<string>>

    function Snapshot(): Graph
      reads this
    {
      Graph(nodes, parents, children, labels)
    }

    ghost predicate Valid()
      reads this
    {
      WellFormed(Snapshot())
    }

    /** `new KernelGraph(id, nodelist)`: each node under its id, without
        edges, filed under its label. */
    constructor (id: string, nodelist: seq<KernelNode>)
      ensures this.id == id && Snapshot() == Built(nodelist)
    {
      this.id := id;
      nodes, parents, children, labels := map[], map[], map[], map[];
      new;
      var i := 0;
      while i < |nodelist|
        invariant 0 <= i <= |nodelist|
        invariant Snapshot() == Built(nodelist[..i])
      {
        var node := nodelist[i];
        nodes := nodes[node.id := node];
        parents := parents[node.id := {}];
        children := children[node.id := {}];
        labels := Filed(labels, node.lbl, node.id);
        assert nodelist[..i + 1][..i] == nodelist[..i];
        i := i + 1;
      }
      assert nodelist[..i] == nodelist;
    }

    method Link(pid: string, cid: string)
      requires CanLink(Snapshot(), pid, cid)
      modifies this
      ensures Snapshot() == Linked(old(Snapshot()), pid, cid)
    {
      if pid in nodes && cid in nodes {
        parents := parents[cid := parents[cid] + {pid}];
        children := children[pid := children[pid] + {cid}];
      }
    }

    method Remove(n: string)
      modifies this
      ensures Snapshot() == Removed(old(Snapshot()), n)
    {
      if n !in nodes {
        return;
      }
      var node := nodes[n];
      var ps := SetAt(parents, n) - {n};
      var cs := SetAt(children, n) - {n};
      children := SpliceEach(children, n, ps, cs);
      parents := SpliceEach(parents, n, cs, ps);
      nodes := nodes - {n};
      children := children - {n};
      parents := parents - {n};
      labels := Unindexed(labels, node.lbl, n);
    }

    /** Labels node `nodeid` with `lbl`. The JavaScript throws for an id
        that is not a node; here the id must be a node, as it is at every
        call, from `RelabelAll` over the graph's own ids. */
    method Relabel(nodeid: string, lbl: string)
      requires nodeid in nodes && nodes[nodeid].id == nodeid
      modifies this
      ensures Snapshot() == Relabelled(old(Snapshot()), nodeid, lbl)
    {
      var node := nodes[nodeid];
      labels := Unindexed(labels, node.lbl, node.id);
      nodes := nodes[nodeid := node.(lbl := lbl)];
      labels := Filed(labels, lbl, node.id);
    }

    /** `clone`: a new graph with the same nodes, labels and edges; this one
        is not changed. */
    method Clone() returns (c: KernelGraph)
      requires Valid()
      ensures fresh(c) && c.id == id && c.Snapshot() == Snapshot()
    {
      ghost var g := Snapshot();
      var ids := NodeIds();
      c := new KernelGraph(id, NodesAt(nodes, ids));
      BuiltFromListing(g, ids);
      var cids := ListOf(parents.Keys);
      CopyEdges(g, cids, c);
    }

    /** The loops of `clone`: links each parent of each listed child in `c`. */
    method CopyEdges(ghost g: Graph, cids: seq<string>, c: KernelGraph)
      requires g == Snapshot() && Keyed(g) && Symmetric(g) && c != this
      requires c.Snapshot() == Partial(g, {})
      requires forall x :: x in cids <==> x in g.parents
      modifies c
      ensures c.Snapshot() == g
    {
      for i := 0 to |cids|
        invariant c.Snapshot() == Partial(g, Elems(cids[..i]))
      {
        CopyParents(g, Elems(cids[..i]), cids[i], c);
        ElemsSnoc(cids, i);
      }
      assert cids[..|cids|] == cids;
      ListingElems(cids, g.parents.Keys);
      PartialAll(g);
    }

    /** The inner loop of `clone`: links each parent of `cid` in `c`. */
    method CopyParents(ghost g: Graph, ghost done: set<string>, cid: string, c: KernelGraph)
      requires g == Snapshot() && Keyed(g) && Symmetric(g) && c != this && cid in g.parents
      requires c.Snapshot() == Partial(g, done)
      modifies c
      ensures c.Snapshot() == Partial(g, done + {cid})
    {
      PartialKeys(g, done);
      AdjacentAreNodes(g, cid);
      var pids := ListOf(parents[cid]);
      c.LinkAll(pids, cid);
      ListingElems(pids, g.parents[cid]);
      PartialStep(g, done, cid);
    }

    /** Links every listed node to `cid`, one `link` at a time. */
    method LinkAll(pids: seq<string>, cid: string)
      requires cid in nodes && cid in parents
      requires forall p :: p in pids ==> p in nodes && p in children
      modifies this
      ensures Snapshot() == Gathered(old(Snapshot()), Elems(pids), cid)
    {
      ghost var start := Snapshot();
      GatheredNone(start, cid);
      for i := 0 to |pids|
        invariant Snapshot() == Gathered(start, Elems(pids[..i]), cid)
      {
        ElemsSnoc(pids, i);
        GatheredStep(start, Elems(pids[..i]), pids[i], cid);
        Link(pids[i], cid);
      }
      assert pids[..|pids|] == pids;
    }

    /** `get_node_ids`. */
    method NodeIds() returns (r: seq<string>)
      ensures Listing(r, nodes.Keys) && |r| == |nodes|
    {
      r := ListOf(nodes.Keys);
    }

    /** `get_parent_ids`: none for an unknown id. */
    method ParentIds(nodeid: string) returns (r: seq<string>)
      ensures Listing(r, SetAt(parents, nodeid))
    {
      r := ListOf(SetAt(parents, nodeid));
    }

    /** `get_child_ids`: none for an unknown id. */
    method ChildIds(nodeid: string) returns (r: seq<string>)
      ensures Listing(r, SetAt(children, nodeid))
    {
      r := ListOf(SetAt(children, nodeid));
    }

    /** `get_neighbour_ids`: the parent ids, then the child ids. */
    method NeighbourIds(nodeid: string) returns (r: seq<string>)
      ensures |r| == |SetAt(parents, nodeid)| + |SetAt(children, nodeid)|
      ensures Listing(r[..|SetAt(parents, nodeid)|], SetAt(parents, nodeid))
      ensures Listing(r[|SetAt(parents, nodeid)|..], SetAt(children, nodeid))
    {
      var ps := ListOf(SetAt(parents, nodeid));
      var cs := ListOf(SetAt(children, nodeid));
      r := ps + cs;
      assert r[..|ps|] == ps && r[|ps|..] == cs;
    }

    /** `get_parent_labels`: the labels of the parents. */
    method ParentLabels(nodeid: string) returns (r: seq<string>)
      requires Valid()
      ensures SetAt(parents, nodeid) <= nodes.Keys
      ensures multiset(r) == LabelsOf(nodes, SetAt(parents, nodeid))
    {
      AdjacentAreNodes(Snapshot(), nodeid);
      var ids := ParentIds(nodeid);
      r := LabelSeq(nodes, ids);
      ListingLabels(nodes, ids, SetAt(parents, nodeid));
    }

    /** `get_child_labels`: the labels of the children. */
    method ChildLabels(nodeid: string) returns (r: seq<string>)
      requires Valid()
      ensures SetAt(children, nodeid) <= nodes.Keys
      ensures multiset(r) == LabelsOf(nodes, SetAt(children, nodeid))
    {
      AdjacentAreNodes(Snapshot(), nodeid);
      var ids := ChildIds(nodeid);
      r := LabelSeq(nodes, ids);
      ListingLabels(nodes, ids, SetAt(children, nodeid));
    }

    /** `get_neighbour_labels`: the child labels, then the parent labels. */
    method NeighbourLabels(nodeid: string) returns (r: seq<string>)
      requires Valid()
      ensures SetAt(parents, nodeid) <= nodes.Keys && SetAt(children, nodeid) <= nodes.Keys
      ensures multiset(r) == LabelsOf(nodes, SetAt(children, nodeid)) + LabelsOf(nodes, SetAt(parents, nodeid))
    {
      var cs := ChildLabels(nodeid);
      var ps := ParentLabels(nodeid);
      r := cs + ps;
    }

    /** `get_labels`. */
    method Labels() returns (r: seq<string>)
      ensures Listing(r, labels.Keys)
    {
      r := ListOf(labels.Keys);
    }

    /** `get_node_ids_for_label`: none for an unknown label. */
    method NodeIdsForLabel(lbl: string) returns (r: seq<string>)
      requires Indexed(nodes, labels)
      ensures Listing(r, Labelled(nodes, lbl))
    {
      r := ListOf(SetAt(labels, lbl));
      BucketIsLabelled(nodes, labels, lbl);
    }

    /** `get_label_count`: the number of nodes with the label. */
    method LabelCount(lbl: string) returns (r: nat)
      requires Indexed(nodes, labels)
      ensures r == |Labelled(nodes, lbl)|
    {
      var ids := ListOf(SetAt(labels, lbl));
      r := |ids|;
      BucketIsLabelled(nodes, labels, lbl);
    }
  }

  /** The source's two removal loops with `n` taken out of the sets they
      walk and splice in: each set under a key in `at` loses `n` and gains
      `add`. */
  method SpliceEach(m: map<string, set<string>>, n: string, at: set<string>, add: set<string>)
    returns (r: map<string, set<string>>)
    ensures r == Spliced(m, n, at, add)
  {
    r := m;
    var todo := at;
    ghost var done := {};
    while todo != {}
      invariant done + todo == at && done !! todo
      invariant r == Spliced(m, n, done, add)
      decreases |todo|
    {
      var k :| k in todo;
      SplicedStep(m, n, done, k, add);
      if k in r {
        r := r[k := (r[k] - {n}) + add];
      }
      done := done + {k};
      todo := todo - {k};
    }
  }

  lemma SplicedStep(m: map<string, set<string>>, n: string, done: set<string>, k: string, add: set<string>)
    requires k !in done
    ensures var r := Spliced(m, n, done, add);
      Spliced(m, n, done + {k}, add) == if k in r then r[k := (r[k] - {n}) + add] else r
  {
  }

  // ---------------------------------------------------------------------
  // Loading a trace
  // ---------------------------------------------------------------------

  predicate IsMerge(data: Data)
  {
    "Operation" in data && |data["Operation"]| > 0 && data["Operation"][0] == "merge"
  }

  /** The `Edge` values of a report: the ids of its parents. */
  function EdgesOf(data: Data): seq<string>
  {
    if "Edge" in data then data["Edge"] else []
  }

  function ReportNodes(reports: seq<Data>, hash: Data -> string): (r: seq<KernelNode>)
    requires forall k :: 0 <= k < |reports| ==> HasXTrace(reports[k])
    ensures |r| == |reports|
    ensures forall k :: 0 <= k < |r| ==> r[k] == NodeOfReport(reports[k], hash(reports[k]))
  {
    seq(|reports|, k requires 0 <= k < |reports| => NodeOfReport(reports[k], hash(reports[k])))
  }

  /** The ids of the listed merge nodes. */
  function MergeIds(nodelist: seq<KernelNode>): set<string>
  {
    if nodelist == [] then {}
    else
      var last := nodelist[|nodelist| - 1];
      MergeIds(nodelist[..|nodelist| - 1]) + (if IsMerge(last.data) then {last.id} else {})
  }

  lemma {:induction false} MergeIdsMember(nodelist: seq<KernelNode>, v: KernelNode)
    requires v in nodelist && IsMerge(v.data)
    ensures v.id in MergeIds(nodelist)
  {
    var init := nodelist[..|nodelist| - 1];
    if v != nodelist[|nodelist| - 1] {
      assert nodelist == init + [nodelist[|nodelist| - 1]];
      MergeIdsMember(init, v);
    }
  }

  /** `KernelGraph.fromJSON`: one node per report, linked to the parents its
      edges name, and then every merge node removed. */
  method FromJSON(id: string, reports: seq<Data>, hash: Data -> string) returns (trace: KernelGraph)
    requires forall k :: 0 <= k < |reports| ==> HasXTrace(reports[k])
    requires DistinctIds(ReportNodes(reports, hash))
    ensures fresh(trace) && trace.id == id && trace.Valid()
    ensures var nodes := ReportNodes(reports, hash);
      trace.nodes.Keys == Ids(nodes) - MergeIds(nodes)
    ensures forall x :: x in trace.nodes ==> !IsMerge(trace.nodes[x].data)
  {
    var nodes := ReportNodes(reports, hash);
    trace := new KernelGraph(id, nodes);
    BuiltWellFormed(nodes);
    BuiltKeyed(nodes);
    BuiltFromList(nodes);
    ghost var all := trace.nodes;
    LinkEveryEdge(trace, nodes);
    RemoveMerges(trace, nodes);
    MergesGone(all, nodes);
  }

  /** Once the merge ids are taken out, no merge node is left. */
  lemma MergesGone(all: map<string, KernelNode>, nodes: seq<KernelNode>)
    requires IdKeyed(all) && forall x :: x in all ==> all[x] in nodes
    ensures forall x :: x in all && x !in MergeIds(nodes) ==> !IsMerge(all[x].data)
  {
    forall x | x in all && IsMerge(all[x].data)
      ensures x in MergeIds(nodes)
    {
      MergeIdsMember(nodes, all[x]);
    }
  }

  /** `fromJSON`'s first loop. */
  method LinkEveryEdge(trace: KernelGraph, nodes: seq<KernelNode>)
    requires trace.Valid()
    modifies trace
    ensures trace.Valid() && trace.nodes == old(trace.nodes)
  {
    var k := 0;
    while k < |nodes|
      invariant 0 <= k <= |nodes|
      invariant trace.Valid() && trace.nodes == old(trace.nodes)
    {
      LinkEdges(trace, nodes[k]);
      k := k + 1;
    }
  }

  /** `fromJSON`'s second loop. */
  method RemoveMerges(trace: KernelGraph, nodes: seq<KernelNode>)
    requires trace.Valid()
    modifies trace
    ensures trace.Valid() && trace.nodes == old(trace.nodes) - MergeIds(nodes)
  {
    var k := 0;
    while k < |nodes|
      invariant 0 <= k <= |nodes|
      invariant trace.Valid() && trace.nodes == old(trace.nodes) - MergeIds(nodes[..k])
    {
      RemoveIfMerge(trace, nodes, k, old(trace.nodes));
      k := k + 1;
    }
    assert nodes[..k] == nodes;
  }

  lemma MergeIdsSnoc(nodes: seq<KernelNode>, k: nat)
    requires k < |nodes|
    ensures IsMerge(nodes[k].data) ==> MergeIds(nodes[..k + 1]) == MergeIds(nodes[..k]) + {nodes[k].id}
    ensures !IsMerge(nodes[k].data) ==> MergeIds(nodes[..k + 1]) == MergeIds(nodes[..k])
  {
    assert nodes[..k + 1][..k] == nodes[..k];
  }

  lemma MapMinus(m: map<string, KernelNode>, s: set<string>, x: string)
    ensures (m - s) - {x} == m - (s + {x})
  {
  }

  /** One step of `fromJSON`'s second loop. */
  method RemoveIfMerge(trace: KernelGraph, nodes: seq<KernelNode>, k: nat, ghost all: map<string, KernelNode>)
    requires k < |nodes| && trace.Valid() && trace.nodes == all - MergeIds(nodes[..k])
    modifies trace
    ensures trace.Valid() && trace.nodes == all - MergeIds(nodes[..k + 1])
  {
    MergeIdsSnoc(nodes, k);
    if IsMerge(nodes[k].data) {
      RemoveMerge(trace, nodes[k].id);
      MapMinus(all, MergeIds(nodes[..k]), nodes[k].id);
    }
  }

  /** One `remove` of `fromJSON`'s second loop. */
  method RemoveMerge(trace: KernelGraph, n: string)
    requires trace.Valid()
    modifies trace
    ensures trace.Valid() && trace.nodes == old(trace.nodes) - {n}
  {
    RemovedWellFormed(trace.Snapshot(), n);
    if n in trace.nodes {
      RemovedForgets(trace.Snapshot(), n);
    }
    trace.Remove(n);
  }

  /** Links `node` to each id in its `Edge` list. */
  method LinkEdges(trace: KernelGraph, node: KernelNode)
    requires trace.Valid()
    modifies trace
    ensures trace.Valid() && trace.nodes == old(trace.nodes)
  {
    var edges := EdgesOf(node.data);
    var i := 0;
    while i < |edges|
      invariant 0 <= i <= |edges|
      invariant trace.Valid() && trace.nodes == old(trace.nodes)
    {
      LinkedWellFormed(trace.Snapshot(), edges[i], node.id);
      trace.Link(edges[i], node.id);
      i := i + 1;
    }
  }
}
