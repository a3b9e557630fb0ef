/** The directed graph the tree is copied into: nodes in insertion order,
    an attribute record per node that has been given one, and an edge set.
    A node that only ever appeared as an edge end point has no record, as
    a networkx node added by `add_edge` has an empty attribute dictionary. */
module NxGraph {
  import opened Seqs
  import opened Tree

  datatype Graph = Graph(order: seq<nat>, attrs: map<nat, Info>, edges: set<(nat, nat)>)

  const Empty: Graph := Graph([], map[], {})

  /** `G.add_node(n, **attrs)`: inserts `n` if absent and sets its record. */
  function AddNode(g: Graph, n: nat, info: Info): (r: Graph)
    ensures forall x: nat :: x in r.order <==> x in g.order || x == n
    ensures Distinct(g.order) ==> Distinct(r.order)
    ensures IsPrefix(g.order, r.order)
    ensures r.attrs == g.attrs[n := info] && r.edges == g.edges
  {
    Graph(if n in g.order then g.order else g.order + [n], g.attrs[n := info], g.edges)
  }

  /** `G.add_edge(u, v)`: inserts whichever end points are absent, `u`
      first, without records, and adds the edge. */
  function AddEdge(g: Graph, u: nat, v: nat): (r: Graph)
    ensures forall x: nat :: x in r.order <==> x in g.order || x == u || x == v
    ensures Distinct(g.order) ==> Distinct(r.order)
    ensures IsPrefix(g.order, r.order)
    ensures r.attrs == g.attrs && r.edges == g.edges + {(u, v)}
  {
    var o1 := if u in g.order then g.order else g.order + [u];
    var o2 := if v in o1 then o1 else o1 + [v];
    Graph(o2, g.attrs, g.edges + {(u, v)})
  }

  /** Some tree in the forest rooted at `cs` contains `x`. */
  ghost predicate InForest(t: Tree, cs: seq<nat>, x: nat)
    requires Downward(t) && InArena(cs, t)
  {
    x < |t| && exists i | 0 <= i < |cs| :: x in SubtreeIds(t, cs[i])
  }

  /** A subtree is its root and the forest of its children's subtrees. */
  lemma SubtreeSplit(t: Tree, k: nat)
    requires Downward(t) && k < |t|
    ensures InArena(t[k].children, t)
    ensures forall x :: x in SubtreeIds(t, k) <==> x == k || InForest(t, t[k].children, x)
    ensures !InForest(t, t[k].children, k)
  {
    var cs := t[k].children;
    assert forall i | 0 <= i < |cs| :: cs[i] in cs;
    forall x | InForest(t, cs, x)
      ensures x in SubtreeIds(t, k) && x != k
    {
      var i :| 0 <= i < |cs| && x in SubtreeIds(t, cs[i]);
      assert cs[i] in cs;
    }
    forall x: nat | x in SubtreeIds(t, k) && x != k
      ensures InForest(t, cs, x)
    {
      var c :| c in cs && x in SubtreeIds(t, c);
      var i :| 0 <= i < |cs| && cs[i] == c;
    }
  }

  /** The forest of `[c] + cs` is the subtree of `c` and the forest of `cs`. */
  lemma ForestSplit(t: Tree, cs: seq<nat>)
    requires Downward(t) && InArena(cs, t) && cs != []
    ensures forall x :: InForest(t, cs, x) <==> x in SubtreeIds(t, cs[0]) || InForest(t, cs[1..], x)
  {
    forall x | InForest(t, cs, x) && x !in SubtreeIds(t, cs[0])
      ensures InForest(t, cs[1..], x)
    {
      var i :| 0 <= i < |cs| && x in SubtreeIds(t, cs[i]);
      assert cs[1..][i - 1] == cs[i];
    }
    forall x | InForest(t, cs[1..], x)
      ensures InForest(t, cs, x)
    {
      var i :| 0 <= i < |cs[1..]| && x in SubtreeIds(t, cs[1..][i]);
      assert cs[i + 1] == cs[1..][i];
    }
  }

  /** `add_node_to_graph(node)`: record the node, then for every child in
      order add the edge and recurse. Nodes are only ever appended. */
  function AddNodeToGraph(t: Tree, g: Graph, k: nat): (r: Graph)
    requires Downward(t) && k < |t|
    ensures IsPrefix(g.order, r.order)
    ensures k !in g.order ==> IsPrefix(g.order + [k], r.order)
    ensures Distinct(g.order) ==> Distinct(r.order)
    decreases |t| - k, 1
  {
    var g1 := AddNode(g, k, t[k].info);
    ChildrenAbove(t, k);
    AddChildren(t, g1, k, t[k].children)
  }

  /** The loop over the children of `k`, from the child `cs[0]` on. */
  function AddChildren(t: Tree, g: Graph, k: nat, cs: seq<nat>): (r: Graph)
    requires Downward(t) && k < |t| && k in g.order
    requires forall i | 0 <= i < |cs| :: k < cs[i] < |t|
    ensures IsPrefix(g.order, r.order)
    ensures Distinct(g.order) ==> Distinct(r.order)
    decreases |t| - k, 0, |cs|
  {
    if cs == [] then g
    else
      var g1 := AddEdge(g, k, cs[0]);
      var g2 := AddNodeToGraph(t, g1, cs[0]);
      PrefixMember(g.order, g2.order, k);
      AddChildren(t, g2, k, cs[1..])
  }

  /** The children of `k`, by position, have larger ids than `k`. */
  lemma ChildrenAbove(t: Tree, k: nat)
    requires Downward(t) && k < |t|
    ensures forall i | 0 <= i < |t[k].children| :: k < t[k].children[i] < |t|
  {
    assert forall i | 0 <= i < |t[k].children| :: t[k].children[i] in t[k].children;
  }

  lemma PrefixMember<T>(a: seq<T>, b: seq<T>, x: T)
    requires IsPrefix(a, b) && x in a
    ensures x in b
  {
    var i :| 0 <= i < |a| && a[i] == x;
    assert b[i] == x;
  }

  /** The nodes `add_node_to_graph(k)` adds are exactly the subtree of `k`. */
  lemma {:induction false} NodeOrder(t: Tree, g: Graph, k: nat)
    requires Downward(t) && k < |t|
    ensures forall x: nat :: x in AddNodeToGraph(t, g, k).order <==> x in g.order || x in SubtreeIds(t, k)
    decreases |t| - k, 1
  {
    SubtreeSplit(t, k);
    ChildrenAbove(t, k);
    var g1 := AddNode(g, k, t[k].info);
    ChildrenOrder(t, g1, k, t[k].children);
  }

  lemma {:induction false} ChildrenOrder(t: Tree, g: Graph, k: nat, cs: seq<nat>)
    requires Downward(t) && k < |t| && k in g.order
    requires forall i | 0 <= i < |cs| :: k < cs[i] < |t|
    ensures forall x: nat :: x in AddChildren(t, g, k, cs).order <==> x in g.order || InForest(t, cs, x)
    decreases |t| - k, 0, |cs|
  {
    if cs != [] {
      var g1 := AddEdge(g, k, cs[0]);
      var g2 := AddNodeToGraph(t, g1, cs[0]);
      PrefixMember(g.order, g2.order, k);
      NodeOrder(t, g1, cs[0]);
      ChildrenOrder(t, g2, k, cs[1..]);
      ForestSplit(t, cs);
    }
  }

  /** Every node of the subtree of `k` gets its own record; other records
      are left as they were. */
  lemma {:induction false} NodeAttrs(t: Tree, g: Graph, k: nat)
    requires Downward(t) && k < |t|
    ensures forall x: nat :: x in AddNodeToGraph(t, g, k).attrs <==> x in g.attrs || x in SubtreeIds(t, k)
    ensures forall x: nat | x in SubtreeIds(t, k) :: AddNodeToGraph(t, g, k).attrs[x] == t[x].info
    ensures forall x: nat | x in g.attrs && x !in SubtreeIds(t, k) ::
      AddNodeToGraph(t, g, k).attrs[x] == g.attrs[x]
    decreases |t| - k, 1
  {
    SubtreeSplit(t, k);
    ChildrenAbove(t, k);
    var g1 := AddNode(g, k, t[k].info);
    ChildrenAttrs(t, g1, k, t[k].children);
  }

  lemma {:induction false} ChildrenAttrs(t: Tree, g: Graph, k: nat, cs: seq<nat>)
    requires Downward(t) && k < |t| && k in g.order
    requires forall i | 0 <= i < |cs| :: k < cs[i] < |t|
    ensures forall x: nat :: x in AddChildren(t, g, k, cs).attrs <==> x in g.attrs || InForest(t, cs, x)
    ensures forall x: nat | InForest(t, cs, x) :: AddChildren(t, g, k, cs).attrs[x] == t[x].info
    ensures forall x: nat | x in g.attrs && !InForest(t, cs, x) :: AddChildren(t, g, k, cs).attrs[x] == g.attrs[x]
    decreases |t| - k, 0, |cs|
  {
    if cs != [] {
      var g1 := AddEdge(g, k, cs[0]);
      var g2 := AddNodeToGraph(t, g1, cs[0]);
      PrefixMember(g.order, g2.order, k);
      NodeAttrs(t, g1, cs[0]);
      ChildrenAttrs(t, g2, k, cs[1..]);
      ForestSplit(t, cs);
    }
  }

  /** The edges `add_node_to_graph(k)` adds are exactly the parent-child
      links inside the subtree of `k`. */
  lemma {:induction false} NodeEdges(t: Tree, g: Graph, k: nat)
    requires Downward(t) && k < |t|
    ensures forall e: (nat, nat) :: e in AddNodeToGraph(t, g, k).edges <==>
      e in g.edges || (e.0 in SubtreeIds(t, k) && e.1 in t[e.0].children)
    decreases |t| - k, 1
  {
    SubtreeSplit(t, k);
    ChildrenAbove(t, k);
    var g1 := AddNode(g, k, t[k].info);
    ChildrenEdges(t, g1, k, t[k].children);
  }

  lemma {:induction false} ChildrenEdges(t: Tree, g: Graph, k: nat, cs: seq<nat>)
    requires Downward(t) && k < |t| && k in g.order
    requires forall i | 0 <= i < |cs| :: k < cs[i] < |t|
    ensures forall e: (nat, nat) :: e in AddChildren(t, g, k, cs).edges <==>
      e in g.edges || (e.0 == k && e.1 in cs) || (InForest(t, cs, e.0) && e.1 in t[e.0].children)
    decreases |t| - k, 0, |cs|
  {
    if cs != [] {
      var g1 := AddEdge(g, k, cs[0]);
      var g2 := AddNodeToGraph(t, g1, cs[0]);
      PrefixMember(g.order, g2.order, k);
      NodeEdges(t, g1, cs[0]);
      ChildrenEdges(t, g2, k, cs[1..]);
      ForestSplit(t, cs);
    }
  }

  /** `build_networkx_tree(root)` for the root node 0: one graph node per
      tree node below the root, in depth-first pre-order from the root,
      carrying that node's attributes, and one edge per parent-child link. */
  function BuildNetworkxTree(t: Tree): (r: Graph)
    requires Downward(t) && |t| > 0
    ensures forall x: nat :: x in r.order <==> x in SubtreeIds(t, 0)
    ensures forall x: nat :: x in r.attrs <==> x in SubtreeIds(t, 0)
    ensures forall x: nat | x in SubtreeIds(t, 0) :: r.attrs[x] == t[x].info
    ensures forall e: (nat, nat) :: e in r.edges <==> e.0 in SubtreeIds(t, 0) && e.1 in t[e.0].children
    ensures Distinct(r.order) && r.order != [] && r.order[0] == 0
  {
    NodeOrder(t, Empty, 0);
    NodeAttrs(t, Empty, 0);
    NodeEdges(t, Empty, 0);
    var r := AddNodeToGraph(t, Empty, 0);
    assert Empty.order + [0] == [0];
    r
  }
}
