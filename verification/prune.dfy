/** `remove_subtrees_with_status`: every node whose status is the marker,
    together with everything reachable from it, is deleted from the graph. */
module Prune {
  import opened Wrappers
  import opened Seqs
  import opened Tree
  import opened NxGraph

  /** `graph.nodes[node]['status']` on a node without a record. */
  datatype PruneError = KeyError

  /** Every edge leads from a smaller id to a larger one, as in a graph
      copied from the arena; the traversals below terminate on it. */
  predicate Ordered(g: Graph) {
    forall e | e in g.edges :: e.0 < e.1
  }

  ghost function Targets(g: Graph): set<nat> {
    set e | e in g.edges :: e.1
  }

  /** A bound on every edge target, the measure of the traversals. */
  ghost function Bound(g: Graph): nat {
    Top(Targets(g))
  }

  lemma TargetsBelow(g: Graph)
    ensures forall e | e in g.edges :: e.1 < Bound(g)
  {
    forall e | e in g.edges
      ensures e.1 < Bound(g)
    {
      assert e.1 in Targets(g);
    }
  }

  /** `graph.successors(n)`, as a set. */
  function Succ(g: Graph, n: nat): (r: set<nat>)
    ensures forall c :: c in r <==> (n, c) in g.edges
  {
    set e | e in g.edges && e.0 == n :: e.1
  }

  /** `nx.dfs_tree(graph, source=n).nodes()`: `n` and every node reachable
      from it. */
  function Reach(g: Graph, n: nat): (r: set<nat>)
    requires Ordered(g)
    ensures n in r
    ensures forall x | x in r :: n <= x
    decreases Bound(g) - n
  {
    TargetsBelow(g);
    {n} + (set c, x | c in Succ(g, n) && x in Reach(g, c) :: x)
  }

  /** Reachability is transitive. */
  lemma {:induction false} ReachTrans(g: Graph, n: nat, y: nat, x: nat)
    requires Ordered(g) && y in Reach(g, n) && x in Reach(g, y)
    ensures x in Reach(g, n)
    decreases Bound(g) - n
  {
    TargetsBelow(g);
    if y != n {
      var c :| c in Succ(g, n) && y in Reach(g, c);
      ReachTrans(g, c, y, x);
    }
  }

  /** Every node the traversal from `n` visits has a record. */
  ghost predicate Recorded(g: Graph, n: nat)
    requires Ordered(g)
  {
    forall x | x in Reach(g, n) :: x in g.attrs
  }

  predicate HasStatus(g: Graph, x: nat, status: string)
    requires x in g.attrs
  {
    g.attrs[x].status == Some(status)
  }

  /** `mark_removed_subtrees(node)`: a node with the status brings its
      whole reachable part, then every successor is visited in turn. */
  function Mark(g: Graph, n: nat, status: string): (r: set<nat>)
    requires Ordered(g) && Recorded(g, n)
    decreases Bound(g) - n
  {
    TargetsBelow(g);
    (if HasStatus(g, n, status) then {n} + Reach(g, n) else {})
      + (set c, x | c in Succ(g, n) && x in Mark(g, c, status) :: x)
  }

  /** The nodes the marking collects, as one set: whatever is reachable
      from a node with the status that is itself reachable from `n`. */
  ghost predicate Doomed(g: Graph, n: nat, status: string, x: nat)
    requires Ordered(g) && Recorded(g, n)
  {
    exists y | y in Reach(g, n) :: HasStatus(g, y, status) && x in Reach(g, y)
  }

  /** Whatever the marking collects is doomed. */
  lemma {:induction false} MarkSound(g: Graph, n: nat, status: string, x: nat)
    requires Ordered(g) && Recorded(g, n) && x in Mark(g, n, status)
    ensures Doomed(g, n, status, x)
    decreases Bound(g) - n
  {
    TargetsBelow(g);
    if !(HasStatus(g, n, status) && x in Reach(g, n)) {
      var c :| c in Succ(g, n) && x in Mark(g, c, status);
      MarkSound(g, c, status, x);
      var y :| y in Reach(g, c) && HasStatus(g, y, status) && x in Reach(g, y);
      ReachTrans(g, n, c, y);
    }
  }

  /** Whatever is doomed the marking collects. */
  lemma {:induction false} MarkComplete(g: Graph, n: nat, status: string, x: nat)
    requires Ordered(g) && Recorded(g, n) && Doomed(g, n, status, x)
    ensures x in Mark(g, n, status)
    decreases Bound(g) - n
  {
    TargetsBelow(g);
    var y :| y in Reach(g, n) && HasStatus(g, y, status) && x in Reach(g, y);
    if y != n {
      var c :| c in Succ(g, n) && y in Reach(g, c);
      assert Doomed(g, c, status, x);
      MarkComplete(g, c, status, x);
    }
  }

  lemma MarkSpec(g: Graph, n: nat, status: string)
    requires Ordered(g) && Recorded(g, n)
    ensures forall x :: x in Mark(g, n, status) <==> Doomed(g, n, status, x)
  {
    forall x
      ensures x in Mark(g, n, status) <==> Doomed(g, n, status, x)
    {
      if x in Mark(g, n, status) {
        MarkSound(g, n, status, x);
      }
      if Doomed(g, n, status, x) {
        MarkComplete(g, n, status, x);
      }
    }
  }

  /** `graph.remove_node(x)` for every `x` in `M` present in the graph:
      the node, its record and every edge touching it disappear. */
  function RemoveNodes(g: Graph, M: set<nat>): (r: Graph)
    ensures forall x :: x in r.order <==> x in g.order && x !in M
    ensures forall x :: x in r.attrs <==> x in g.attrs && x !in M
    ensures forall x | x in r.attrs :: r.attrs[x] == g.attrs[x]
    ensures forall e :: e in r.edges <==> e in g.edges && e.0 !in M && e.1 !in M
    ensures IsSubseq(r.order, g.order)
  {
    var keep := (x: nat) => x !in M;
    FilterMembership(keep, g.order);
    FilterSubseq(keep, g.order);
    Graph(
      Filter(keep, g.order),
      map x | x in g.attrs && x !in M :: g.attrs[x],
      set e | e in g.edges && e.0 !in M && e.1 !in M)
  }

  /** `remove_subtrees_with_status(graph, root, status)`. It fails with a
      key error when the root is not in the graph or the traversal meets a
      node without a record; otherwise it removes the doomed nodes. */
  function RemoveSubtreesWithStatus(g: Graph, root: nat, status: string): (r: Result<Graph, PruneError>)
    requires Ordered(g)
    ensures r.Failure? <==> root !in g.order || !Recorded(g, root)
    ensures r.Success? ==> forall x :: x in r.value.order <==> x in g.order && !Doomed(g, root, status, x)
    ensures r.Success? ==> forall x :: x in r.value.attrs <==> x in g.attrs && !Doomed(g, root, status, x)
    ensures r.Success? ==> forall x | x in r.value.attrs :: r.value.attrs[x] == g.attrs[x]
    ensures r.Success? ==> forall e :: e in r.value.edges <==>
      e in g.edges && !Doomed(g, root, status, e.0) && !Doomed(g, root, status, e.1)
  {
    if root !in g.order || exists x | x in Reach(g, root) :: x !in g.attrs then
      Failure(KeyError)
    else
      MarkSpec(g, root, status);
      Success(RemoveNodes(g, Mark(g, root, status)))
  }

  /** Nothing reachable from the root that survives carries the status. */
  lemma NoStatusSurvives(g: Graph, root: nat, status: string)
    requires Ordered(g) && root in g.order && Recorded(g, root)
    ensures forall x | x in Reach(g, root) && x in RemoveSubtreesWithStatus(g, root, status).value.attrs ::
      !HasStatus(g, x, status)
  {
    forall x | x in Reach(g, root) && x in g.attrs && HasStatus(g, x, status)
      ensures Doomed(g, root, status, x)
    {
      assert x in Reach(g, x);
    }
  }

  /** A node hanging below a doomed node is doomed too: subtrees go whole. */
  lemma DoomedClosed(g: Graph, root: nat, status: string, x: nat, c: nat)
    requires Ordered(g) && Recorded(g, root)
    requires Doomed(g, root, status, x) && (x, c) in g.edges
    ensures Doomed(g, root, status, c)
  {
    var y :| y in Reach(g, root) && HasStatus(g, y, status) && x in Reach(g, y);
    assert c in Succ(g, x) && c in Reach(g, c);
    assert c in Reach(g, x);
    ReachTrans(g, y, x, c);
  }

  /** The root is doomed only when it carries the status itself, since
      nothing reachable from the root lies above it. */
  lemma RootDoomed(g: Graph, root: nat, status: string)
    requires Ordered(g) && Recorded(g, root)
    ensures Doomed(g, root, status, root) <==> HasStatus(g, root, status)
  {
    assert root in Reach(g, root);
  }

  /** Removing a set `M` that avoids `n`: whatever `n` still reaches, it
      reached before, and none of it is in `M`. */
  lemma {:induction false} ReachAfterRemoval(g: Graph, M: set<nat>, n: nat)
    requires Ordered(g) && Ordered(RemoveNodes(g, M)) && n !in M
    ensures forall x | x in Reach(RemoveNodes(g, M), n) :: x in Reach(g, n) && x !in M
    decreases Bound(RemoveNodes(g, M)) - n
  {
    var h := RemoveNodes(g, M);
    TargetsBelow(h);
    TargetsBelow(g);
    forall x | x in Reach(h, n)
      ensures x in Reach(g, n) && x !in M
    {
      if x != n {
        var c :| c in Succ(h, n) && x in Reach(h, c);
        ReachAfterRemoval(g, M, c);
        assert c in Succ(g, n);
      }
    }
  }

  /** Removing nodes the graph does not hold leaves it as it was. */
  lemma RemoveNone(h: Graph, M: set<nat>)
    requires forall x | x in M :: x !in h.order && x !in h.attrs
    requires forall e | e in h.edges :: e.0 !in M && e.1 !in M
    ensures RemoveNodes(h, M) == h
  {
    FilterAll((x: nat) => x !in M, h.order);
    var h2 := RemoveNodes(h, M);
    assert h2.attrs == h.attrs;
    assert h2.edges == h.edges;
  }

  /** After a pruning that keeps the root, nothing the root reaches carries
      the status, so a second marking dooms nothing. */
  lemma MarkAfterPrune(g: Graph, root: nat, status: string)
    requires Ordered(g) && root in g.order && Recorded(g, root)
    requires root in g.attrs && !HasStatus(g, root, status)
    ensures var h := RemoveSubtreesWithStatus(g, root, status).value;
      Ordered(h) && root in h.order && Recorded(h, root) && Mark(h, root, status) == {}
  {
    var M := Mark(g, root, status);
    MarkSpec(g, root, status);
    var h := RemoveNodes(g, M);
    assert !exists x | x in Reach(g, root) :: x !in g.attrs;
    assert RemoveSubtreesWithStatus(g, root, status) == Success(h);
    RootDoomed(g, root, status);
    ReachAfterRemoval(g, M, root);
    assert root in h.order;
    assert Recorded(h, root);
    forall y | y in Reach(h, root)
      ensures !HasStatus(h, y, status)
    {
      assert y in Reach(g, y);
    }
    MarkSpec(h, root, status);
  }

  /** When the root survives, pruning a second time removes nothing. */
  lemma PruneIdempotent(g: Graph, root: nat, status: string)
    requires Ordered(g) && root in g.order && Recorded(g, root)
    requires root in g.attrs && !HasStatus(g, root, status)
    ensures Ordered(RemoveSubtreesWithStatus(g, root, status).value)
    ensures RemoveSubtreesWithStatus(RemoveSubtreesWithStatus(g, root, status).value, root, status)
      == RemoveSubtreesWithStatus(g, root, status)
  {
    MarkAfterPrune(g, root, status);
    var h := RemoveSubtreesWithStatus(g, root, status).value;
    RemoveNone(h, Mark(h, root, status));
  }

  /** When the root itself carries the status it is removed, and a second
      pruning fails on the missing root. */
  lemma PruneTwiceFails(g: Graph, root: nat, status: string)
    requires Ordered(g) && root in g.order && Recorded(g, root)
    requires root in g.attrs && HasStatus(g, root, status)
    ensures Ordered(RemoveSubtreesWithStatus(g, root, status).value)
    ensures RemoveSubtreesWithStatus(RemoveSubtreesWithStatus(g, root, status).value, root, status)
      == Failure(KeyError)
  {
    RootDoomed(g, root, status);
  }
}
