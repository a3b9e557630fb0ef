/** `add_to_table`: build the tree, copy it into a graph and prune from the
    root every subtree whose top node has the status `Removed`. */
module Pipeline {
  import opened Wrappers
  import opened Seqs
  import opened Rows
  import opened Tree
  import opened Builder
  import opened Chains
  import opened Genealogy
  import opened NxGraph
  import opened Prune
  import opened OutputTables

  /** The status `add_to_table` prunes on. */
  const Removed: string := "Removed"

  /** The graph copied from a downward arena has its edges rising in id. */
  lemma TreeGraphOrdered(t: Tree)
    requires Downward(t) && |t| > 0
    ensures Ordered(BuildNetworkxTree(t))
  {
  }

  /** `g` links the nodes of the subtree of the root exactly as the arena does. */
  ghost predicate Copies(t: Tree, g: Graph)
    requires Downward(t) && |t| > 0
  {
    && Ordered(g)
    && forall p, c | p in SubtreeIds(t, 0) :: c in Succ(g, p) <==> c in t[p].children
  }

  /** The copied graph links its nodes as the arena does. */
  lemma TreeGraphCopies(t: Tree)
    requires Downward(t) && |t| > 0
    ensures Copies(t, BuildNetworkxTree(t))
  {
    TreeGraphOrdered(t);
  }

  /** In a graph linked as the arena, what a node reaches is its subtree. */
  lemma {:induction false} ReachMatches(t: Tree, g: Graph, y: nat)
    requires Downward(t) && |t| > 0 && Copies(t, g) && y in SubtreeIds(t, 0)
    ensures Reach(g, y) == SubtreeIds(t, y)
    decreases |t| - y
  {
    forall x
      ensures x in Reach(g, y) <==> x in SubtreeIds(t, y)
    {
      if x in Reach(g, y) && x != y {
        var c :| c in Succ(g, y) && x in Reach(g, c);
        SubtreeClosed(t, 0, y, c);
        ReachMatches(t, g, c);
      }
      if x in SubtreeIds(t, y) && x != y {
        var c :| c in t[y].children && x in SubtreeIds(t, c);
        SubtreeClosed(t, 0, y, c);
        ReachMatches(t, g, c);
        assert c in Succ(g, y);
      }
    }
  }

  /** In the copied graph, what a node reaches is its subtree. */
  lemma ReachIsSubtree(t: Tree, y: nat)
    requires Downward(t) && |t| > 0 && y in SubtreeIds(t, 0)
    ensures Ordered(BuildNetworkxTree(t))
    ensures Reach(BuildNetworkxTree(t), y) == SubtreeIds(t, y)
  {
    TreeGraphCopies(t);
    ReachMatches(t, BuildNetworkxTree(t), y);
  }

  /** `x` lies in the subtree of a node whose status is `Removed`. */
  ghost predicate UnderRemoved(t: Tree, x: nat)
    requires Downward(t)
  {
    exists y | 0 <= y < |t| :: t[y].info.status == Some(Removed) && x in SubtreeIds(t, y)
  }

  /** Over a well-formed arena, the nodes the pruning dooms are the nodes
      under a removed node. */
  lemma DoomedUnderRemoved(t: Tree)
    requires WellFormed(t)
    ensures Ordered(BuildNetworkxTree(t)) && Recorded(BuildNetworkxTree(t), 0)
    ensures forall x :: Doomed(BuildNetworkxTree(t), 0, Removed, x) <==> UnderRemoved(t, x)
  {
    var g := BuildNetworkxTree(t);
    AllBelowRoot(t);
    ReachIsSubtree(t, 0);
    forall x
      ensures Doomed(g, 0, Removed, x) <==> UnderRemoved(t, x)
    {
      if Doomed(g, 0, Removed, x) {
        var y :| y in Reach(g, 0) && HasStatus(g, y, Removed) && x in Reach(g, y);
        assert y in Range(0, |t|);
        ReachIsSubtree(t, y);
        assert t[y].info.status == Some(Removed) && x in SubtreeIds(t, y);
      }
      if UnderRemoved(t, x) {
        var y :| 0 <= y < |t| && t[y].info.status == Some(Removed) && x in SubtreeIds(t, y);
        assert y in SubtreeIds(t, 0);
        ReachIsSubtree(t, y);
        assert y in Reach(g, 0) && HasStatus(g, y, Removed) && x in Reach(g, y);
      }
    }
  }

  /** The pruning of the copied graph succeeds: the root is in the graph
      and every node reachable from it has a record. */
  lemma PruneSucceeds(t: Tree)
    requires WellFormed(t)
    ensures Ordered(BuildNetworkxTree(t))
    ensures RemoveSubtreesWithStatus(BuildNetworkxTree(t), 0, Removed).Success?
  {
    DoomedUnderRemoved(t);
  }

  /** A node with the status is under a removed node: its own. */
  lemma RemovedIsUnder(t: Tree)
    requires Downward(t)
    ensures forall x: nat | x < |t| && t[x].info.status == Some(Removed) :: UnderRemoved(t, x)
  {
    forall x: nat | x < |t| && t[x].info.status == Some(Removed)
      ensures UnderRemoved(t, x)
    {
      assert x in SubtreeIds(t, x);
    }
  }

  /** Only the root's own status can doom the root. */
  lemma RootUnderRemoved(t: Tree)
    requires Downward(t) && |t| > 0
    ensures UnderRemoved(t, 0) <==> t[0].info.status == Some(Removed)
  {
    assert 0 in SubtreeIds(t, 0);
  }

  /** The survivors of the pruning, node by node. */
  lemma PrunedNodes(t: Tree)
    requires WellFormed(t)
    ensures Ordered(BuildNetworkxTree(t))
    ensures RemoveSubtreesWithStatus(BuildNetworkxTree(t), 0, Removed).Success?
    ensures var r := RemoveSubtreesWithStatus(BuildNetworkxTree(t), 0, Removed).value;
      && (forall x: nat :: x in r.order <==> x < |t| && !UnderRemoved(t, x))
      && (forall x: nat :: x in r.attrs <==> x < |t| && !UnderRemoved(t, x))
      && (forall x | x in r.attrs :: r.attrs[x] == t[x].info)
  {
    PruneSucceeds(t);
    DoomedUnderRemoved(t);
    AllBelowRoot(t);
    var g := BuildNetworkxTree(t);
    var r := RemoveSubtreesWithStatus(g, 0, Removed).value;
    forall x: nat
      ensures x in r.order <==> x < |t| && !UnderRemoved(t, x)
      ensures x in r.attrs <==> x < |t| && !UnderRemoved(t, x)
    {
      assert x in g.order <==> x in SubtreeIds(t, 0);
      assert x in g.attrs <==> x in SubtreeIds(t, 0);
    }
  }

  /** The links that survive the pruning. */
  lemma PrunedEdges(t: Tree)
    requires WellFormed(t)
    ensures Ordered(BuildNetworkxTree(t))
    ensures RemoveSubtreesWithStatus(BuildNetworkxTree(t), 0, Removed).Success?
    ensures forall e: (nat, nat) :: e in RemoveSubtreesWithStatus(BuildNetworkxTree(t), 0, Removed).value.edges <==>
      && e.0 < |t| && e.1 in t[e.0].children
      && !UnderRemoved(t, e.0) && !UnderRemoved(t, e.1)
  {
    PruneSucceeds(t);
    DoomedUnderRemoved(t);
    AllBelowRoot(t);
  }

  /** The last two steps of `add_to_table` on a finished arena. The key
      error of the pruning cannot arise. The survivors are the nodes not
      under a removed node, with their attributes and the links among them. */
  function PruneTree(t: Tree): (r: Graph)
    requires WellFormed(t)
    ensures forall x: nat :: x in r.order <==> x < |t| && !UnderRemoved(t, x)
    ensures forall x: nat :: x in r.attrs <==> x < |t| && !UnderRemoved(t, x)
    ensures forall x | x in r.attrs :: r.attrs[x] == t[x].info && r.attrs[x].status != Some(Removed)
    ensures forall e: (nat, nat) :: e in r.edges <==>
      && e.0 < |t| && e.1 in t[e.0].children
      && !UnderRemoved(t, e.0) && !UnderRemoved(t, e.1)
    ensures 0 in r.order <==> t[0].info.status != Some(Removed)
  {
    PrunedNodes(t);
    PrunedEdges(t);
    RemovedIsUnder(t);
    RootUnderRemoved(t);
    RemoveSubtreesWithStatus(BuildNetworkxTree(t), 0, Removed).value
  }

  /** `add_to_table(sat, df)`, with `sxid` the serial of the satellite. It
      fails only while building; on success it returns the pruned graph of
      the finished arena `t` (a ghost result): the satellite root over the
      thruster assemblies, in row order, each grown to its full subtree. The
      root always survives since the satellite has no status. On a table
      without a cycle of parent links, fuel of one level per row suffices. */
  method AddToTable(rows: seq<Row>, sxid: string, fuel: nat) returns (r: Result<Graph, BuildError>, ghost t: Tree)
    ensures r.Failure? && r.error == RootNotFound <==> BeginningRows(rows) == []
    ensures r.Success? ==> Complete(t, rows) && r.value == PruneTree(t)
    ensures r.Success? ==>
      && |BeginningRows(rows)| > 0
      && 0 in r.value.order
      && r.value.attrs[0] == RootInfo(BeginningRows(rows)[0], sxid)
    ensures r.Success? ==>
      var b := BeginningRows(rows);
      && |t| > |b|
      && t[0] == TreeNode(0, RootInfo(b[0], sxid), Interval(1, |b| + 1), [])
      && (forall i | 0 <= i < |b| :: t[i + 1].info == ChildInfo(b[i]))
    ensures r.Failure? && r.error != RootNotFound ==> r.error == DepthExhausted && HasDescent(rows, fuel + 1)
    ensures BeginningRows(rows) != [] && Acyclic(rows) && fuel >= |rows| ==> r.Success?
  {
    var built := BuildTree(rows, sxid, fuel);
    if built.Failure? {
      return Failure(built.error), [];
    }
    var tree := built.value;
    t := tree;
    r := Success(PruneTree(tree));
  }

  /** The part listing of a graph whose nodes all have records: one row per
      node. */
  lemma InfoOutputOfRecorded(g: Graph)
    requires forall x | x in g.order :: x in g.attrs
    ensures GraphToInfoOutput(g).Success?
    ensures forall row :: row in GraphToInfoOutput(g).value <==>
      exists x | x in g.order :: PartRowOf(g.attrs[x]) == row
  {
    assert forall i | 0 <= i < |g.order| :: g.order[i] in g.order;
    var out := GraphToInfoOutput(g).value;
    forall row
      ensures row in out <==> exists x | x in g.order :: PartRowOf(g.attrs[x]) == row
    {
      if exists x | x in g.order :: PartRowOf(g.attrs[x]) == row {
        var x :| x in g.order && PartRowOf(g.attrs[x]) == row;
        var i :| 0 <= i < |g.order| && g.order[i] == x;
      }
    }
  }

  /** The part listing of the pruned graph never hits a missing record:
      its rows are the part rows of the nodes not under a removed node. */
  lemma InfoOutputOfPruned(t: Tree)
    requires WellFormed(t)
    ensures GraphToInfoOutput(PruneTree(t)).Success?
    ensures forall row :: row in GraphToInfoOutput(PruneTree(t)).value <==>
      exists x: nat | x < |t| :: !UnderRemoved(t, x) && PartRowOf(t[x].info) == row
  {
    var g := PruneTree(t);
    InfoOutputOfRecorded(g);
    var out := GraphToInfoOutput(g).value;
    forall row
      ensures row in out <==> exists x: nat | x < |t| :: !UnderRemoved(t, x) && PartRowOf(t[x].info) == row
    {
      if exists x | x in g.order :: PartRowOf(g.attrs[x]) == row {
        var x :| x in g.order && PartRowOf(g.attrs[x]) == row;
        assert x < |t| && !UnderRemoved(t, x) && PartRowOf(t[x].info) == row;
      }
      if exists x: nat | x < |t| :: !UnderRemoved(t, x) && PartRowOf(t[x].info) == row {
        var x: nat :| x < |t| && !UnderRemoved(t, x) && PartRowOf(t[x].info) == row;
        assert x in g.order && PartRowOf(g.attrs[x]) == row;
      }
    }
  }
}
