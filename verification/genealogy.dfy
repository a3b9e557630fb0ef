/** The whole construction of `add_to_table` up to the graph: the beginning
    nodes linked below the satellite, then levels added until the frontier
    is empty. */
module Genealogy {
  import opened Wrappers
  import opened Seqs
  import opened Rows
  import opened Tree
  import opened Builder
  import opened Chains

  /** Node `k` has one child per row selected for it, in row order, each
      built from that row and each a node of its own: the child ids rise.
      A node no row names as a parent has none. */
  predicate Expanded(t: Tree, k: nat, rows: seq<Row>)
    requires k < |t|
  {
    var cs, cr := t[k].children, ChildRows(rows, t[k].info);
    && |cs| == |cr|
    && Increasing(cs)
    && forall i | 0 <= i < |cs| :: cs[i] < |t| && t[cs[i]].info == ChildInfo(cr[i])
  }

  /** The invariant of the loop in `add_to_table`: the frontier lists, in id
      order, non-root nodes that have no children yet, and every other
      non-root node already has all of its children. */
  ghost predicate Pending(t: Tree, F: seq<nat>, rows: seq<Row>) {
    && WellFormed(t)
    && Increasing(F)
    && (forall i | 0 <= i < |F| :: 0 < F[i] < |t|)
    && (forall k | 0 < k < |t| && k in F :: t[k].children == [])
    && (forall k | 0 < k < |t| && k !in F :: Expanded(t, k, rows))
  }

  /** The ids are handed out breadth first: every child of a node comes
      before every child of a node with a higher id. */
  ghost predicate BreadthFirst(t: Tree) {
    forall k, k', a, b | 0 <= k < k' < |t| && a in t[k].children && b in t[k'].children :: a < b
  }

  /** Every node that has children comes before every frontier node. */
  ghost predicate ParentsFirst(t: Tree, F: seq<nat>) {
    forall k, i | 0 <= k < |t| && 0 <= i < |F| && t[k].children != [] :: k < F[i]
  }

  /** The finished tree: well formed, numbered breadth first, every non-root
      node fully expanded. */
  ghost predicate Complete(t: Tree, rows: seq<Row>) {
    && WellFormed(t)
    && BreadthFirst(t)
    && forall k | 0 < k < |t| :: Expanded(t, k, rows)
  }

  /** `r` extends `t`: no node is lost, the root is untouched and every old
      node keeps its attributes. */
  ghost predicate Keeps(t: Tree, r: Tree) {
    && |t| <= |r|
    && (|t| > 0 ==> r[0] == t[0])
    && forall k | 0 <= k < |t| :: r[k].info == t[k].info
  }

  lemma KeepsTrans(a: Tree, b: Tree, c: Tree)
    requires Keeps(a, b) && Keeps(b, c)
    ensures Keeps(a, c)
  {
  }

  /** A node no row names as a parent gets no child rows. */
  lemma LeafRows(info: Info, rows: seq<Row>)
    requires !ContinueTree(info, rows)
    ensures ChildRows(rows, info) == []
  {
    ContinueTreeMatching(info, rows);
  }

  /** The next frontier names nodes of the grown arena. */
  lemma NextInArena(t: Tree, F: seq<nat>, rows: seq<Row>)
    requires InArena(F, t)
    ensures InArena(AddNextLevel(F, rows, t).next, AddNextLevel(F, rows, t).tree)
  {
    CandidatesSpec(RowsOf(LevelRows(t, F, rows)), |t|, rows);
    var nx := AddNextLevel(F, rows, t).next;
    assert forall i | 0 <= i < |nx| :: nx[i] in nx;
  }

  /** One pass of the loop keeps the invariant, keeps the root and the
      attributes of every existing node. */
  lemma GrowStep(t: Tree, F: seq<nat>, rows: seq<Row>)
    requires Pending(t, F, rows)
    ensures InArena(F, t)
    ensures Pending(AddNextLevel(F, rows, t).tree, AddNextLevel(F, rows, t).next, rows)
    ensures Keeps(t, AddNextLevel(F, rows, t).tree)
  {
    var L := LevelRows(t, F, rows);
    var u, nx := AddNextLevel(F, rows, t).tree, AddNextLevel(F, rows, t).next;
    LevelRowsOwners(t, F, rows);
    assert OwnersBelow(L, |t|);
    PlacedWellFormed(t, L);
    CandidatesSpec(RowsOf(L), |t|, rows);
    assert forall i | 0 <= i < |nx| :: nx[i] in nx;
    LevelOwned(t, F, rows, 0, |t|);
    PlacedOld(t, L, 0);
    assert u[0].children == t[0].children + [];
    forall k | 0 <= k < |t|
      ensures u[k].info == t[k].info
    {
      PlacedOld(t, L, k);
    }
    forall k | 0 < k < |u| && k in nx
      ensures u[k].children == []
    {
      NewNodeState(t, F, rows, k);
    }
    GrowStepExpanded(t, F, rows);
  }

  /** After a pass, every non-root node off the new frontier has all of its
      children: old frontier nodes were just expanded, new leaves have none
      to get, and the rest were expanded before. */
  lemma GrowStepExpanded(t: Tree, F: seq<nat>, rows: seq<Row>)
    requires Pending(t, F, rows)
    ensures InArena(F, t)
    ensures var lv := AddNextLevel(F, rows, t);
      forall k | 0 < k < |lv.tree| && k !in lv.next :: Expanded(lv.tree, k, rows)
  {
    var u, nx := AddNextLevel(F, rows, t).tree, AddNextLevel(F, rows, t).next;
    forall k | 0 < k < |u| && k !in nx
      ensures Expanded(u, k, rows)
    {
      if k >= |t| {
        NewNodeState(t, F, rows, k);
        LeafRows(u[k].info, rows);
      } else if k in F {
        FrontierExpanded(t, F, rows, k);
      } else {
        DoneStaysExpanded(t, F, rows, k);
      }
    }
  }

  /** A node created by a pass has no children yet, and it is on the next
      frontier exactly when some row names it as a parent. */
  lemma NewNodeState(t: Tree, F: seq<nat>, rows: seq<Row>, k: nat)
    requires InArena(F, t) && |t| <= k < |AddNextLevel(F, rows, t).tree|
    ensures AddNextLevel(F, rows, t).tree[k].children == []
    ensures k in AddNextLevel(F, rows, t).next <==> ContinueTree(AddNextLevel(F, rows, t).tree[k].info, rows)
  {
    var L := LevelRows(t, F, rows);
    NewNodePlaced(t, L, k);
    NewNodeCandidate(t, RowsOf(L), rows, k);
  }

  lemma NewNodePlaced(t: Tree, L: seq<(nat, Row)>, k: nat)
    requires |t| <= k < |t| + |L|
    ensures Placed(t, L)[k].children == [] && Placed(t, L)[k].info == ChildInfo(RowsOf(L)[k - |t|])
  {
    PlacedNew(t, L, k);
  }

  lemma NewNodeCandidate(t: Tree, P: seq<Row>, rows: seq<Row>, k: nat)
    requires |t| <= k < |t| + |P|
    ensures k in Candidates(P, |t|, rows) <==> ContinueTree(ChildInfo(P[k - |t|]), rows)
  {
    CandidatesSpec(P, |t|, rows);
  }

  /** A frontier node receives one child per row selected for it. */
  lemma FrontierExpanded(t: Tree, F: seq<nat>, rows: seq<Row>, k: nat)
    requires InArena(F, t) && Distinct(F) && k in F && k < |t| && t[k].children == []
    ensures Expanded(AddNextLevel(F, rows, t).tree, k, rows)
  {
    var L := LevelRows(t, F, rows);
    LevelOwned(t, F, rows, k, |t|);
    PlacedOld(t, L, k);
    PlacedNewInfo(t, L);
    OwnerExpanded(t, L, Placed(t, L), k, rows);
  }

  /** The new nodes of a placement carry their entries' rows. */
  lemma PlacedNewInfo(t: Tree, L: seq<(nat, Row)>)
    ensures forall c | |t| <= c < |Placed(t, L)| :: Placed(t, L)[c].info == ChildInfo(L[c - |t|].1)
  {
  }

  /** A node that had no children and now owns exactly its selected rows,
      each built into a new node, is expanded. */
  lemma OwnerExpanded(t: Tree, L: seq<(nat, Row)>, u: Tree, k: nat, rows: seq<Row>)
    requires k < |t| && |u| == |t| + |L|
    requires u[k].info == t[k].info && u[k].children == [] + OwnedBy(L, k, |t|)
    requires OwnedRows(L, k) == ChildRows(rows, t[k].info)
    requires forall c | |t| <= c < |u| :: u[c].info == ChildInfo(L[c - |t|].1)
    ensures Expanded(u, k, rows)
  {
    var n := |t|;
    OwnedByRows(L, k, n);
    OwnedByIncreasing(L, k, n);
    var cs, cr := OwnedBy(L, k, n), OwnedRows(L, k);
    assert u[k].children == cs;
    forall i | 0 <= i < |cs|
      ensures u[cs[i]].info == ChildInfo(cr[i])
    {
      assert L[cs[i] - n] == (k, cr[i]);
    }
  }

  /** A node off the frontier keeps its children and their attributes. */
  lemma DoneStaysExpanded(t: Tree, F: seq<nat>, rows: seq<Row>, k: nat)
    requires InArena(F, t) && Distinct(F) && k < |t| && k !in F && Expanded(t, k, rows)
    ensures Expanded(AddNextLevel(F, rows, t).tree, k, rows)
  {
    var L, u := LevelRows(t, F, rows), AddNextLevel(F, rows, t).tree;
    LevelOwned(t, F, rows, k, |t|);
    PlacedOld(t, L, k);
    assert u[k].children == t[k].children + [];
    forall i | 0 <= i < |u[k].children|
      ensures u[u[k].children[i]].info == t[t[k].children[i]].info
    {
      PlacedOld(t, L, t[k].children[i]);
    }
  }

  /** A pass keeps the breadth-first numbering: the children it adds get
      ids above every existing id, frontier node by frontier node in
      increasing order, and no node that had children is on the frontier. */
  lemma LayeredStep(t: Tree, F: seq<nat>, rows: seq<Row>)
    requires Pending(t, F, rows) && BreadthFirst(t) && ParentsFirst(t, F)
    ensures InArena(F, t)
    ensures var lv := AddNextLevel(F, rows, t);
      BreadthFirst(lv.tree) && ParentsFirst(lv.tree, lv.next)
  {
    var L := LevelRows(t, F, rows);
    LevelRowsMonotone(t, F, rows);
    LevelRowsOwners(t, F, rows);
    forall i | 0 <= i < |F|
      ensures t[F[i]].children == []
    {
      assert F[i] in F;
    }
    BreadthFirstPlaced(t, F, L);
    ParentsFirstPlaced(t, L, rows);
  }

  lemma BreadthFirstPlaced(t: Tree, F: seq<nat>, L: seq<(nat, Row)>)
    requires Downward(t) && InArena(F, t) && BreadthFirst(t) && ParentsFirst(t, F)
    requires forall i | 0 <= i < |F| :: t[F[i]].children == []
    requires forall i | 0 <= i < |L| :: L[i].0 in F
    requires forall i, j | 0 <= i < |L| && 0 <= j < |L| :: L[i].0 < L[j].0 ==> i < j
    ensures BreadthFirst(Placed(t, L))
  {
    var u, n := Placed(t, L), |t|;
    forall k, k', a, b | 0 <= k < k' < |u| && a in u[k].children && b in u[k'].children
      ensures a < b
    {
      if k' >= n {
        PlacedNew(t, L, k');
      } else {
        PlacedOld(t, L, k);
        PlacedOld(t, L, k');
        OwnedByMember(L, k, n);
        OwnedByMember(L, k', n);
        var ok, ok' := OwnedBy(L, k, n), OwnedBy(L, k', n);
        assert a in t[k].children || a in ok;
        assert b in t[k'].children || b in ok';
      }
    }
  }

  lemma ParentsFirstPlaced(t: Tree, L: seq<(nat, Row)>, rows: seq<Row>)
    ensures ParentsFirst(Placed(t, L), Candidates(RowsOf(L), |t|, rows))
  {
    var u, nx := Placed(t, L), Candidates(RowsOf(L), |t|, rows);
    forall k, i | 0 <= k < |u| && 0 <= i < |nx| && u[k].children != []
      ensures k < nx[i]
    {
      CandidatesMember(RowsOf(L), |t|, rows, nx[i]);
      if k >= |t| {
        PlacedNew(t, L, k);
      }
    }
  }

  /** Every frontier node carries the attributes a descent of `d` rows
      ends in. */
  ghost predicate Deep(t: Tree, F: seq<nat>, rows: seq<Row>, d: nat) {
    forall i | 0 <= i < |F| :: F[i] < |t| && ReachedBy(rows, t[F[i]].info, d)
  }

  /** A pass takes the frontier one row deeper: each new frontier node is
      built from a row selected for a node of the old frontier. */
  lemma DeepStep(t: Tree, F: seq<nat>, rows: seq<Row>, d: nat)
    requires InArena(F, t) && Deep(t, F, rows, d)
    ensures var lv := AddNextLevel(F, rows, t); Deep(lv.tree, lv.next, rows, d + 1)
  {
    LevelRowsFrom(t, F, rows);
    DeepPlaced(t, F, rows, d, LevelRows(t, F, rows));
  }

  lemma DeepPlaced(t: Tree, F: seq<nat>, rows: seq<Row>, d: nat, L: seq<(nat, Row)>)
    requires InArena(F, t) && Deep(t, F, rows, d)
    requires forall i | 0 <= i < |L| :: FromFrontier(L[i], t, F, rows)
    ensures Deep(Placed(t, L), Candidates(RowsOf(L), |t|, rows), rows, d + 1)
  {
    var u, nx := Placed(t, L), Candidates(RowsOf(L), |t|, rows);
    forall i | 0 <= i < |nx|
      ensures nx[i] < |u| && ReachedBy(rows, u[nx[i]].info, d + 1)
    {
      var k := nx[i];
      CandidatesMember(RowsOf(L), |t|, rows, k);
      PlacedNew(t, L, k);
      var e := L[k - |t|];
      assert FromFrontier(e, t, F, rows);
      var j :| 0 <= j < |F| && e.0 == F[j] && e.1 in ChildRows(rows, t[F[j]].info);
      assert ReachedBy(rows, t[F[j]].info, d);
      ReachedByExtend(rows, t[F[j]].info, e.1, d);
    }
  }

  /** A non-empty frontier at depth `d` witnesses a descent of `d` rows. */
  lemma DeepDescent(t: Tree, F: seq<nat>, rows: seq<Row>, d: nat)
    requires F != [] && Deep(t, F, rows, d)
    ensures HasDescent(rows, d)
  {
    assert ReachedBy(rows, t[F[0]].info, d);
  }

  /** `while len(current_level) != 0`: levels are added until the frontier
      is empty. The source loops for ever on a table whose parent links
      form a cycle; here each level costs one unit of fuel. Running out
      leaves a frontier at the end of a descent `depth + fuel` rows long. */
  method Grow(t0: Tree, F0: seq<nat>, rows: seq<Row>, fuel: nat, ghost depth: nat) returns (r: Result<Tree, BuildError>)
    requires Pending(t0, F0, rows) && Deep(t0, F0, rows, depth)
    requires BreadthFirst(t0) && ParentsFirst(t0, F0)
    ensures r.Failure? ==> r.error == DepthExhausted && HasDescent(rows, depth + fuel)
    ensures r.Success? ==> Complete(r.value, rows) && Keeps(t0, r.value)
  {
    var t, F, left := t0, F0, fuel;
    ghost var d := depth;
    while F != []
      invariant Pending(t, F, rows) && Keeps(t0, t)
      invariant d + left == depth + fuel && Deep(t, F, rows, d)
      invariant BreadthFirst(t) && ParentsFirst(t, F)
      decreases left
    {
      if left == 0 {
        DeepDescent(t, F, rows, d);
        return Failure(DepthExhausted);
      }
      GrowStep(t, F, rows);
      DeepStep(t, F, rows, d);
      LayeredStep(t, F, rows);
      var lv := AddNextLevel(F, rows, t);
      KeepsTrans(t0, t, lv.tree);
      t, F, left, d := lv.tree, lv.next, left - 1, d + 1;
    }
    return Success(t);
  }

  /** `for node in beginning_nodes[1:]: root.add_child(node)`, for any
      parent `p` and list of children `ks`. */
  function LinkAll(t: Tree, p: nat, ks: seq<nat>): (r: Tree)
    requires p < |t| && InArena(ks, t)
    ensures |r| == |t|
    ensures r[p].children == t[p].children + ks
    ensures forall k | 0 <= k < |t| :: r[k].id == t[k].id && r[k].info == t[k].info
    ensures forall k | 0 <= k < |t| && k != p :: r[k].children == t[k].children
    ensures Distinct(ks) && p !in ks ==>
      forall k | 0 <= k < |t| && k != p :: r[k].parents == t[k].parents + (if k in ks then [p] else [])
    ensures p !in ks ==> r[p].parents == t[p].parents
    decreases |ks|
  {
    if ks == [] then t
    else
      var t1 := AddChild(t, p, ks[0]);
      var r := LinkAll(t1, p, ks[1..]);
      assert [ks[0]] + ks[1..] == ks;
      if Distinct(ks) then DistinctTail(ks); r else r
  }

  /** The arena before the first level: the satellite root with the
      thruster assemblies as its children, in row order. */
  function Beginning(rows: seq<Row>, sxid: string): (r: Result<Tree, BuildError>)
    ensures r.Failure? <==> BeginningRows(rows) == []
    ensures r.Failure? ==> r.error == RootNotFound
    ensures r.Success? ==>
      var b := BeginningRows(rows);
      && |r.value| == |b| + 1
      && r.value[0] == TreeNode(0, RootInfo(b[0], sxid), Interval(1, |b| + 1), [])
      && (forall k | 0 < k < |r.value| :: r.value[k] == TreeNode(k, ChildInfo(b[k - 1]), [], [0]))
  {
    FilterEmpty(IsBeginningRow, rows);
    var begin :- FindBeginningNodes(rows, sxid);
    var nodes, b := begin.0, BeginningRows(rows);
    var ks := Interval(1, |nodes|);
    IntervalMembership(1, |nodes|);
    var r := LinkAll(nodes, 0, ks);
    forall k | 0 < k < |nodes|
      ensures r[k] == TreeNode(k, ChildInfo(b[k - 1]), [], [0])
    {
      assert nodes[(k - 1) + 1] == NewNode(k, ChildInfo(b[k - 1]));
    }
    Success(r)
  }

  /** The arena before the first level satisfies the loop invariant with
      all assemblies on the frontier. */
  lemma BeginningPending(t: Tree, rows: seq<Row>)
    requires |t| > 0 && t[0].id == 0 && t[0].parents == [] && t[0].children == Interval(1, |t|)
    requires forall k | 0 < k < |t| :: t[k].id == k && t[k].children == [] && t[k].parents == [0]
    ensures Pending(t, Interval(1, |t|), rows)
  {
    IntervalMembership(1, |t|);
    assert forall k | 0 < k < |t| :: ParentLinked(t, k);
  }

  /** Each beginning node is built from a row of the table: a descent of
      one row. */
  lemma BeginningDeep(t: Tree, rows: seq<Row>)
    requires var b := BeginningRows(rows);
      |t| == |b| + 1 && forall k | 0 < k < |t| :: t[k].info == ChildInfo(b[k - 1])
    ensures Deep(t, Interval(1, |t|), rows, 1)
  {
    var b, F := BeginningRows(rows), Interval(1, |t|);
    FilterMembership(IsBeginningRow, rows);
    forall i | 0 <= i < |F|
      ensures F[i] < |t| && ReachedBy(rows, t[F[i]].info, 1)
    {
      assert F[i] == i + 1 && b[i] in b;
      assert Chain(rows, [b[i]]);
    }
  }

  /** The arena before the first level meets the loop's requirements. */
  lemma BeginningReadyPending(rows: seq<Row>, sxid: string)
    requires Beginning(rows, sxid).Success?
    ensures var t := Beginning(rows, sxid).value; Pending(t, Interval(1, |t|), rows)
  {
    BeginningPending(Beginning(rows, sxid).value, rows);
  }

  lemma BeginningReadyLayered(rows: seq<Row>, sxid: string)
    requires Beginning(rows, sxid).Success?
    ensures var t := Beginning(rows, sxid).value;
      BreadthFirst(t) && ParentsFirst(t, Interval(1, |t|))
  {
    var t := Beginning(rows, sxid).value;
    assert forall k | 0 < k < |t| :: t[k].children == [];
  }

  lemma BeginningReadyDeep(rows: seq<Row>, sxid: string)
    requires Beginning(rows, sxid).Success?
    ensures var t := Beginning(rows, sxid).value; Deep(t, Interval(1, |t|), rows, 1)
  {
    BeginningDeep(Beginning(rows, sxid).value, rows);
  }

  /** Growing the beginning arena keeps the root and the beginning nodes. */
  lemma GrownFromBeginning(t: Tree, u: Tree, b: seq<Row>, sxid: string)
    requires |b| > 0 && |t| == |b| + 1
    requires t[0] == TreeNode(0, RootInfo(b[0], sxid), Interval(1, |b| + 1), [])
    requires forall k | 0 < k < |t| :: t[k] == TreeNode(k, ChildInfo(b[k - 1]), [], [0])
    requires Keeps(t, u)
    ensures |u| > |b| && u[0] == t[0]
    ensures forall i | 0 <= i < |b| :: u[i + 1].info == ChildInfo(b[i])
  {
    forall i | 0 <= i < |b|
      ensures u[i + 1].info == ChildInfo(b[i])
    {
      assert t[i + 1] == TreeNode(i + 1, ChildInfo(b[i]), [], [0]);
    }
  }

  /** `add_to_table` up to the graph: the beginning nodes, then levels until
      the frontier is empty (or the fuel runs out). */
  method BuildTree(rows: seq<Row>, sxid: string, fuel: nat) returns (r: Result<Tree, BuildError>)
    ensures r.Failure? && r.error == RootNotFound <==> BeginningRows(rows) == []
    ensures r.Success? ==>
      var b := BeginningRows(rows);
      && |b| > 0
      && Complete(r.value, rows)
      && |r.value| > |b|
      && r.value[0] == TreeNode(0, RootInfo(b[0], sxid), Interval(1, |b| + 1), [])
      && (forall i | 0 <= i < |b| :: r.value[i + 1].info == ChildInfo(b[i]))
    ensures r.Failure? && r.error != RootNotFound ==> r.error == DepthExhausted && HasDescent(rows, fuel + 1)
    ensures BeginningRows(rows) != [] && Acyclic(rows) && fuel >= |rows| ==> r.Success?
  {
    var begin := Beginning(rows, sxid);
    if begin.Failure? {
      return Failure(begin.error);
    }
    var t := begin.value;
    BeginningReadyPending(rows, sxid);
    BeginningReadyDeep(rows, sxid);
    BeginningReadyLayered(rows, sxid);
    r := Grow(t, Interval(1, |t|), rows, fuel, 1);
    if r.Success? {
      GrownFromBeginning(t, r.value, BeginningRows(rows), sxid);
    } else if Acyclic(rows) && fuel >= |rows| {
      LongDescentCycles(rows, fuel + 1);
    }
  }
}
