/** The ownership tree of component instances. Nodes are handed consecutive
    ids from 0, so the arena is a sequence holding node `k` at index `k`;
    children and parents are lists of ids. */
module Tree {
  import opened Wrappers
  import opened Seqs

  /** The attributes a node carries (everything but its id and links). */
  datatype Info = Info(
    desc: string,
    pn: string,
    sn: Option<string>,
    wo: Option<string>,
    traceId: string,
    testSn: Option<string>,
    status: Option<string>)

  datatype TreeNode = TreeNode(id: nat, info: Info, children: seq<nat>, parents: seq<nat>)

  type Tree = seq<TreeNode>

  /** A freshly constructed node: no children and no parents yet. */
  function NewNode(id: nat, info: Info): TreeNode {
    TreeNode(id, info, [], [])
  }

  /** `add_child`: the child id goes to the end of the parent's children and
      the parent id to the end of the child's parents; nothing else changes. */
  function AddChild(t: Tree, p: nat, c: nat): (r: Tree)
    requires p < |t| && c < |t|
    ensures |r| == |t|
    ensures r[p].children == t[p].children + [c]
    ensures r[c].parents == t[c].parents + [p]
    ensures r[p].id == t[p].id && r[p].info == t[p].info
    ensures r[c].id == t[c].id && r[c].info == t[c].info
    ensures p != c ==> r[p].parents == t[p].parents && r[c].children == t[c].children
    ensures forall k | 0 <= k < |t| && k != p && k != c :: r[k] == t[k]
  {
    var t1 := t[p := t[p].(children := t[p].children + [c])];
    t1[c := t1[c].(parents := t1[c].parents + [p])]
  }

  /** Every id in `ids` names a node of `t`. */
  predicate InArena(ids: seq<nat>, t: Tree) {
    forall i | 0 <= i < |ids| :: ids[i] < |t|
  }

  /** Every child id names a node with a larger id than its parent. */
  predicate Downward(t: Tree) {
    forall k, c | 0 <= k < |t| && c in t[k].children :: k < c < |t|
  }

  /** Node `k` is listed by the single parent it records. */
  predicate ParentLinked(t: Tree, k: nat)
    requires k < |t|
  {
    |t[k].parents| == 1 && t[k].parents[0] < |t| && k in t[t[k].parents[0]].children
  }

  /** The arena shape the builder maintains: root 0 without parents, every
      node stored under its own id, every child owned by exactly the node
      that lists it, every other node listed by its single parent. */
  ghost predicate WellFormed(t: Tree) {
    && |t| > 0
    && t[0].parents == []
    && (forall k | 0 <= k < |t| :: t[k].id == k)
    && Downward(t)
    && (forall k, c | 0 <= k < |t| && c in t[k].children :: t[c].parents == [k])
    && (forall k {:trigger ParentLinked(t, k)} | 0 < k < |t| :: ParentLinked(t, k))
  }

  /** The ids of `k` and of all its descendants. */
  function SubtreeIds(t: Tree, k: nat): (r: set<nat>)
    requires Downward(t) && k < |t|
    ensures k in r
    ensures forall d | d in r :: k <= d < |t|
    decreases |t| - k
  {
    {k} + (set c, d | c in t[k].children && d in SubtreeIds(t, c) :: d)
  }

  /** A child of a node in the subtree of `a` is in the subtree of `a`. */
  lemma {:induction false} SubtreeClosed(t: Tree, a: nat, p: nat, c: nat)
    requires Downward(t) && a < |t|
    requires p in SubtreeIds(t, a) && c in t[p].children
    ensures c in SubtreeIds(t, a)
    decreases |t| - a
  {
    if p == a {
      assert c in SubtreeIds(t, c);
    } else {
      var c0 :| c0 in t[a].children && p in SubtreeIds(t, c0);
      SubtreeClosed(t, c0, p, c);
      assert c in SubtreeIds(t, c0);
    }
  }

  /** In a well-formed arena every node hangs below the root. */
  lemma {:induction false} AllBelowRoot(t: Tree)
    requires WellFormed(t)
    ensures SubtreeIds(t, 0) == Range(0, |t|)
  {
    forall k | 0 <= k < |t|
      ensures k in SubtreeIds(t, 0)
    {
      BelowRoot(t, k);
    }
  }

  lemma {:induction false} BelowRoot(t: Tree, k: nat)
    requires WellFormed(t) && k < |t|
    ensures k in SubtreeIds(t, 0)
    decreases k
  {
    if k != 0 {
      assert ParentLinked(t, k);
      var p := t[k].parents[0];
      assert p < k;
      BelowRoot(t, p);
      SubtreeClosed(t, 0, p, k);
    }
  }
}
