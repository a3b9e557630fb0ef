/** Breadth-first construction of the ownership tree from the edge table:
    the satellite root and the thruster assemblies first, then one level of
    children at a time, ids handed out from a counter threaded through. */
module Builder {
  import opened Wrappers
  import opened Seqs
  import opened Text
  import opened Rows
  import opened Tree

  datatype BuildError =
    | RootNotFound    // no satellite -> thruster assembly row: `.iloc[0]` fails
    | DepthExhausted  // the level budget ran out before the frontier emptied

  /** The state after expanding part of a level: the arena and the next
      frontier collected so far. The source threads an id counter through;
      it always equals the number of nodes created, the arena's length. */
  datatype Level = Level(tree: Tree, next: seq<nat>)

  /** The attributes a node built from a row takes from the row's child side. */
  function ChildInfo(r: Row): Info {
    Info(r.childDesc, r.childPn, Some(r.childSn), Some(r.woId), r.childTraceId, Some(r.testSn), Some(r.status))
  }

  /** A row that installs a thruster assembly directly into the satellite. */
  predicate IsBeginningRow(r: Row) {
    Contains(r.childDesc, "THRUSTER ASSEMBLY") && Contains(r.parentDesc, "STARLINK SATELLITE")
  }

  function BeginningRows(rows: seq<Row>): seq<Row> {
    Filter(IsBeginningRow, rows)
  }

  /** The root built from the first beginning row: parent side, serial = sxid. */
  function RootInfo(b: Row, sxid: string): Info {
    Info(b.parentDesc, b.parentPn, Some(sxid), None, b.parentTraceId, None, None)
  }

  /** One fresh node per row, numbered consecutively from `first`. */
  function AssemblyNodes(b: seq<Row>, first: nat): (r: seq<TreeNode>)
    ensures |r| == |b|
    ensures forall i | 0 <= i < |b| :: r[i] == NewNode(first + i, ChildInfo(b[i]))
  {
    seq(|b|, i requires 0 <= i < |b| => NewNode(first + i, ChildInfo(b[i])))
  }

  /** `find_beginning_nodes`: node 0 is the satellite, node i+1 the i-th
      thruster-assembly row; the counter returned is one past the last id. */
  function FindBeginningNodes(rows: seq<Row>, sxid: string): (r: Result<(seq<TreeNode>, nat), BuildError>)
    ensures r.Failure? <==> forall i | 0 <= i < |rows| :: !IsBeginningRow(rows[i])
    ensures r.Failure? ==> r.error == RootNotFound
    ensures r.Success? ==>
      var b := BeginningRows(rows);
      && |b| > 0
      && r.value.1 == |r.value.0| == |b| + 1
      && r.value.0[0] == NewNode(0, RootInfo(b[0], sxid))
      && forall i | 0 <= i < |b| :: r.value.0[i + 1] == NewNode(i + 1, ChildInfo(b[i]))
  {
    var b := BeginningRows(rows);
    FilterEmpty(IsBeginningRow, rows);
    if |b| == 0 then
      Failure(RootNotFound)
    else
      var nodes := [NewNode(0, RootInfo(b[0], sxid))] + AssemblyNodes(b, 1);
      Success((nodes, |b| + 1))
  }

  /** Rows whose parent key (part number, description, trace id) is the node's. */
  predicate Matches(r: Row, info: Info) {
    r.parentPn == info.pn && r.parentDesc == info.desc && r.parentTraceId == info.traceId
  }

  function MatchingRows(rows: seq<Row>, info: Info): seq<Row> {
    Filter((r: Row) => Matches(r, info), rows)
  }

  /** The rows a node's children are built from: matching and not self-loops. */
  function ChildRows(rows: seq<Row>, info: Info): seq<Row> {
    Filter(IsProper, MatchingRows(rows, info))
  }

  /** A row is selected for a node exactly when it is a row of the table,
      names the node's key as its parent and is not a self-loop. */
  lemma ChildRowsMembership(rows: seq<Row>, info: Info)
    ensures forall x :: x in ChildRows(rows, info) <==> x in rows && Matches(x, info) && IsProper(x)
  {
    FilterMembership((r: Row) => Matches(r, info), rows);
    FilterMembership(IsProper, MatchingRows(rows, info));
  }

  /** `continue_tree`: some row names the node's key as its parent. */
  predicate ContinueTree(info: Info, rows: seq<Row>) {
    exists i | 0 <= i < |rows| :: Matches(rows[i], info)
  }

  /** Equivalently, the rows selected for the node are not empty. */
  lemma ContinueTreeMatching(info: Info, rows: seq<Row>)
    ensures ContinueTree(info, rows) <==> MatchingRows(rows, info) != []
  {
    var m := MatchingRows(rows, info);
    FilterMembership((r: Row) => Matches(r, info), rows);
    assert forall i | 0 <= i < |rows| && Matches(rows[i], info) :: rows[i] in m;
    assert m != [] ==> m[0] in rows;
  }

  /* ---------------------------------------------------------------------
     Placement: what creating and attaching a run of nodes does to the
     arena, as one closed form. An entry (p, r) of a placement list stands
     for a new node built from row r and attached below node p.
     --------------------------------------------------------------------- */

  /** Pairs every row with the id of the node it hangs below. */
  function Tag(p: nat, rs: seq<Row>): (r: seq<(nat, Row)>)
    ensures |r| == |rs|
    ensures forall i | 0 <= i < |rs| :: r[i] == (p, rs[i])
  {
    seq(|rs|, i requires 0 <= i < |rs| => (p, rs[i]))
  }

  /** The rows of a placement list. */
  function RowsOf(L: seq<(nat, Row)>): (r: seq<Row>)
    ensures |r| == |L|
    ensures forall i | 0 <= i < |L| :: r[i] == L[i].1
  {
    seq(|L|, i requires 0 <= i < |L| => L[i].1)
  }

  lemma RowsOfTag(p: nat, rs: seq<Row>, B: seq<(nat, Row)>)
    ensures RowsOf(Tag(p, rs) + B) == rs + RowsOf(B)
  {
    var L := Tag(p, rs) + B;
    forall i | 0 <= i < |L|
      ensures RowsOf(L)[i] == (rs + RowsOf(B))[i]
    {
      if i >= |rs| {
        assert L[i] == B[i - |rs|];
      }
    }
  }

  /** Every entry hangs below one of the first `m` nodes. */
  predicate OwnersBelow(L: seq<(nat, Row)>, m: nat) {
    forall i | 0 <= i < |L| :: L[i].0 < m
  }

  /** The ids, counting from `n`, that the entries owned by `k` receive. */
  function OwnedBy(L: seq<(nat, Row)>, k: nat, n: nat): seq<nat>
    decreases |L|
  {
    if L == [] then []
    else (if L[0].0 == k then [n] else []) + OwnedBy(L[1..], k, n + 1)
  }

  /** The ids owned by `k` rise: they are handed out in entry order. */
  lemma {:induction false} OwnedByIncreasing(L: seq<(nat, Row)>, k: nat, n: nat)
    ensures Increasing(OwnedBy(L, k, n))
    decreases |L|
  {
    if L != [] {
      OwnedByIncreasing(L[1..], k, n + 1);
      OwnedByMember(L[1..], k, n + 1);
      var here: seq<int> := if L[0].0 == k then [n] else [];
      var rest := OwnedBy(L[1..], k, n + 1);
      assert forall j | 0 <= j < |rest| :: rest[j] in rest;
      IncreasingConcat(here, rest);
    }
  }

  /** The rows of the entries owned by `k`, in order. */
  function OwnedRows(L: seq<(nat, Row)>, k: nat): seq<Row>
    decreases |L|
  {
    if L == [] then []
    else (if L[0].0 == k then [L[0].1] else []) + OwnedRows(L[1..], k)
  }

  /** An id is owned by `k` exactly when its entry names `k`. */
  lemma {:induction false} OwnedByMember(L: seq<(nat, Row)>, k: nat, n: nat)
    ensures forall x :: x in OwnedBy(L, k, n) <==> n <= x < n + |L| && L[x - n].0 == k
    decreases |L|
  {
    if L != [] {
      OwnedByMember(L[1..], k, n + 1);
      forall i | 1 <= i < |L|
        ensures L[i] == L[1..][i - 1]
      {
      }
    }
  }

  /** The i-th id owned by `k` belongs to the entry carrying the i-th row
      owned by `k`. */
  lemma {:induction false} OwnedByRows(L: seq<(nat, Row)>, k: nat, n: nat)
    ensures |OwnedBy(L, k, n)| == |OwnedRows(L, k)|
    ensures forall i | 0 <= i < |OwnedBy(L, k, n)| ::
      n <= OwnedBy(L, k, n)[i] < n + |L| && L[OwnedBy(L, k, n)[i] - n] == (k, OwnedRows(L, k)[i])
    decreases |L|
  {
    if L != [] {
      OwnedByRows(L[1..], k, n + 1);
      var B, R := OwnedBy(L[1..], k, n + 1), OwnedRows(L[1..], k);
      var d := if L[0].0 == k then 1 else 0;
      forall i | d <= i < |OwnedBy(L, k, n)|
        ensures OwnedBy(L, k, n)[i] == B[i - d] && OwnedRows(L, k)[i] == R[i - d]
        ensures L[B[i - d] - n] == L[1..][B[i - d] - (n + 1)]
      {
      }
    }
  }

  lemma {:induction false} OwnedNone(L: seq<(nat, Row)>, k: nat, n: nat)
    requires forall i | 0 <= i < |L| :: L[i].0 != k
    ensures OwnedBy(L, k, n) == [] && OwnedRows(L, k) == []
    decreases |L|
  {
    if L != [] {
      OwnedNone(L[1..], k, n + 1);
    }
  }

  lemma OwnedConcat(A: seq<(nat, Row)>, B: seq<(nat, Row)>, k: nat, n: nat)
    ensures OwnedBy(A + B, k, n) == OwnedBy(A, k, n) + OwnedBy(B, k, n + |A|)
    ensures OwnedRows(A + B, k) == OwnedRows(A, k) + OwnedRows(B, k)
  {
    OwnedByConcat(A, B, k, n);
    OwnedRowsConcat(A, B, k);
  }

  lemma {:induction false} OwnedByConcat(A: seq<(nat, Row)>, B: seq<(nat, Row)>, k: nat, n: nat)
    ensures OwnedBy(A + B, k, n) == OwnedBy(A, k, n) + OwnedBy(B, k, n + |A|)
    decreases |A|
  {
    if A == [] {
      assert A + B == B;
    } else {
      assert (A + B)[0] == A[0] && (A + B)[1..] == A[1..] + B;
      OwnedByConcat(A[1..], B, k, n + 1);
      var h: seq<nat> := if A[0].0 == k then [n] else [];
      var X, Y := OwnedBy(A[1..], k, n + 1), OwnedBy(B, k, n + |A|);
      assert h + (X + Y) == (h + X) + Y;
    }
  }

  lemma {:induction false} OwnedRowsConcat(A: seq<(nat, Row)>, B: seq<(nat, Row)>, k: nat)
    ensures OwnedRows(A + B, k) == OwnedRows(A, k) + OwnedRows(B, k)
    decreases |A|
  {
    if A == [] {
      assert A + B == B;
    } else {
      assert (A + B)[0] == A[0] && (A + B)[1..] == A[1..] + B;
      OwnedRowsConcat(A[1..], B, k);
      var h: seq<Row> := if A[0].0 == k then [A[0].1] else [];
      var X, Y := OwnedRows(A[1..], k), OwnedRows(B, k);
      assert h + (X + Y) == (h + X) + Y;
    }
  }

  /** Entries all owned by `p` give `p` the next consecutive ids. */
  lemma {:induction false} OwnedTag(p: nat, P: seq<Row>, n: nat)
    ensures OwnedBy(Tag(p, P), p, n) == Interval(n, n + |P|)
    ensures OwnedRows(Tag(p, P), p) == P
    decreases |P|
  {
    if P != [] {
      assert Tag(p, P)[1..] == Tag(p, P[1..]);
      OwnedTag(p, P[1..], n + 1);
      assert P == [P[0]] + P[1..];
    }
  }

  /** The arena after creating one node per entry, in order, with the next
      free ids, each attached as the last child of its entry's owner. */
  function Placed(t: Tree, L: seq<(nat, Row)>): (r: Tree)
    ensures |r| == |t| + |L|
  {
    seq(|t| + |L|, k requires 0 <= k < |t| + |L| =>
      if k < |t| then t[k].(children := t[k].children + OwnedBy(L, k, |t|))
      else TreeNode(k, ChildInfo(L[k - |t|].1), [], [L[k - |t|].0]))
  }

  /** An old node keeps everything but gains the ids of its entries. */
  lemma PlacedOld(t: Tree, L: seq<(nat, Row)>, k: nat)
    requires k < |t|
    ensures Placed(t, L)[k] == t[k].(children := t[k].children + OwnedBy(L, k, |t|))
  {
  }

  /** A new node is built from its entry's row, below its entry's owner. */
  lemma PlacedNew(t: Tree, L: seq<(nat, Row)>, k: nat)
    requires |t| <= k < |t| + |L|
    ensures Placed(t, L)[k] == TreeNode(k, ChildInfo(L[k - |t|].1), [], [L[k - |t|].0])
  {
  }

  lemma PlacedEmpty(t: Tree)
    ensures Placed(t, []) == t
  {
    forall k | 0 <= k < |t|
      ensures Placed(t, [])[k] == t[k]
    {
      assert t[k].children + [] == t[k].children;
    }
  }

  /** Creating one node and attaching it, as `add_next_level` does per row,
      is a placement of one entry. */
  lemma AttachIsPlaced(t: Tree, p: nat, r: Row)
    requires p < |t|
    ensures AddChild(t + [NewNode(|t|, ChildInfo(r))], p, |t|) == Placed(t, [(p, r)])
  {
    var u := AddChild(t + [NewNode(|t|, ChildInfo(r))], p, |t|);
    var v := Placed(t, [(p, r)]);
    forall k | 0 <= k < |t|
      ensures u[k] == v[k]
    {
      assert OwnedBy([(p, r)], k, |t|) == (if k == p then [|t|] else []);
    }
    assert u[|t|] == v[|t|];
  }

  /** Placing `A` and then `B` below old nodes is placing `A + B`. */
  lemma PlacedConcat(t: Tree, A: seq<(nat, Row)>, B: seq<(nat, Row)>)
    requires OwnersBelow(B, |t|)
    ensures Placed(Placed(t, A), B) == Placed(t, A + B)
  {
    var u, v, w := Placed(t, A), Placed(Placed(t, A), B), Placed(t, A + B);
    forall k | 0 <= k < |w|
      ensures v[k] == w[k]
    {
      if k < |t| {
        OwnedConcat(A, B, k, |t|);
        assert t[k].children + OwnedBy(A, k, |t|) + OwnedBy(B, k, |u|)
          == t[k].children + OwnedBy(A + B, k, |t|);
      } else if k < |u| {
        OwnedNone(B, k, |u|);
        assert (A + B)[k - |t|] == A[k - |t|];
      } else {
        assert (A + B)[k - |t|] == B[k - |u|];
      }
    }
  }

  /** A placement keeps the attributes of every old node. */
  lemma PlacedInfo(t: Tree, L: seq<(nat, Row)>, ids: seq<nat>)
    requires InArena(ids, t)
    ensures InArena(ids, Placed(t, L))
    ensures forall i | 0 <= i < |ids| :: Placed(t, L)[ids[i]].info == t[ids[i]].info
  {
  }

  /** A placement below old nodes keeps the arena well formed. */
  lemma PlacedWellFormed(t: Tree, L: seq<(nat, Row)>)
    requires WellFormed(t) && OwnersBelow(L, |t|)
    ensures WellFormed(Placed(t, L))
  {
    PlacedChildren(t, L);
    PlacedLinked(t, L);
  }

  /** After a placement every child has a larger id than its parent and
      records exactly that parent. */
  lemma PlacedChildren(t: Tree, L: seq<(nat, Row)>)
    requires WellFormed(t) && OwnersBelow(L, |t|)
    ensures Downward(Placed(t, L))
    ensures forall k, c | 0 <= k < |Placed(t, L)| && c in Placed(t, L)[k].children ::
      Placed(t, L)[c].parents == [k]
  {
    var u, n := Placed(t, L), |t|;
    forall k, c | 0 <= k < |u| && c in u[k].children
      ensures k < c < |u|
    {
      if k < n && c !in t[k].children {
        OwnedByMember(L, k, n);
      }
    }
    forall k, c | 0 <= k < |u| && c in u[k].children
      ensures u[c].parents == [k]
    {
      if k < n && c !in t[k].children {
        OwnedByMember(L, k, n);
      }
    }
  }

  /** After a placement every non-root node is listed by its parent. */
  lemma PlacedLinked(t: Tree, L: seq<(nat, Row)>)
    requires WellFormed(t) && OwnersBelow(L, |t|)
    ensures forall k | 0 < k < |Placed(t, L)| :: ParentLinked(Placed(t, L), k)
  {
    var u, n := Placed(t, L), |t|;
    forall k | 0 < k < |u|
      ensures ParentLinked(u, k)
    {
      if k < n {
        assert ParentLinked(t, k);
      } else {
        OwnedByMember(L, L[k - n].0, n);
        assert k in OwnedBy(L, L[k - n].0, n);
      }
    }
  }

  /** The ids, counting from `n`, of the nodes built from `P` whose own key
      is named as a parent somewhere: the next frontier, in creation order. */
  function Candidates(P: seq<Row>, n: nat, rows: seq<Row>): seq<nat>
    decreases |P|
  {
    if P == [] then []
    else (if ContinueTree(ChildInfo(P[0]), rows) then [n] else []) + Candidates(P[1..], n + 1, rows)
  }

  /** An id is a candidate exactly when the row it was built from
      continues the tree. */
  lemma {:induction false} CandidatesMember(P: seq<Row>, n: nat, rows: seq<Row>, k: int)
    ensures k in Candidates(P, n, rows) <==>
      n <= k < n + |P| && ContinueTree(ChildInfo(P[k - n]), rows)
    decreases |P|
  {
    if P != [] {
      CandidatesMember(P[1..], n + 1, rows, k);
      if n + 1 <= k < n + |P| {
        assert P[k - n] == P[1..][k - (n + 1)];
      }
    }
  }

  /** The candidates come out in increasing id order. */
  lemma {:induction false} CandidatesIncreasing(P: seq<Row>, n: nat, rows: seq<Row>)
    ensures Increasing(Candidates(P, n, rows))
    decreases |P|
  {
    if P != [] {
      CandidatesIncreasing(P[1..], n + 1, rows);
      var head: seq<nat> := if ContinueTree(ChildInfo(P[0]), rows) then [n] else [];
      var rest := Candidates(P[1..], n + 1, rows);
      forall j | 0 <= j < |rest|
        ensures n < rest[j]
      {
        CandidatesMember(P[1..], n + 1, rows, rest[j]);
      }
      IncreasingConcat(head, rest);
    }
  }

  /** The candidates are increasing, and an id is one exactly when the row
      it was built from continues the tree. */
  lemma CandidatesSpec(P: seq<Row>, n: nat, rows: seq<Row>)
    ensures Increasing(Candidates(P, n, rows))
    ensures forall k :: k in Candidates(P, n, rows) <==>
      n <= k < n + |P| && ContinueTree(ChildInfo(P[k - n]), rows)
  {
    CandidatesIncreasing(P, n, rows);
    forall k
      ensures k in Candidates(P, n, rows) <==>
        n <= k < n + |P| && ContinueTree(ChildInfo(P[k - n]), rows)
    {
      CandidatesMember(P, n, rows, k);
    }
  }

  /** The candidates of two runs of rows are those of the first run followed
      by those of the second, whose ids start at `m`, after the first's. */
  lemma {:induction false} CandidatesConcat(A: seq<Row>, B: seq<Row>, n: nat, m: nat, rows: seq<Row>)
    requires m == n + |A|
    ensures Candidates(A + B, n, rows) == Candidates(A, n, rows) + Candidates(B, m, rows)
    decreases |A|
  {
    if A == [] {
      assert A + B == B;
    } else {
      var h: seq<nat> := if ContinueTree(ChildInfo(A[0]), rows) then [n] else [];
      var X, Y := Candidates(A[1..], n + 1, rows), Candidates(B, m, rows);
      assert (A + B)[0] == A[0] && (A + B)[1..] == A[1..] + B;
      CandidatesConcat(A[1..], B, n + 1, m, rows);
      assert h + (X + Y) == (h + X) + Y;
    }
  }

  lemma CandidatesCons(r: Row, Q: seq<Row>, n: nat, m: nat, rows: seq<Row>)
    requires m == n + 1
    ensures Candidates([r] + Q, n, rows)
      == (if ContinueTree(ChildInfo(r), rows) then [n] else []) + Candidates(Q, m, rows)
  {
    assert ([r] + Q)[0] == r && ([r] + Q)[1..] == Q;
  }

  /* ---------------------------------------------------------------------
     One level of the breadth-first construction.
     --------------------------------------------------------------------- */

  /** The inner loop of `add_next_level` for one frontier node `p` over the
      rows `rs` that match it: a self-loop row is skipped; every other row
      becomes a new node with the next id, attached below `p`, and joins
      the next frontier when its own key is named as a parent. */
  function ExpandRows(t: Tree, p: nat, rs: seq<Row>, rows: seq<Row>): (r: Level)
    requires p < |t|
    ensures r.tree == Placed(t, Tag(p, Filter(IsProper, rs)))
    ensures r.next == Candidates(Filter(IsProper, rs), |t|, rows)
    decreases |rs|
  {
    if rs == [] then
      PlacedEmpty(t);
      Level(t, [])
    else if IsSelfLoop(rs[0]) then
      assert Filter(IsProper, rs) == Filter(IsProper, rs[1..]);
      ExpandRows(t, p, rs[1..], rows)
    else
      var info := ChildInfo(rs[0]);
      var t1 := AddChild(t + [NewNode(|t|, info)], p, |t|);
      var rest := ExpandRows(t1, p, rs[1..], rows);
      ExpandStepTree(t, p, rs, t1, rest.tree);
      ExpandStepNext(t, rs, rows, |t1|, rest.next);
      Level(rest.tree, (if ContinueTree(info, rows) then [|t|] else []) + rest.next)
  }

  lemma ExpandStepTree(t: Tree, p: nat, rs: seq<Row>, t1: Tree, t2: Tree)
    requires p < |t| && rs != [] && IsProper(rs[0])
    requires t1 == AddChild(t + [NewNode(|t|, ChildInfo(rs[0]))], p, |t|)
    requires t2 == Placed(t1, Tag(p, Filter(IsProper, rs[1..])))
    ensures t2 == Placed(t, Tag(p, Filter(IsProper, rs)))
  {
    var P, Q := Filter(IsProper, rs), Filter(IsProper, rs[1..]);
    assert P == [rs[0]] + Q;
    AttachIsPlaced(t, p, rs[0]);
    TagOwners(p, Q, |t|);
    PlacedConcat(t, [(p, rs[0])], Tag(p, Q));
    TagCons(p, rs[0], Q);
  }

  lemma ExpandStepNext(t: Tree, rs: seq<Row>, rows: seq<Row>, m: nat, next: seq<nat>)
    requires rs != [] && IsProper(rs[0]) && m == |t| + 1
    requires next == Candidates(Filter(IsProper, rs[1..]), m, rows)
    ensures (if ContinueTree(ChildInfo(rs[0]), rows) then [|t|] else []) + next
      == Candidates(Filter(IsProper, rs), |t|, rows)
  {
    var P, Q := Filter(IsProper, rs), Filter(IsProper, rs[1..]);
    assert P == [rs[0]] + Q;
    CandidatesCons(rs[0], Q, |t|, m, rows);
  }

  lemma TagOwners(p: nat, Q: seq<Row>, m: nat)
    requires p < m
    ensures OwnersBelow(Tag(p, Q), m)
  {
  }

  lemma TagCons(p: nat, r: Row, Q: seq<Row>)
    ensures Tag(p, [r] + Q) == [(p, r)] + Tag(p, Q)
  {
  }

  /** The placement list of a level, in the order `add_next_level` meets
      the rows: frontier order, then row order. */
  function LevelRows(t: Tree, clevel: seq<nat>, rows: seq<Row>): seq<(nat, Row)>
    requires InArena(clevel, t)
  {
    if clevel == [] then []
    else Tag(clevel[0], ChildRows(rows, t[clevel[0]].info)) + LevelRows(t, clevel[1..], rows)
  }

  /** Every entry of a level hangs below a frontier node. */
  lemma {:induction false} LevelRowsOwners(t: Tree, clevel: seq<nat>, rows: seq<Row>)
    requires InArena(clevel, t)
    ensures forall i | 0 <= i < |LevelRows(t, clevel, rows)| :: LevelRows(t, clevel, rows)[i].0 in clevel
  {
    if clevel != [] {
      LevelRowsOwners(t, clevel[1..], rows);
      var A, B := Tag(clevel[0], ChildRows(rows, t[clevel[0]].info)), LevelRows(t, clevel[1..], rows);
      forall i | |A| <= i < |A| + |B|
        ensures (A + B)[i] == B[i - |A|]
      {
      }
    }
  }

  /** Entry `e` pairs a node of the frontier `clevel` with one of the rows
      selected for that node. */
  ghost predicate FromFrontier(e: (nat, Row), t: Tree, clevel: seq<nat>, rows: seq<Row>)
    requires InArena(clevel, t)
  {
    exists j | 0 <= j < |clevel| :: e.0 == clevel[j] && e.1 in ChildRows(rows, t[clevel[j]].info)
  }

  /** Every entry of a level pairs a frontier node with one of the rows
      selected for it. */
  lemma {:induction false} LevelRowsFrom(t: Tree, clevel: seq<nat>, rows: seq<Row>)
    requires InArena(clevel, t)
    ensures forall i | 0 <= i < |LevelRows(t, clevel, rows)| ::
      FromFrontier(LevelRows(t, clevel, rows)[i], t, clevel, rows)
  {
    if clevel != [] {
      LevelRowsFrom(t, clevel[1..], rows);
      var A: seq<(nat, Row)> := Tag(clevel[0], ChildRows(rows, t[clevel[0]].info));
      var B: seq<(nat, Row)> := LevelRows(t, clevel[1..], rows);
      forall i | 0 <= i < |A| + |B|
        ensures FromFrontier((A + B)[i], t, clevel, rows)
      {
        if i < |A| {
          assert (A + B)[i] == A[i];
          assert A[i].0 == clevel[0] && A[i].1 in ChildRows(rows, t[clevel[0]].info);
        } else {
          var k := i - |A|;
          assert (A + B)[i] == B[k] && FromFrontier(B[k], t, clevel[1..], rows);
          var j :| 0 <= j < |clevel[1..]| && B[k].0 == clevel[1..][j]
            && B[k].1 in ChildRows(rows, t[clevel[1..][j]].info);
          assert clevel[1..][j] == clevel[j + 1];
        }
      }
    }
  }

  /** The entries of a level over a rising frontier are grouped by owner in
      frontier order: an entry of a lower owner comes first. */
  lemma {:induction false} LevelRowsMonotone(t: Tree, clevel: seq<nat>, rows: seq<Row>)
    requires InArena(clevel, t) && Increasing(clevel)
    ensures forall i, j | 0 <= i < |LevelRows(t, clevel, rows)| && 0 <= j < |LevelRows(t, clevel, rows)| ::
      LevelRows(t, clevel, rows)[i].0 < LevelRows(t, clevel, rows)[j].0 ==> i < j
  {
    if clevel != [] {
      LevelRowsMonotone(t, clevel[1..], rows);
      LevelRowsOwners(t, clevel[1..], rows);
      var A: seq<(nat, Row)> := Tag(clevel[0], ChildRows(rows, t[clevel[0]].info));
      var B: seq<(nat, Row)> := LevelRows(t, clevel[1..], rows);
      forall i | |A| <= i < |A| + |B|
        ensures (A + B)[i] == B[i - |A|] && (A + B)[i].0 > clevel[0]
      {
        var m :| 0 <= m < |clevel[1..]| && clevel[1..][m] == B[i - |A|].0;
        assert clevel[1..][m] == clevel[m + 1];
      }
    }
  }

  /** In a frontier without repeats, a frontier node owns exactly the rows
      selected for it and any other node owns nothing. */
  lemma {:induction false} LevelOwned(t: Tree, clevel: seq<nat>, rows: seq<Row>, k: nat, n: nat)
    requires InArena(clevel, t) && Distinct(clevel)
    ensures k in clevel ==> k < |t| && OwnedRows(LevelRows(t, clevel, rows), k) == ChildRows(rows, t[k].info)
    ensures k !in clevel ==> OwnedRows(LevelRows(t, clevel, rows), k) == []
    ensures k !in clevel ==> OwnedBy(LevelRows(t, clevel, rows), k, n) == []
  {
    if clevel != [] {
      var p := clevel[0];
      var A, B := Tag(p, ChildRows(rows, t[p].info)), LevelRows(t, clevel[1..], rows);
      DistinctTail(clevel);
      LevelOwned(t, clevel[1..], rows, k, n + |A|);
      OwnedConcat(A, B, k, n);
      if k == p {
        OwnedTag(p, ChildRows(rows, t[p].info), n);
      } else {
        OwnedNone(A, k, n);
        assert k in clevel ==> k in clevel[1..];
      }
    }
  }

  /** A level's rows depend only on the frontier nodes' attributes. */
  lemma {:induction false} LevelRowsFrame(t: Tree, u: Tree, clevel: seq<nat>, rows: seq<Row>)
    requires InArena(clevel, t) && InArena(clevel, u)
    requires forall i | 0 <= i < |clevel| :: u[clevel[i]].info == t[clevel[i]].info
    ensures LevelRows(u, clevel, rows) == LevelRows(t, clevel, rows)
  {
    if clevel != [] {
      LevelRowsFrame(t, u, clevel[1..], rows);
    }
  }

  /** `add_next_level`: every frontier node in turn gets one new child per
      matching non-self-loop row; the new children that are themselves
      named as a parent form the next frontier. */
  function AddNextLevel(clevel: seq<nat>, rows: seq<Row>, t: Tree): (r: Level)
    requires InArena(clevel, t)
    ensures r.tree == Placed(t, LevelRows(t, clevel, rows))
    ensures r.next == Candidates(RowsOf(LevelRows(t, clevel, rows)), |t|, rows)
    decreases |clevel|, 1
  {
    if clevel == [] then
      PlacedEmpty(t);
      Level(t, [])
    else
      var p := clevel[0];
      var a := ExpandRows(t, p, MatchingRows(rows, t[p].info), rows);
      var b := AddNextLevel(clevel[1..], rows, a.tree);
      LevelStep(clevel, rows, t, a, b);
      Level(b.tree, a.next + b.next)
  }

  /** The first frontier node's expansion followed by the rest of the level
      is the placement of the whole level. */
  lemma LevelStep(clevel: seq<nat>, rows: seq<Row>, t: Tree, a: Level, b: Level)
    requires clevel != [] && InArena(clevel, t)
    requires a == ExpandRows(t, clevel[0], MatchingRows(rows, t[clevel[0]].info), rows)
    requires InArena(clevel[1..], a.tree)
    requires b == AddNextLevel(clevel[1..], rows, a.tree)
    ensures b.tree == Placed(t, LevelRows(t, clevel, rows))
    ensures a.next + b.next == Candidates(RowsOf(LevelRows(t, clevel, rows)), |t|, rows)
    decreases |clevel|, 0
  {
    var p := clevel[0];
    var CR := ChildRows(rows, t[p].info);
    var B := LevelRows(t, clevel[1..], rows);
    assert a.tree == Placed(t, Tag(p, CR)) && a.next == Candidates(CR, |t|, rows);
    LevelStepFrame(clevel, rows, t, Tag(p, CR), a.tree);
    assert b.tree == Placed(a.tree, B) && b.next == Candidates(RowsOf(B), |a.tree|, rows);
    assert LevelRows(t, clevel, rows) == Tag(p, CR) + B;
    LevelRowsOwners(t, clevel[1..], rows);
    LevelStepTree(clevel, t, CR, B, a.tree, b.tree);
    LevelStepNext(rows, t, p, CR, B, a.next, b.next, |a.tree|);
  }

  /** Placing the first node's children leaves the rest of the level's rows
      as they were. */
  lemma LevelStepFrame(clevel: seq<nat>, rows: seq<Row>, t: Tree, L: seq<(nat, Row)>, ta: Tree)
    requires clevel != [] && InArena(clevel, t)
    requires ta == Placed(t, L)
    ensures InArena(clevel[1..], ta)
    ensures LevelRows(ta, clevel[1..], rows) == LevelRows(t, clevel[1..], rows)
  {
    PlacedInfo(t, L, clevel[1..]);
    LevelRowsFrame(t, ta, clevel[1..], rows);
  }

  lemma LevelStepTree(clevel: seq<nat>, t: Tree, CR: seq<Row>, B: seq<(nat, Row)>, ta: Tree, tb: Tree)
    requires clevel != [] && InArena(clevel, t)
    requires forall i | 0 <= i < |B| :: B[i].0 in clevel[1..]
    requires ta == Placed(t, Tag(clevel[0], CR))
    requires tb == Placed(ta, B)
    ensures tb == Placed(t, Tag(clevel[0], CR) + B)
  {
    PlacedConcat(t, Tag(clevel[0], CR), B);
  }

  lemma LevelStepNext(rows: seq<Row>, t: Tree, p: nat, CR: seq<Row>, B: seq<(nat, Row)>, na: seq<nat>, nb: seq<nat>, m: nat)
    requires na == Candidates(CR, |t|, rows)
    requires m == |t| + |CR| && nb == Candidates(RowsOf(B), m, rows)
    ensures na + nb == Candidates(RowsOf(Tag(p, CR) + B), |t|, rows)
  {
    RowsOfTag(p, CR, B);
    CandidatesConcat(CR, RowsOf(B), |t|, m, rows);
  }
}
