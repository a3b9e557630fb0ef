/** Descents through the parts table: runs of rows in which every row
    installs a child below the instance the previous row installed. A table
    without a cycle of such links has no descent longer than the table,
    which bounds the number of levels `add_to_table` adds. */
module Chains {
  import opened Seqs
  import opened Rows
  import opened Tree
  import opened Builder

  /** Row `b` continues below the instance row `a` installs: `b` names
      `a`'s child side as its parent and is not a self-loop. */
  predicate Feeds(a: Row, b: Row) {
    Matches(b, ChildInfo(a)) && IsProper(b)
  }

  /** A descent through `rows`, deepest row first: a non-empty run of rows
      of the table in which each row is fed by the one after it. */
  predicate Chain(rows: seq<Row>, c: seq<Row>) {
    && c != []
    && (forall k | 0 <= k < |c| :: c[k] in rows)
    && (forall k | 0 < k < |c| :: Feeds(c[k], c[k - 1]))
  }

  /** Some descent of exactly `n` rows ends in a row installing `info`. */
  ghost predicate ReachedBy(rows: seq<Row>, info: Info, n: nat) {
    exists c | Chain(rows, c) :: |c| == n && ChildInfo(c[0]) == info
  }

  /** Some descent has exactly `n` rows. */
  ghost predicate HasDescent(rows: seq<Row>, n: nat) {
    exists c | Chain(rows, c) :: |c| == n
  }

  /** Some descent leads from a row back to the same row. */
  ghost predicate Cyclic(rows: seq<Row>) {
    exists c | Chain(rows, c) :: |c| > 1 && c[0] == c[|c| - 1]
  }

  /** No descent leads from a row back to the same row. */
  ghost predicate Acyclic(rows: seq<Row>) {
    !Cyclic(rows)
  }

  /** A row selected as a child of the instance a descent ends in extends
      the descent by one. */
  lemma ChainExtend(rows: seq<Row>, c: seq<Row>, row: Row)
    requires Chain(rows, c) && row in ChildRows(rows, ChildInfo(c[0]))
    ensures Chain(rows, [row] + c) && ChildInfo(([row] + c)[0]) == ChildInfo(row)
  {
    ChildRowsMembership(rows, ChildInfo(c[0]));
    var e := [row] + c;
    forall k | 0 < k < |e|
      ensures Feeds(e[k], e[k - 1])
    {
      if k > 1 {
        assert e[k] == c[k - 1] && e[k - 1] == c[k - 2];
      }
    }
  }

  /** A row selected as a child of an instance `d` rows deep installs an
      instance `d + 1` rows deep. */
  lemma ReachedByExtend(rows: seq<Row>, info: Info, row: Row, d: nat)
    requires ReachedBy(rows, info, d) && row in ChildRows(rows, info)
    ensures ReachedBy(rows, ChildInfo(row), d + 1)
  {
    var c :| Chain(rows, c) && |c| == d && ChildInfo(c[0]) == info;
    ChainExtend(rows, c, row);
    assert |[row] + c| == d + 1;
  }

  /** Every contiguous piece of a descent is a descent. */
  lemma ChainSlice(rows: seq<Row>, c: seq<Row>, i: nat, j: nat)
    requires Chain(rows, c) && i < j <= |c|
    ensures Chain(rows, c[i..j])
  {
    var d := c[i..j];
    forall k | 0 < k < |d|
      ensures Feeds(d[k], d[k - 1])
    {
      assert d[k] == c[i + k] && d[k - 1] == c[i + k - 1];
    }
  }

  /** A table holds at most as many distinct rows as it has entries. */
  lemma {:induction false} DistinctRowsBound(rows: seq<Row>)
    ensures |set x | x in rows| <= |rows|
  {
    if rows != [] {
      DistinctRowsBound(rows[1..]);
      assert (set x | x in rows) == {rows[0]} + (set x | x in rows[1..]);
    }
  }

  /** A sequence drawn from `S` and longer than `S` repeats an element. */
  lemma {:induction false} Pigeonhole(c: seq<Row>, S: set<Row>)
    requires forall i | 0 <= i < |c| :: c[i] in S
    requires |c| > |S|
    ensures exists i, j | 0 <= i < j < |c| :: c[i] == c[j]
    decreases |c|
  {
    if c[0] in c[1..] {
      var j :| 0 <= j < |c[1..]| && c[1..][j] == c[0];
      assert c[0] == c[j + 1];
    } else {
      forall i | 0 <= i < |c[1..]|
        ensures c[1..][i] in S - {c[0]}
      {
        assert c[1..][i] == c[i + 1];
      }
      Pigeonhole(c[1..], S - {c[0]});
      var i, j :| 0 <= i < j < |c[1..]| && c[1..][i] == c[1..][j];
      assert c[i + 1] == c[j + 1];
    }
  }

  /** A descent longer than the table passes some row twice. */
  lemma LongChainRepeats(rows: seq<Row>, c: seq<Row>)
    requires Chain(rows, c) && |c| > |rows|
    ensures exists i, j | 0 <= i < j < |c| :: c[i] == c[j]
  {
    DistinctRowsBound(rows);
    Pigeonhole(c, set x | x in rows);
  }

  /** A descent passing some row twice contains a cycle. */
  lemma RepeatCycles(rows: seq<Row>, c: seq<Row>, i: nat, j: nat)
    requires Chain(rows, c) && i < j < |c| && c[i] == c[j]
    ensures Cyclic(rows)
  {
    ChainSlice(rows, c, i, j + 1);
    SliceEnds(c, i, j);
    CycleWitness(rows, c[i..j + 1], c[i]);
  }

  lemma SliceEnds<T>(c: seq<T>, i: nat, j: nat)
    requires i < j < |c|
    ensures |c[i..j + 1]| == j - i + 1 && c[i..j + 1][0] == c[i] && c[i..j + 1][j - i] == c[j]
  {
  }

  /** A descent of at least two rows that starts and ends at row `x` is a
      cycle. */
  lemma CycleWitness(rows: seq<Row>, d: seq<Row>, x: Row)
    requires Chain(rows, d) && |d| > 1 && d[0] == x && d[|d| - 1] == x
    ensures Cyclic(rows)
  {
  }

  /** In a table without cycles no descent is longer than the table. */
  lemma LongDescentCycles(rows: seq<Row>, n: nat)
    requires HasDescent(rows, n) && n > |rows|
    ensures Cyclic(rows)
  {
    var c :| Chain(rows, c) && |c| == n;
    LongChainRepeats(rows, c);
    var i, j :| 0 <= i < j < |c| && c[i] == c[j];
    RepeatCycles(rows, c, i, j);
  }
}
