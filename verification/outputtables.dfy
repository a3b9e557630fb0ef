/** The tables produced from the pruned graph and from the edge table: the
    five-column part listing, the magnet filter, the one-status rule and
    the map from magnet test serial numbers to part numbers. */
module OutputTables {
  import opened Wrappers
  import opened Seqs
  import opened Text
  import opened Rows
  import opened Tree
  import opened NxGraph

  /** A row of the part listing: PartNumber, SerialNumber, Description,
      WorkOrderID, TestSerialNumber. */
  datatype PartRow = PartRow(pn: string, sn: Option<string>, desc: string, wo: Option<string>, testSn: Option<string>)

  /** `G.nodes[n]` on a node that has no record. */
  datatype TableError = MissingRecord(node: nat)

  function PartRowOf(info: Info): PartRow {
    PartRow(info.pn, info.sn, info.desc, info.wo, info.testSn)
  }

  /** Every node of `order` has a record in `attrs`. */
  predicate AllRecorded(order: seq<nat>, attrs: map<nat, Info>) {
    forall i | 0 <= i < |order| :: order[i] in attrs
  }

  /** The listing before `drop_duplicates`: one row per node in node order.
      The first node without a record raises the key error. */
  function RawRows(order: seq<nat>, attrs: map<nat, Info>): (r: Result<seq<PartRow>, TableError>)
    ensures r.Success? <==> AllRecorded(order, attrs)
    ensures r.Success? ==> |r.value| == |order|
    ensures r.Success? ==> forall i | 0 <= i < |order| :: r.value[i] == PartRowOf(attrs[order[i]])
    ensures r.Failure? ==> exists i | 0 <= i < |order| ::
      && order[i] == r.error.node && order[i] !in attrs
      && AllRecorded(order[..i], attrs)
  {
    if order == [] then Success([])
    else if order[0] !in attrs then
      assert order[..0] == [];
      Failure(MissingRecord(order[0]))
    else
      var rest := RawRows(order[1..], attrs);
      assert forall i | 1 <= i < |order| :: order[i] == order[1..][i - 1];
      if rest.Failure? then
        var i :| 0 <= i < |order[1..]| && order[1..][i] == rest.error.node && order[1..][i] !in attrs
          && AllRecorded(order[1..][..i], attrs);
        assert order[1..][..i] == order[1..i + 1];
        assert order[i + 1] == rest.error.node;
        Failure(rest.error)
      else
        Success([PartRowOf(attrs[order[0]])] + rest.value)
  }

  /** `graph_to_info_output(G)`: the part row of every node, in node order,
      with exact duplicates dropped (the first copy is kept). */
  function GraphToInfoOutput(g: Graph): (r: Result<seq<PartRow>, TableError>)
    ensures r.Success? <==> AllRecorded(g.order, g.attrs)
    ensures r.Failure? ==> r.error.node in g.order && r.error.node !in g.attrs
    ensures r.Success? ==> Distinct(r.value)
    ensures r.Success? ==> forall row :: row in r.value <==>
      exists i | 0 <= i < |g.order| :: PartRowOf(g.attrs[g.order[i]]) == row
    ensures r.Success? && g.order != [] ==> r.value != [] && r.value[0] == PartRowOf(g.attrs[g.order[0]])
  {
    var raw :- RawRows(g.order, g.attrs);
    assert forall row :: row in raw <==> exists i | 0 <= i < |g.order| :: raw[i] == row;
    Success(DropDuplicates(raw))
  }

  /** A row that keeps the magnet part of the tree: a thruster assembly or a
      permanent magnet, by the child's description. */
  predicate IsMagnetRow(r: Row) {
    Contains(r.childDesc, "THRUSTER ASSEMBLY") || Contains(r.childDesc, "PERMANENT MAGNET")
  }

  /** `remove_non_magnets(df)`: the magnet rows, in their original order,
      each as often as it occurs. */
  function RemoveNonMagnets(rows: seq<Row>): (r: seq<Row>)
    ensures forall x :: x in r <==> x in rows && IsMagnetRow(x)
    ensures forall x :: multiset(r)[x] == if IsMagnetRow(x) then multiset(rows)[x] else 0
    ensures IsSubseq(r, rows)
  {
    FilterMembership(IsMagnetRow, rows);
    FilterMultiset(IsMagnetRow, rows);
    FilterSubseq(IsMagnetRow, rows);
    Filter(IsMagnetRow, rows)
  }

  lemma RemoveNonMagnetsIdempotent(rows: seq<Row>)
    ensures RemoveNonMagnets(RemoveNonMagnets(rows)) == RemoveNonMagnets(rows)
  {
    FilterIdempotent(IsMagnetRow, rows);
  }

  /** The grouping key of `create_one_status`. */
  function GroupKey(r: Row): (string, string) {
    (r.childTraceId, r.parentTraceId)
  }

  predicate IsRemoved(r: Row) {
    r.status == "Removed"
  }

  /** Some row of the group `k` has the status `Removed`. */
  predicate GroupHasRemoved(rows: seq<Row>, k: (string, string)) {
    exists i | 0 <= i < |rows| :: GroupKey(rows[i]) == k && IsRemoved(rows[i])
  }

  /** The rows of the group `k`, in order. */
  function Group(rows: seq<Row>, k: (string, string)): seq<Row> {
    Filter((x: Row) => GroupKey(x) == k, rows)
  }

  /** The rule applied to every group: a row stays unless its group has a
      `Removed` row and it is not one itself. */
  predicate Kept(rows: seq<Row>, x: Row) {
    IsRemoved(x) || !GroupHasRemoved(rows, GroupKey(x))
  }

  /** `create_one_status(df)`, up to the order of the groups: a group with
      a `Removed` row keeps only its `Removed` rows, any other group is kept
      whole. */
  function CreateOneStatus(rows: seq<Row>): (r: seq<Row>)
    ensures forall x :: multiset(r)[x] == if Kept(rows, x) then multiset(rows)[x] else 0
    ensures multiset(r) <= multiset(rows)
  {
    var keep := (x: Row) => Kept(rows, x);
    FilterMultiset(keep, rows);
    Filter(keep, rows)
  }

  /** Group by group: a group with a `Removed` row becomes its `Removed`
      rows, any other group is unchanged, both in their original order. */
  lemma CreateOneStatusGroups(rows: seq<Row>, k: (string, string))
    ensures Group(CreateOneStatus(rows), k) ==
      if GroupHasRemoved(rows, k) then Filter(IsRemoved, Group(rows, k)) else Group(rows, k)
  {
    var inK := (x: Row) => GroupKey(x) == k;
    var keep := (x: Row) => Kept(rows, x);
    FilterCommute(inK, keep, rows);
    var g := Group(rows, k);
    assert forall i | 0 <= i < |g| :: GroupKey(g[i]) == k;
    if GroupHasRemoved(rows, k) {
      FilterCongruent(keep, IsRemoved, g);
    } else {
      FilterAll(keep, g);
    }
  }

  /** No group is emptied: every key present before is present after. */
  lemma CreateOneStatusKeepsGroups(rows: seq<Row>, x: Row)
    requires x in rows
    ensures exists y | y in CreateOneStatus(rows) :: GroupKey(y) == GroupKey(x)
  {
    var r := CreateOneStatus(rows);
    if GroupHasRemoved(rows, GroupKey(x)) {
      var i :| 0 <= i < |rows| && GroupKey(rows[i]) == GroupKey(x) && IsRemoved(rows[i]);
      assert multiset(r)[rows[i]] > 0;
    } else {
      assert multiset(r)[x] > 0;
    }
  }

  /** `Removed` rows are never dropped, so a group has one after the rule
      exactly when it had one before. */
  lemma RemovedSurvive(rows: seq<Row>, k: (string, string))
    ensures GroupHasRemoved(CreateOneStatus(rows), k) <==> GroupHasRemoved(rows, k)
  {
    var r := CreateOneStatus(rows);
    var keep := (x: Row) => Kept(rows, x);
    FilterMembership(keep, rows);
    if GroupHasRemoved(r, k) {
      var i :| 0 <= i < |r| && GroupKey(r[i]) == k && IsRemoved(r[i]);
      assert r[i] in rows;
    }
    if GroupHasRemoved(rows, k) {
      var j :| 0 <= j < |rows| && GroupKey(rows[j]) == k && IsRemoved(rows[j]);
      assert rows[j] in r;
    }
  }

  /** Applying the rule twice is applying it once. */
  lemma CreateOneStatusIdempotent(rows: seq<Row>)
    ensures CreateOneStatus(CreateOneStatus(rows)) == CreateOneStatus(rows)
  {
    var r := CreateOneStatus(rows);
    var keep := (x: Row) => Kept(rows, x);
    FilterMembership(keep, rows);
    forall i | 0 <= i < |r|
      ensures Kept(r, r[i])
    {
      assert r[i] in r;
      RemovedSurvive(rows, GroupKey(r[i]));
    }
    FilterAll((x: Row) => Kept(r, x), r);
  }

  /** A listing row for a permanent magnet part. */
  predicate IsMagnetPart(p: PartRow) {
    Contains(p.desc, "PERMANENT MAGNET")
  }

  /** `int(item)` on a magnet row without a test serial number. */
  datatype SnError = NoTestSerial

  /** The work orders of the magnet rows with test serial `k`. */
  ghost predicate WorkOrderOf(table: seq<PartRow>, k: string, w: string) {
    exists p | p in table :: IsMagnetPart(p) && p.testSn == Some(k) && p.wo == Some(w)
  }

  /** Some row before `i` has the test serial `k`. */
  ghost predicate SeenKey(magnets: seq<PartRow>, i: nat, k: string)
    requires i <= |magnets|
  {
    exists j | 0 <= j < i :: magnets[j].testSn == Some(k)
  }

  /** Some row before `i` pairs the test serial `k` with the work order `w`. */
  ghost predicate SeenPair(magnets: seq<PartRow>, i: nat, k: string, w: string)
    requires i <= |magnets|
  {
    exists j | 0 <= j < i :: magnets[j].testSn == Some(k) && magnets[j].wo == Some(w)
  }

  /** The loop over the magnet rows: the test serials seen and the pairs
      of test serial and work order, failing on a row without a serial. */
  method CollectWorkOrders(magnets: seq<PartRow>) returns (r: Result<(set<string>, set<(string, string)>), SnError>)
    ensures r.Failure? <==> exists j | 0 <= j < |magnets| :: magnets[j].testSn == None
    ensures r.Success? ==> forall k :: k in r.value.0 <==>
      exists j | 0 <= j < |magnets| :: magnets[j].testSn == Some(k)
    ensures r.Success? ==> forall k, w :: (k, w) in r.value.1 <==>
      exists j | 0 <= j < |magnets| :: magnets[j].testSn == Some(k) && magnets[j].wo == Some(w)
  {
    var keys: set<string> := {};
    var pairs: set<(string, string)> := {};
    var i := 0;
    while i < |magnets|
      invariant 0 <= i <= |magnets|
      invariant forall j | 0 <= j < i :: magnets[j].testSn.Some?
      invariant forall k :: k in keys <==> SeenKey(magnets, i, k)
      invariant forall k, w :: (k, w) in pairs <==> SeenPair(magnets, i, k, w)
    {
      var p := magnets[i];
      if p.testSn == None {
        return Failure(NoTestSerial);
      }
      forall k
        ensures SeenKey(magnets, i + 1, k) <==> SeenKey(magnets, i, k) || p.testSn == Some(k)
      {
        if SeenKey(magnets, i + 1, k) && p.testSn != Some(k) {
          var j :| 0 <= j < i + 1 && magnets[j].testSn == Some(k);
          assert j < i;
        }
      }
      forall k, w
        ensures SeenPair(magnets, i + 1, k, w) <==> SeenPair(magnets, i, k, w) || (p.testSn == Some(k) && p.wo == Some(w))
      {
        if SeenPair(magnets, i + 1, k, w) && !(p.testSn == Some(k) && p.wo == Some(w)) {
          var j :| 0 <= j < i + 1 && magnets[j].testSn == Some(k) && magnets[j].wo == Some(w);
          assert j < i;
        }
      }
      keys := keys + {p.testSn.value};
      if p.wo.Some? {
        pairs := pairs + {(p.testSn.value, p.wo.value)};
      }
      i := i + 1;
    }
    return Success((keys, pairs));
  }

  /** The map `snpndict` built in `full_table_to_tests`: its keys are the
      test serial numbers of the magnet rows of `table`; each maps to the
      part numbers that the work-order map `woMap` (pairs of WorkOrderID and
      PartNumber) lists under a work order of some magnet row with that
      serial. A magnet row without a test serial fails. */
  method SnPnDict(table: seq<PartRow>, woMap: seq<(string, string)>) returns (r: Result<map<string, set<string>>, SnError>)
    ensures r.Failure? <==> exists p | p in table :: IsMagnetPart(p) && p.testSn == None
    ensures r.Success? ==> forall k :: k in r.value <==>
      exists p | p in table :: IsMagnetPart(p) && p.testSn == Some(k)
    ensures r.Success? ==> forall k, pn | k in r.value :: pn in r.value[k] <==>
      exists j | 0 <= j < |woMap| :: woMap[j].1 == pn && WorkOrderOf(table, k, woMap[j].0)
  {
    var magnets := Filter(IsMagnetPart, table);
    FilterMembership(IsMagnetPart, table);
    assert forall p :: p in magnets <==> exists j | 0 <= j < |magnets| :: magnets[j] == p;
    var collected := CollectWorkOrders(magnets);
    if collected.Failure? {
      return Failure(NoTestSerial);
    }
    var (keys, pairs) := collected.value;
    assert forall k, w :: WorkOrderOf(table, k, w) <==> (k, w) in pairs;
    r := Success(map k | k in keys :: set j | 0 <= j < |woMap| && (k, woMap[j].0) in pairs :: woMap[j].1);
  }
}
