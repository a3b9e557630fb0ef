# Satellite thruster genealogy and magnet tests, in Dafny

This project models the core of a tool that reconstructs the part genealogy
of a satellite's thruster assemblies and collects the magnet test data of
their permanent magnets.

- **Genealogy** (`build_tree.py`). An edge table of (parent, child) part
  rows is turned into an ownership tree, breadth first. The root is the
  satellite. Below it hang the thruster assemblies, then one level of
  children at a time.
- **Graph copy and pruning.** The tree is copied into a directed graph.
  Every subtree whose top node has the status `Removed` is deleted.
- **Output tables** (`output_tables.py`):
  - the five-column part listing of a graph;
  - the magnet-row filter of the edge table;
  - the one-status rule for parts that carry several statuses;
  - the map from magnet test serial numbers to their possible part numbers.
- **Magnet test handling** (`otto_tests.py`):
  - the first-match property lookups of a test result;
  - the query string sent to the results database;
  - sorting passed magnet tests into radial, axial-inner and axial-outer
    groups;
  - picking the latest test of each group;
  - flattening a test into the dictionary written as one output row.

Modules, in dependency order:

| module | file | contents |
|---|---|---|
| `Wrappers` | wrappers.dfy | `Option`, `Result` |
| `Seqs` | seqs.dfy | filtering, subsequences, duplicate dropping, ranges |
| `Text` | text.dfy | substring containment and `str.find` |
| `Rows` | rows.dfy | one row of the edge table |
| `Tree` | tree.dfy | the node arena: node `k` at index `k` |
| `Builder` | builder.dfy | the beginning nodes and one level of the breadth-first build |
| `Chains` | chains.dfy | descents of linked rows through the table, and cycles |
| `Genealogy` | genealogy.dfy | the level loop and the whole tree construction |
| `NxGraph` | nxgraph.dfy | the graph copy of the tree |
| `Prune` | prune.dfy | removal of the subtrees below a status |
| `OutputTables` | outputtables.dfy | the tables listed above |
| `Pipeline` | pipeline.dfy | `add_to_table`, and how its result relates to the tree |
| `OttoRecords` | otto_records.dfy | result records, property lookups, query strings |
| `MagnetTests` | magnet_tests.dfy | grouping and latest-test selection |
| `MagnetEntry` | magnet_entry.dfy | the output dictionary of one test |

Modelling conventions:

- Python's `KeyError` and `IndexError` are `Failure` values of a `Result`.
- The database is a parameter `fetch` from test serial to the list of
  results.
- Dates are integers, already parsed.
- Measured values are reals.
- A graph is a node order (the insertion order of `networkx`), a map from
  node to attributes, and a set of edges.

## Model

| member | source | states |
|---|---|---|
| Tree.AddChild | build_tree.py:23-25 | the child id is appended to the parent's children and the parent id to the child's parents; every other node and field is unchanged |
| Builder.FindBeginningNodes | build_tree.py:40-52 | fails exactly when no row installs a thruster assembly into the satellite; otherwise node 0 is the satellite built from the first such row with serial `sxid`, node i+1 is the i-th such row's child, and the counter is one past the last id |
| Builder.ContinueTreeMatching | build_tree.py:64-66 | a node continues the tree exactly when the rows selected by its part number, description and trace id are not empty |
| Builder.AddNextLevel | build_tree.py:70-85 | the grown arena is the closed-form placement of every matching non-self-loop row below its frontier node, in frontier then row order, with consecutive ids; the next frontier is the new nodes some row names as a parent |
| Builder.CandidatesMember | build_tree.py:79-83 | a new node is on the next frontier exactly when the row it was built from continues the tree |
| Builder.CandidatesIncreasing | build_tree.py:79-83 | the next frontier lists its nodes in increasing id order |
| Builder.ChildRowsMembership | build_tree.py:73-77 | a row is selected for a node exactly when it is in the table, names the node's part number, description and trace id as its parent, and is not a self-loop |
| Builder.OwnedByIncreasing | build_tree.py:78-80 | the ids a node receives in one level rise, since the counter only grows |
| Builder.LevelRowsMonotone | build_tree.py:72-80 | over a rising frontier, the rows of a lower frontier node come before those of a higher one |
| Builder.LevelRowsFrom | build_tree.py:72-80 | every node a level creates hangs below a node of the current frontier and is built from a row selected for that node |
| Chains.ChainExtend | build_tree.py:73-80 | a row selected below the instance a descent ends in extends the descent by one row |
| Chains.LongDescentCycles | build_tree.py:141-143 | a descent longer than the table passes some row twice, so the table has a cycle of parent links |
| Genealogy.Beginning | build_tree.py:133-138 | fails exactly when there is no beginning row; otherwise the root lists nodes 1..n as children and each assembly node has the root as its only parent |
| Genealogy.BeginningPending | build_tree.py:138 | the first frontier, all assemblies, satisfies the loop invariant of the level loop |
| Genealogy.Grow | build_tree.py:141-143 | after the level loop every non-root node has exactly one child per row selected for it, built from that row, with distinct rising ids; the ids are numbered breadth first (every child of a lower id precedes every child of a higher id), and no earlier node lost its attributes; running out of levels leaves a frontier node at the end of a descent of rows as long as the starting depth plus the levels spent |
| Genealogy.LayeredStep | build_tree.py:70-85 | a level keeps the breadth-first numbering: the ids it hands out exceed every existing id and follow the frontier order, and no node with children is on the next frontier |
| Genealogy.DeepStep | build_tree.py:72-83 | each node of the next frontier is built from a row selected for a node of the current frontier, so it sits one row deeper along a descent of linked rows |
| Genealogy.BuildTree | build_tree.py:129-143 | fails with the missing-root error exactly when there is no beginning row; a finished tree is well formed, numbered breadth first, fully expanded with one distinct child per selected row, rooted at the satellite, with the assemblies as nodes 1..n; it runs out of levels only when the table holds a descent of `fuel + 1` linked rows, so on a table without a cycle of parent links one level per row always suffices |
| NxGraph.BuildNetworkxTree | build_tree.py:89-99 | the graph holds exactly the nodes below the root, each once and the root first, with its attributes, and one edge per parent-child link |
| Prune.MarkSpec | build_tree.py:107-113 | the recursive marking collects exactly the nodes reachable from some node with the status that is itself reachable from the start |
| Prune.MarkSound | build_tree.py:107-113 | every node the marking collects lies below a node with the status reachable from the start |
| Prune.MarkComplete | build_tree.py:107-113 | every node below a node with the status reachable from the start is collected |
| Prune.RemoveSubtreesWithStatus | build_tree.py:103-125 | fails exactly when the root is missing or some reachable node has no record; otherwise exactly the doomed nodes, their records and their edges are gone and everything else is unchanged |
| Prune.NoStatusSurvives | build_tree.py:103-125 | no surviving node reachable from the root carries the status |
| Prune.DoomedClosed | build_tree.py:108-111 | a node below a doomed node is doomed, so subtrees are removed whole |
| Prune.RootDoomed | build_tree.py:108-110 | the root is removed exactly when it carries the status itself |
| Prune.PruneIdempotent | build_tree.py:103-125 | when the root survives, pruning the result again gives the same graph |
| Prune.RemoveNone | build_tree.py:121-123 | removing nodes the graph does not hold leaves it unchanged |
| Prune.PruneTwiceFails | build_tree.py:103-125 | when the root carries the status, pruning the result again fails with the key error on the missing root |
| Pipeline.ReachIsSubtree | build_tree.py:110 | in the graph copy, the depth-first tree of a node is its subtree in the arena |
| Pipeline.ReachMatches | build_tree.py:110 | in any graph linking the nodes as the arena does, what a node reaches is its subtree |
| Pipeline.PruneTree | build_tree.py:145-146 | pruning the copied graph of a finished tree cannot fail; the survivors are exactly the nodes not under a `Removed` node, with their attributes, none of them `Removed`, and the links among them; the root survives iff it is not `Removed` |
| Pipeline.AddToTable | build_tree.py:129-147 | fails with the missing-root error exactly when there is no beginning row; on success the result is the pruned graph of a finished, breadth-first numbered tree (one distinct child per selected row) whose root is the satellite over the assemblies 1..n, each built from its beginning row, and it contains the satellite root with its attributes; it runs out of levels only on a table with a descent of `fuel + 1` linked rows, and never on a table without a cycle when `fuel` is at least the number of rows |
| Pipeline.InfoOutputOfPruned | output_tables.py:10-16 | the listing of the result of `add_to_table` cannot fail, and its rows are exactly the part rows of the nodes not under a `Removed` node |
| OutputTables.GraphToInfoOutput | output_tables.py:10-16 | fails exactly when a node has no record, naming such a node; otherwise the rows are duplicate-free and are exactly the part rows of the graph's nodes, the first node's row first |
| OutputTables.RemoveNonMagnets | output_tables.py:20-21 | keeps exactly the thruster-assembly and permanent-magnet rows, each as often as before, in the original order |
| OutputTables.RemoveNonMagnetsIdempotent | output_tables.py:20-21 | filtering twice is filtering once |
| OutputTables.CreateOneStatus | output_tables.py:25-31 | a row is kept, with all its copies, exactly when it is `Removed` or its group has no `Removed` row; nothing is added |
| OutputTables.CreateOneStatusGroups | output_tables.py:25-31 | each group becomes its `Removed` rows when it has one, and is otherwise unchanged, in its original order |
| OutputTables.CreateOneStatusKeepsGroups | output_tables.py:25-31 | no group disappears |
| OutputTables.RemovedSurvive | output_tables.py:25-31 | a group has a `Removed` row after the rule exactly when it had one before |
| OutputTables.CreateOneStatusIdempotent | output_tables.py:25-31 | applying the rule twice is applying it once |
| OutputTables.CollectWorkOrders | output_tables.py:40-45 | fails exactly when a magnet row has no test serial; otherwise collects exactly the test serials and the (serial, work order) pairs of the magnet rows |
| OutputTables.SnPnDict | output_tables.py:36-46 | fails exactly when a magnet row has no test serial; otherwise the keys are exactly the magnet rows' test serials, each mapped to exactly the part numbers the work-order map lists under a work order of a magnet row with that serial |
| OttoRecords.LoopFirst | otto_tests.py:59-65 | the value of the first item whose key matches, or the empty response when none does; a missing key on the way or a missing value key at the match is a failure naming that key |
| OttoRecords.LoopFirstCases | otto_tests.py:61-65 | the scan either passes over every item or stops at one, so the two cases above cover every list |
| OttoRecords.Property | otto_tests.py:67-116 | each property is the first-match lookup in links by name or in references by type, with its fixed key; the borg link is prefixed with the runs address |
| OttoRecords.QueryUrl | otto_tests.py:166-173 | the query string is the head (with or without a reference type) followed by one value clause per value, in order |
| OttoRecords.QueryRoundTrip | otto_tests.py:166-173 | a query string built from a type and values without `&` parses back to exactly that type and those values |
| MagnetTests.FluxCategory | otto_tests.py:199-204 | the first flux measurement of a step decides the category, outer below 700 and inner otherwise; a step without one decides nothing |
| MagnetTests.AxialPlacementsNonEmpty | otto_tests.py:196-204 | an axial result is appended at least once exactly when some property-checking step has a flux measurement |
| MagnetTests.UniformPlacements | otto_tests.py:196-204 | when all flux values are on one side of the threshold, every append goes to that side |
| MagnetTests.Placements | otto_tests.py:191-204 | reading the part number fails exactly for a passed magnet test whose serial has at least one expected part number and whose lookup fails (with none, the generator given to `any` never reads it); otherwise the result goes to category c exactly when it qualifies and its name and flux steps say c |
| MagnetTests.GroupVisits | otto_tests.py:189-204 | fails exactly when some visit needs the part number of a passed magnet test and cannot read it; otherwise a result is in a group exactly when some visit sends it there, and each group is the visits' contributions concatenated in visit order, one copy per placement |
| MagnetTests.GroupedConcat | otto_tests.py:189-204 | the groups built from two runs of visits are the groups of the first run followed by those of the second |
| MagnetTests.VisitsGrouped | otto_tests.py:187-190 | grouping all visits at once gives, for each category, the serials' contributions in key order, each in fetch order |
| MagnetTests.FindMagnetTestGroups | otto_tests.py:184-207 | fails exactly when some fetched passed magnet test of a serial with expected part numbers has no readable part number; otherwise a result is in the list of category c exactly when it was fetched for a serial whose part numbers send it to c, and the list of c is, serial by serial in key order and result by result in fetch order, one copy of the result per placement naming c |
| MagnetTests.Place | otto_tests.py:193-204 | appending a result to the lists its placements name grows each list at the end by exactly one copy per placement of that category |
| MagnetTests.Latest | otto_tests.py:215-222 | the chosen test has the latest date of the group, and every earlier-listed test is strictly older, so ties go to the first |
| MagnetTests.PickLatest | otto_tests.py:214-243 | one test per non-empty group, in radial, inner, outer order, each the latest of its group |
| MagnetTests.FindLatestMagnetTests | otto_tests.py:211-245 | fails exactly when the grouping fails; otherwise at most three tests, the latest of each non-empty group, in order |
| MagnetEntry.FluxKey | otto_tests.py:266 | the name from its first `flux` on; when there is none, `find` answers -1 and the key is the last character (empty for an empty name) |
| MagnetEntry.CollectKeep | otto_tests.py:263-266 | a collecting step writes only the unit key and cut names, and leaves every other key alone |
| MagnetEntry.PropertyWritesSpec | otto_tests.py:267-269 | a property step adds a key exactly when some measurement has that name, the last such measurement giving the value |
| MagnetEntry.LastWriteExists | otto_tests.py:262-269 | a key some measurement writes has a last write |
| MagnetEntry.ApplyStepsKeys | otto_tests.py:262-269 | after the step loop a non-collecting key is present exactly when it was before or some property measurement has its name |
| MagnetEntry.ApplyStepsLast | otto_tests.py:262-269 | the last property measurement of a name gives that key's value |
| MagnetEntry.ApplyStepsUnwritten | otto_tests.py:262-269 | a key no measurement writes keeps its value |
| MagnetEntry.FluxEntry | otto_tests.py:262-276 | the flux key is present exactly when some property step measures the flux, and then holds the last such value, always a number |
| MagnetEntry.GenerateMagnetTestEntry | otto_tests.py:249-281 | fails on the serial, then the part number lookup, and for an axial-only name exactly when no property step measures the flux; radial names get view radial and type combined; axial names get view axial and type outer or inner by the last flux value |
| MagnetEntry.EntryKeepsBase | otto_tests.py:252-260 | the fixed fields survive unless a measurement has the same name |
| MagnetEntry.EntryRecordsMeasurement | otto_tests.py:267-269 | every property measurement is recorded under its name, the last of a name winning, unless the view or type overwrites it |
| MagnetEntry.EntryMatchesGroup | otto_tests.py:274-279 | for an axial result whose flux values all lie on one side, and with no step that both collects and checks properties, the entry succeeds exactly when the grouping files the result on that side, and its type names that side |

## Left out

- Reading the database, pickles and CSV files, HTTP requests, printing and
  plotting are left out. Tables are sequences of rows. The results
  database is the parameter `fetch`. The work-order map is the sequence
  `woMap`.
- `find_thruster_root_info` and `find_regulator_root_info` are not part of
  this model. Neither is the display and analysis code.
- Genealogy.Grow: the source's level loop never ends when a cycle of
  parent links can be reached from the assemblies. Here each level costs
  one unit of `fuel`, and running out is the `DepthExhausted` failure.
  Genealogy.BuildTree states that running out needs a descent of
  `fuel + 1` linked rows. With `fuel` at least the number of rows, that
  descent repeats a row. So on a table without a cycle the build always
  finishes. The converse, that a reachable cycle makes the source loop for
  ever, is not stated.
- Pipeline.AddToTable: `str(sat)` is taken as already done; `sxid` is a
  string.
- Prune.RemoveSubtreesWithStatus requires that every edge goes from a
  smaller to a larger id. Every graph copied from the arena has this
  property. On a graph with a reachable cycle the recursive
  `mark_removed_subtrees` never returns on its own. It stops with Python's
  `RecursionError`.
- Python's recursion limit (1000 frames by default) is not modelled.
  `add_node_to_graph` and `mark_removed_subtrees` recurse once per tree
  level. So on a genealogy deeper than about a thousand levels the source
  raises `RecursionError`. NxGraph.BuildNetworkxTree and
  Prune.RemoveSubtreesWithStatus return a result there.
- Missing cells. The cells of the edge table are strings here. pandas
  holds a missing cell as NaN, and NaN equals nothing, not even itself.
  The model has no missing cells. So the parent-key comparisons of
  `continue_tree` and `add_next_level` (build_tree.py:65, 73) and the
  self-loop test (build_tree.py:76) are plain string equality. Two empty
  strings match where two NaN cells would not. For the same reason a
  builder node always has a serial, work order, test serial and status. So
  OutputTables.SnPnDict's `NoTestSerial` failure and its missing work
  order never arise from a table built by the builder. They arise only from
  part rows given directly.
- The internals of `networkx` (`dfs_tree`, `remove_node`) are modelled by
  their effect on nodes, records and edges. The reverse order in which the
  nodes are removed does not change the result, and is not modelled.
- OutputTables.CreateOneStatus: `groupby` emits the groups ordered by key.
  The model keeps the input order and states the result as counts per row
  and as group-by-group contents. Rows whose grouping key is missing, which
  `groupby` drops, are not modelled.
- OutputTables.SnPnDict: a row without a work order contributes no work
  order. pandas `isin` would match a missing work order against a missing
  entry of the work-order map; that case is not modelled.
- OutputTables.SnPnDict: the keys stay strings. The source converts them
  with `int()`; a test serial that is not a number is not modelled. A
  missing test serial is the `NoTestSerial` failure.
- `str.contains` is taken as a plain substring test. Its patterns here have
  no regular-expression metacharacters.
- `Result.__init__`, `__str__`, `grab_document`, `get_results_by_reference`
  and its `sort_by` ordering are left out. The model assumes that the step
  and measurement dictionaries always have their `description`,
  `measurements`, `name`, `value` and `unit` keys.
- Dates are integers; `pd.to_datetime` is taken as already applied.
  Measured values are reals, not floating point.
- MagnetEntry.GenerateMagnetTestEntry: the values left under the unit key
  and the cut names by collecting steps are not characterised beyond which
  keys they may touch. The order of the dictionary's keys is not modelled.
- The `Result` properties `issue_ticket`, `otto_link`, `borg`, `pcba_uuid`,
  `campaign_id`, `user`, `slot`, `sn`, `pn` and `workorder` are all
  instances of OttoRecords.Property.

## Notes on the behaviour

- Duplicate appends. In `find_magnet_test_groups` the `break` leaves only
  the loop over the measurements. An axial result therefore goes to a group
  once per property-checking step that has a flux measurement.
  MagnetTests.Placements keeps this multiplicity.
- The grouping and the entry can disagree. The grouping reads the first
  flux value of each step. The entry keeps the last flux value written
  across all steps. Take a step whose description contains both phrases.
  The grouping reads it as a property-checking step. The entry treats it as
  a collecting step: it writes `unit` and the keys cut at `flux`, not the
  measurement names. MagnetEntry.EntryMatchesGroup states when the two
  agree.
