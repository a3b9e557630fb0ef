/** Sorting magnet test results into radial, axial-inner and axial-outer
    groups, picking the latest test of each group, and flattening a test
    into the dictionary written as one output row. */
module MagnetTests {
  import opened Wrappers
  import opened Seqs
  import opened Text
  import opened OttoRecords

  datatype Category = Radial | AxialInner | AxialOuter

  const FluxName: string := "Average Magnetic Flux"

  /** Inner magnets carry the higher flux: below this an axial scan is of
      the outer magnets. */
  const FluxThreshold: real := 700.0

  const AgainstExpected: string := "against expected properties"
  const CollectMagnetic: string := "Collect Magnetic"

  /** The axial category a flux value stands for. */
  function FluxSide(value: real): Category {
    if value < FluxThreshold then AxialOuter else AxialInner
  }

  /** The first `Average Magnetic Flux` measurement of a step decides the
      category; a step without one decides nothing. */
  function FluxCategory(ms: seq<Measurement>): (r: Option<Category>)
    ensures r.Some? <==> exists i | 0 <= i < |ms| :: ms[i].name == FluxName
    ensures r.Some? ==> exists i | 0 <= i < |ms| ::
      && ms[i].name == FluxName
      && (forall j | 0 <= j < i :: ms[j].name != FluxName)
      && r.value == FluxSide(ms[i].value)
  {
    if ms == [] then None
    else if ms[0].name == FluxName then Some(FluxSide(ms[0].value))
    else
      var r := FluxCategory(ms[1..]);
      assert forall i | 1 <= i < |ms| :: ms[i] == ms[1..][i - 1];
      r
  }

  /** The lists an axial result is appended to: one entry per step checking
      the expected properties that has the flux, in step order. */
  function AxialPlacements(steps: seq<Step>): (r: seq<Category>)
    ensures |r| <= |steps|
    ensures Radial !in r
  {
    if steps == [] then []
    else
      var here :=
        if Contains(steps[0].description, AgainstExpected) then
          match FluxCategory(steps[0].measurements)
          case Some(c) => [c]
          case None => []
        else [];
      here + AxialPlacements(steps[1..])
  }

  /** Some step checking the expected properties has the flux. */
  ghost predicate HasAxialFlux(steps: seq<Step>) {
    exists i, j | 0 <= i < |steps| && 0 <= j < |steps[i].measurements| ::
      Contains(steps[i].description, AgainstExpected) && steps[i].measurements[j].name == FluxName
  }

  /** An axial result is placed at least once exactly when one of its
      property-checking steps has the flux. */
  lemma {:induction false} AxialPlacementsNonEmpty(steps: seq<Step>)
    ensures AxialPlacements(steps) != [] <==> HasAxialFlux(steps)
  {
    if steps != [] {
      AxialPlacementsNonEmpty(steps[1..]);
      if HasAxialFlux(steps) {
        var i, j :| 0 <= i < |steps| && 0 <= j < |steps[i].measurements|
          && Contains(steps[i].description, AgainstExpected) && steps[i].measurements[j].name == FluxName;
        if i > 0 {
          assert steps[1..][i - 1] == steps[i];
        }
      }
      if HasAxialFlux(steps[1..]) {
        var i, j :| 0 <= i < |steps[1..]| && 0 <= j < |steps[1..][i].measurements|
          && Contains(steps[1..][i].description, AgainstExpected) && steps[1..][i].measurements[j].name == FluxName;
        assert steps[i + 1] == steps[1..][i];
      }
    }
  }

  /** The flux values of the property-checking steps all lie on one side of
      the threshold. */
  ghost predicate UniformFlux(steps: seq<Step>, c: Category) {
    forall i, j | 0 <= i < |steps| && 0 <= j < |steps[i].measurements| ::
      Contains(steps[i].description, AgainstExpected) && steps[i].measurements[j].name == FluxName ==>
      FluxSide(steps[i].measurements[j].value) == c
  }

  /** With all flux values on one side, every placement is that side. */
  lemma {:induction false} UniformPlacements(steps: seq<Step>, c: Category)
    requires UniformFlux(steps, c)
    ensures forall d | d in AxialPlacements(steps) :: d == c
  {
    if steps != [] {
      assert forall i | 1 <= i < |steps| :: steps[i] == steps[1..][i - 1];
      UniformPlacements(steps[1..], c);
    }
  }

  /** `'magnet' in result.name and result.outcome == 'pass'`. */
  predicate IsMagnetPass(res: OttoResult) {
    Contains(res.name, "magnet") && res.outcome == "pass"
  }

  /** Some expected part number occurs in the result's part number. */
  predicate MatchesPart(pn: string, pns: set<string>) {
    exists e | e in pns :: Contains(pn, e)
  }

  /** The result passes the filter of `find_magnet_test_groups` for the part
      numbers `pns` of its test serial. */
  ghost predicate Qualifies(res: OttoResult, pns: set<string>) {
    && IsMagnetPass(res)
    && Property(res, PartNumber).Success?
    && MatchesPart(Property(res, PartNumber).value, pns)
  }

  /** The result belongs to the list of category `c`: `Radial` in the name
      wins; otherwise an `Axial` name and a flux step of that side. */
  ghost predicate GoesTo(res: OttoResult, pns: set<string>, c: Category) {
    && Qualifies(res, pns)
    && if c == Radial then Contains(res.name, "Radial")
       else !Contains(res.name, "Radial") && Contains(res.name, "Axial") && c in AxialPlacements(res.steps)
  }

  /** A passed magnet test whose part number is needed but cannot be read.
      The part number is read inside the generator given to `any`, so it is
      read only when the serial has at least one expected part number. */
  predicate PartNumberUnreadable(res: OttoResult, pns: set<string>) {
    IsMagnetPass(res) && pns != {} && Property(res, PartNumber).Failure?
  }

  /** The lists one fetched result is appended to, in order. Reading the
      part number can fail; it is read only for a passed magnet test of a
      serial with expected part numbers. */
  function Placements(res: OttoResult, pns: set<string>): (r: Result<seq<Category>, LookupError>)
    ensures r.Failure? <==> PartNumberUnreadable(res, pns)
    ensures r.Success? ==> forall c :: c in r.value <==> GoesTo(res, pns, c)
  {
    if !IsMagnetPass(res) then Success([])
    else if pns == {} then Success([])
    else
      var pn :- Property(res, PartNumber);
      if !MatchesPart(pn, pns) then Success([])
      else if Contains(res.name, "Radial") then Success([Radial])
      else if Contains(res.name, "Axial") then Success(AxialPlacements(res.steps))
      else Success([])
  }

  datatype Groups = Groups(radial: seq<OttoResult>, inner: seq<OttoResult>, outer: seq<OttoResult>)

  const NoGroups: Groups := Groups([], [], [])

  /** The list of category `c`. */
  function ListOf(g: Groups, c: Category): seq<OttoResult> {
    match c
    case Radial => g.radial
    case AxialInner => g.inner
    case AxialOuter => g.outer
  }

  /** `groups[c].append(res)`. */
  function Append(g: Groups, c: Category, res: OttoResult): (r: Groups)
    ensures ListOf(r, c) == ListOf(g, c) + [res]
    ensures forall d | d != c :: ListOf(r, d) == ListOf(g, d)
  {
    match c
    case Radial => g.(radial := g.radial + [res])
    case AxialInner => g.(inner := g.inner + [res])
    case AxialOuter => g.(outer := g.outer + [res])
  }

  /** `r` is `g` with `res` appended to the list of each category of
      `cats`: the lists grow at the end, by `res` only, exactly for those
      categories. */
  ghost predicate PlacedIn(g: Groups, r: Groups, res: OttoResult, cats: seq<Category>) {
    && (forall c, x :: x in ListOf(r, c) <==> x in ListOf(g, c) || (x == res && c in cats))
    && (forall c :: IsPrefix(ListOf(g, c), ListOf(r, c)))
  }

  /** One copy of `x` for every occurrence of `c` in `cats`. */
  function AppendsTo(cats: seq<Category>, c: Category, x: OttoResult): (r: seq<OttoResult>)
    ensures forall y | y in r :: y == x
    ensures |r| <= |cats|
  {
    if cats == [] then []
    else (if cats[0] == c then [x] else []) + AppendsTo(cats[1..], c, x)
  }

  /** Appends `res` to the list of each category of `cats`, in order. */
  function Place(g: Groups, res: OttoResult, cats: seq<Category>): (r: Groups)
    ensures PlacedIn(g, r, res, cats)
    ensures forall c :: ListOf(r, c) == ListOf(g, c) + AppendsTo(cats, c, res)
    decreases |cats|
  {
    if cats == [] then g
    else
      var g1 := Append(g, cats[0], res);
      var r := Place(g1, res, cats[1..]);
      PlaceStep(g, g1, r, res, cats);
      PlaceStepLists(g, g1, r, res, cats);
      r
  }

  lemma PlaceStep(g: Groups, g1: Groups, r: Groups, res: OttoResult, cats: seq<Category>)
    requires cats != [] && g1 == Append(g, cats[0], res)
    requires PlacedIn(g1, r, res, cats[1..])
    ensures PlacedIn(g, r, res, cats)
  {
    assert forall c :: c in cats <==> c == cats[0] || c in cats[1..];
    assert forall c :: IsPrefix(ListOf(g, c), ListOf(g1, c));
  }

  lemma PlaceStepLists(g: Groups, g1: Groups, r: Groups, res: OttoResult, cats: seq<Category>)
    requires cats != [] && g1 == Append(g, cats[0], res)
    requires forall c :: ListOf(r, c) == ListOf(g1, c) + AppendsTo(cats[1..], c, res)
    ensures forall c :: ListOf(r, c) == ListOf(g, c) + AppendsTo(cats, c, res)
  {
    forall c
      ensures ListOf(r, c) == ListOf(g, c) + AppendsTo(cats, c, res)
    {
      var here := if cats[0] == c then [res] else [];
      assert ListOf(g1, c) == ListOf(g, c) + here;
      assert AppendsTo(cats, c, res) == here + AppendsTo(cats[1..], c, res);
      ConcatAssoc(ListOf(g, c), here, AppendsTo(cats[1..], c, res));
    }
  }

  /** The results fetched for one serial, each paired with that serial's
      part numbers. */
  function Pair(results: seq<OttoResult>, pns: set<string>): (r: seq<(OttoResult, set<string>)>)
    ensures |r| == |results|
    ensures forall j | 0 <= j < |r| :: r[j] == (results[j], pns)
  {
    seq(|results|, j requires 0 <= j < |results| => (results[j], pns))
  }

  /** The fetched results paired with their serial's part numbers, in the
      order the two loops of `find_magnet_test_groups` visit them. */
  function Visits(order: seq<string>, snpn: map<string, set<string>>, fetch: string -> seq<OttoResult>): (r: seq<(OttoResult, set<string>)>)
    requires forall i | 0 <= i < |order| :: order[i] in snpn
    ensures forall v :: v in r <==> exists i, j | 0 <= i < |order| && 0 <= j < |fetch(order[i])| ::
      v == (fetch(order[i])[j], snpn[order[i]])
  {
    if order == [] then []
    else
      var k := order[0];
      var here := Pair(fetch(k), snpn[k]);
      var rest := Visits(order[1..], snpn, fetch);
      assert forall i | 1 <= i < |order| :: order[i] == order[1..][i - 1];
      forall v | v in rest
        ensures exists i, j | 0 <= i < |order| && 0 <= j < |fetch(order[i])| :: v == (fetch(order[i])[j], snpn[order[i]])
      {
        var i, j :| 0 <= i < |order[1..]| && 0 <= j < |fetch(order[1..][i])| && v == (fetch(order[1..][i])[j], snpn[order[1..][i]]);
        assert order[i + 1] == order[1..][i];
      }
      forall v | exists i, j | 0 <= i < |order| && 0 <= j < |fetch(order[i])| :: v == (fetch(order[i])[j], snpn[order[i]])
        ensures v in here + rest
      {
        var i, j :| 0 <= i < |order| && 0 <= j < |fetch(order[i])| && v == (fetch(order[i])[j], snpn[order[i]]);
        if i == 0 {
          assert here[j] == v;
        } else {
          assert order[1..][i - 1] == order[i];
        }
      }
      here + rest
  }

  /** Some visit sends `x` to the list of category `c`. */
  ghost predicate Sent(vs: seq<(OttoResult, set<string>)>, c: Category, x: OttoResult) {
    exists v | v in vs :: v.0 == x && GoesTo(x, v.1, c)
  }

  /** What one visit adds to the list of category `c`: a copy of the result
      for every placement naming `c`, nothing when the part number read
      fails. */
  function Sends(v: (OttoResult, set<string>), c: Category): seq<OttoResult> {
    match Placements(v.0, v.1)
    case Success(cats) => AppendsTo(cats, c, v.0)
    case Failure(_) => []
  }

  /** The list of category `c` the visits build, read front to back: the
      contributions of the visits in visit order. */
  function Grouped(vs: seq<(OttoResult, set<string>)>, c: Category): seq<OttoResult>
    decreases |vs|
  {
    if vs == [] then [] else Sends(vs[0], c) + Grouped(vs[1..], c)
  }

  lemma {:induction false} GroupedConcat(a: seq<(OttoResult, set<string>)>, b: seq<(OttoResult, set<string>)>, c: Category)
    ensures Grouped(a + b, c) == Grouped(a, c) + Grouped(b, c)
    decreases |a|
  {
    if a != [] {
      assert (a + b)[0] == a[0];
      assert (a + b)[1..] == a[1..] + b;
      GroupedConcat(a[1..], b, c);
      ConcatAssoc(Sends(a[0], c), Grouped(a[1..], c), Grouped(b, c));
    } else {
      assert a + b == b;
    }
  }

  /** The list of category `c` by serial: the contributions of the results
      fetched for each serial, serials in key order, results in fetch
      order. */
  function SerialGroup(order: seq<string>, snpn: map<string, set<string>>, fetch: string -> seq<OttoResult>, c: Category): seq<OttoResult>
    requires forall i | 0 <= i < |order| :: order[i] in snpn
    decreases |order|
  {
    if order == [] then []
    else
      assert forall i | 1 <= i < |order| :: order[1..][i - 1] == order[i];
      Grouped(Pair(fetch(order[0]), snpn[order[0]]), c) + SerialGroup(order[1..], snpn, fetch, c)
  }

  /** Grouping all visits at once gives the serial-by-serial lists. */
  lemma {:induction false} VisitsGrouped(order: seq<string>, snpn: map<string, set<string>>, fetch: string -> seq<OttoResult>, c: Category)
    requires forall i | 0 <= i < |order| :: order[i] in snpn
    ensures Grouped(Visits(order, snpn, fetch), c) == SerialGroup(order, snpn, fetch, c)
    decreases |order|
  {
    if order != [] {
      assert forall i | 1 <= i < |order| :: order[1..][i - 1] == order[i];
      VisitsGrouped(order[1..], snpn, fetch, c);
      GroupedConcat(Pair(fetch(order[0]), snpn[order[0]]), Visits(order[1..], snpn, fetch), c);
    }
  }

  /** Some visit with a passed magnet test fails to yield its part number. */
  ghost predicate SomePartNumberFails(vs: seq<(OttoResult, set<string>)>) {
    exists v | v in vs :: PartNumberUnreadable(v.0, v.1)
  }

  /** The loops of `find_magnet_test_groups` over the visits: every result is
      appended to the lists its placements name. The first failing part
      number read aborts. */
  function GroupVisits(vs: seq<(OttoResult, set<string>)>): (r: Result<Groups, LookupError>)
    ensures r.Failure? <==> SomePartNumberFails(vs)
    ensures r.Success? ==> forall c, x :: x in ListOf(r.value, c) <==> Sent(vs, c, x)
    ensures r.Success? ==> forall c :: ListOf(r.value, c) == Grouped(vs, c)
    decreases |vs|
  {
    if vs == [] then Success(NoGroups)
    else
      var init, last := vs[..|vs| - 1], vs[|vs| - 1];
      assert vs == init + [last];
      assert forall v :: v in vs <==> v in init || v == last;
      var g :- GroupVisits(init);
      var cats :- Placements(last.0, last.1);
      var r := Place(g, last.0, cats);
      forall c
        ensures ListOf(r, c) == Grouped(vs, c)
      {
        GroupedConcat(init, [last], c);
        assert Grouped([last], c) == Sends(last, c);
      }
      Success(r)
  }

  /** `find_magnet_test_groups(snpndict)`, with the dictionary's key order
      `order` and the database lookup `fetch` as parameters: a result fetched
      for a serial is in the list of category `c` exactly when it goes there
      for that serial's part numbers. */
  function FindMagnetTestGroups(order: seq<string>, snpn: map<string, set<string>>, fetch: string -> seq<OttoResult>): (r: Result<Groups, LookupError>)
    requires forall i | 0 <= i < |order| :: order[i] in snpn
    ensures r.Failure? <==> exists i, j | 0 <= i < |order| && 0 <= j < |fetch(order[i])| ::
      PartNumberUnreadable(fetch(order[i])[j], snpn[order[i]])
    ensures r.Success? ==> forall c, x :: x in ListOf(r.value, c) <==>
      exists i, j | 0 <= i < |order| && 0 <= j < |fetch(order[i])| ::
        x == fetch(order[i])[j] && GoesTo(x, snpn[order[i]], c)
    ensures r.Success? ==> forall c :: ListOf(r.value, c) == SerialGroup(order, snpn, fetch, c)
  {
    var vs := Visits(order, snpn, fetch);
    VisitsFail(order, snpn, fetch);
    VisitsSent(order, snpn, fetch);
    forall c
      ensures Grouped(vs, c) == SerialGroup(order, snpn, fetch, c)
    {
      VisitsGrouped(order, snpn, fetch, c);
    }
    GroupVisits(vs)
  }

  /** The failure of the part number reads, restated by serial and
      position. */
  lemma VisitsFail(order: seq<string>, snpn: map<string, set<string>>, fetch: string -> seq<OttoResult>)
    requires forall i | 0 <= i < |order| :: order[i] in snpn
    ensures SomePartNumberFails(Visits(order, snpn, fetch)) <==>
      exists i, j | 0 <= i < |order| && 0 <= j < |fetch(order[i])| :: PartNumberUnreadable(fetch(order[i])[j], snpn[order[i]])
  {
    var vs := Visits(order, snpn, fetch);
    if SomePartNumberFails(vs) {
      var v :| v in vs && PartNumberUnreadable(v.0, v.1);
      var i, j :| 0 <= i < |order| && 0 <= j < |fetch(order[i])| && v == (fetch(order[i])[j], snpn[order[i]]);
      assert PartNumberUnreadable(fetch(order[i])[j], snpn[order[i]]);
    }
    if exists i, j | 0 <= i < |order| && 0 <= j < |fetch(order[i])| :: PartNumberUnreadable(fetch(order[i])[j], snpn[order[i]]) {
      var i, j :| 0 <= i < |order| && 0 <= j < |fetch(order[i])| && PartNumberUnreadable(fetch(order[i])[j], snpn[order[i]]);
      assert (fetch(order[i])[j], snpn[order[i]]) in vs;
    }
  }

  /** Where the visits send `x`, restated by serial and position. */
  lemma VisitsSentAt(order: seq<string>, snpn: map<string, set<string>>, fetch: string -> seq<OttoResult>, c: Category, x: OttoResult)
    requires forall i | 0 <= i < |order| :: order[i] in snpn
    ensures Sent(Visits(order, snpn, fetch), c, x) <==>
      exists i, j | 0 <= i < |order| && 0 <= j < |fetch(order[i])| ::
        x == fetch(order[i])[j] && GoesTo(x, snpn[order[i]], c)
  {
    var vs := Visits(order, snpn, fetch);
    if Sent(vs, c, x) {
      var v :| v in vs && v.0 == x && GoesTo(x, v.1, c);
      var i, j :| 0 <= i < |order| && 0 <= j < |fetch(order[i])| && v == (fetch(order[i])[j], snpn[order[i]]);
    }
    if exists i, j | 0 <= i < |order| && 0 <= j < |fetch(order[i])| ::
        x == fetch(order[i])[j] && GoesTo(x, snpn[order[i]], c) {
      var i, j :| 0 <= i < |order| && 0 <= j < |fetch(order[i])|
        && x == fetch(order[i])[j] && GoesTo(x, snpn[order[i]], c);
      assert (fetch(order[i])[j], snpn[order[i]]) in vs;
    }
  }

  lemma VisitsSent(order: seq<string>, snpn: map<string, set<string>>, fetch: string -> seq<OttoResult>)
    requires forall i | 0 <= i < |order| :: order[i] in snpn
    ensures forall c, x :: Sent(Visits(order, snpn, fetch), c, x) <==>
      exists i, j | 0 <= i < |order| && 0 <= j < |fetch(order[i])| ::
        x == fetch(order[i])[j] && GoesTo(x, snpn[order[i]], c)
  {
    forall c, x
      ensures Sent(Visits(order, snpn, fetch), c, x) <==>
        exists i, j | 0 <= i < |order| && 0 <= j < |fetch(order[i])| ::
          x == fetch(order[i])[j] && GoesTo(x, snpn[order[i]], c)
    {
      VisitsSentAt(order, snpn, fetch, c, x);
    }
  }

  /** Position `i` holds a latest test of `tests`, and every earlier test is
      strictly older: ties go to the first listed. */
  predicate LatestAt(tests: seq<OttoResult>, i: nat) {
    && i < |tests|
    && (forall j | 0 <= j < |tests| :: tests[j].date <= tests[i].date)
    && (forall j | 0 <= j < i :: tests[j].date < tests[i].date)
  }

  /** The scan of one group in `find_latest_magnet_tests`: start from the
      first test, replace it only by a strictly later one. */
  method Latest(tests: seq<OttoResult>) returns (best: nat)
    requires tests != []
    ensures LatestAt(tests, best)
  {
    best := 0;
    var i := 0;
    while i < |tests|
      invariant 0 <= i <= |tests| && best < |tests| && (best < i || best == 0)
      invariant forall j | 0 <= j < i :: tests[j].date <= tests[best].date
      invariant forall j | 0 <= j < best :: tests[j].date < tests[best].date
    {
      if tests[i].date > tests[best].date {
        best := i;
      }
      i := i + 1;
    }
  }

  /** The non-empty groups in the order radial, inner, outer. */
  function NonEmptyGroups(g: Groups): (r: seq<seq<OttoResult>>)
    ensures |r| <= 3
    ensures forall k | 0 <= k < |r| :: r[k] != []
  {
    (if g.radial != [] then [g.radial] else [])
      + (if g.inner != [] then [g.inner] else [])
      + (if g.outer != [] then [g.outer] else [])
  }

  /** `x` is the latest test of `tests`, first among equals. */
  ghost predicate IsLatest(tests: seq<OttoResult>, x: OttoResult) {
    exists i: nat :: LatestAt(tests, i) && x == tests[i]
  }

  /** The three guarded scans: the latest test of every non-empty group,
      radial first, then inner, then outer. */
  method PickLatest(g: Groups) returns (r: seq<OttoResult>)
    ensures |r| == |NonEmptyGroups(g)|
    ensures forall k | 0 <= k < |r| :: IsLatest(NonEmptyGroups(g)[k], r[k])
  {
    r := [];
    if g.radial != [] {
      var best := Latest(g.radial);
      r := r + [g.radial[best]];
    }
    if g.inner != [] {
      var best := Latest(g.inner);
      r := r + [g.inner[best]];
    }
    if g.outer != [] {
      var best := Latest(g.outer);
      r := r + [g.outer[best]];
    }
  }

  /** `find_latest_magnet_tests(snpndict)`: at most one test per category,
      the latest of its group, in the order radial, inner, outer. */
  method FindLatestMagnetTests(order: seq<string>, snpn: map<string, set<string>>, fetch: string -> seq<OttoResult>)
    returns (r: Result<seq<OttoResult>, LookupError>)
    requires forall i | 0 <= i < |order| :: order[i] in snpn
    ensures r.Failure? <==> FindMagnetTestGroups(order, snpn, fetch).Failure?
    ensures r.Success? ==>
      var ne := NonEmptyGroups(FindMagnetTestGroups(order, snpn, fetch).value);
      && |r.value| == |ne| <= 3
      && forall k | 0 <= k < |r.value| :: IsLatest(ne[k], r.value[k])
  {
    var groups := FindMagnetTestGroups(order, snpn, fetch);
    if groups.Failure? {
      return Failure(groups.error);
    }
    var picked := PickLatest(groups.value);
    r := Success(picked);
  }
}
