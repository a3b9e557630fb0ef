/** `generate_magnet_test_entry`: one magnet test flattened into the
    dictionary written as one row of the test table. */
module MagnetEntry {
  import opened Wrappers
  import opened Text
  import opened OttoRecords
  import opened MagnetTests

  /** A value of the dictionary: a string, a measured number or the
      completion date. */
  datatype Value = Str(s: string) | Number(x: real) | Stamp(t: int)

  type Entry = map<string, Value>

  const FluxTag: string := "flux"

  /** A key only a collecting step can write: the unit key, or a name cut
      at `flux`, which is one character or less when `flux` is absent. */
  predicate CollectKey(k: string) {
    k == "unit" || |k| <= 1 || (|k| >= 4 && k[..4] == FluxTag)
  }

  /** `name[name.find('flux'):]`: from the first `flux` on, and, since
      `find` answers -1 when there is none, the last character otherwise. */
  function FluxKey(name: string): (r: string)
    ensures Contains(name, FluxTag) ==> 4 <= |r| <= |name| && r[..4] == FluxTag && r == name[|name| - |r|..]
    ensures !Contains(name, FluxTag) ==> r == if name == [] then [] else [name[|name| - 1]]
    ensures CollectKey(r)
  {
    var k := Find(name, FluxTag);
    if k >= 0 then
      assert name[k..][..4] == name[k..k + 4];
      name[k..]
    else if name == [] then []
    else name[|name| - 1..]
  }

  /** The fields every entry starts from, before the measurements. */
  function BaseEntry(res: OttoResult, sat: string, sn: string, pn: string): Entry {
    map[
      "sxid" := Str(sat),
      "test_sn" := Str(sn),
      "pn" := Str(pn),
      "test_type" := Str("magnet"),
      "date" := Stamp(res.date),
      "test_id" := Str(res.caseId),
      "otto_link" := Str(res.otto),
      "name" := Str(res.name),
      "outcome" := Str(res.outcome)]
  }

  predicate CollectStep(st: Step) {
    Contains(st.description, CollectMagnetic)
  }

  /** A step checking the expected properties; the `elif` gives a collecting
      step precedence. */
  predicate PropertyStep(st: Step) {
    !CollectStep(st) && Contains(st.description, AgainstExpected)
  }

  /** A collecting step: each measurement writes the unit and its value
      under the cut name, in order. */
  function CollectWrites(d: Entry, ms: seq<Measurement>): Entry
    decreases |ms|
  {
    if ms == [] then d
    else
      var last := ms[|ms| - 1];
      CollectWrites(d, ms[..|ms| - 1])["unit" := Str(last.unit)][FluxKey(last.name) := Number(last.value)]
  }

  /** A property step: each measurement writes its value under its name. */
  function PropertyWrites(d: Entry, ms: seq<Measurement>): Entry
    decreases |ms|
  {
    if ms == [] then d
    else
      var last := ms[|ms| - 1];
      PropertyWrites(d, ms[..|ms| - 1])[last.name := Number(last.value)]
  }

  function StepWrites(d: Entry, st: Step): Entry {
    if CollectStep(st) then CollectWrites(d, st.measurements)
    else if PropertyStep(st) then PropertyWrites(d, st.measurements)
    else d
  }

  /** The loop over the steps, in order. */
  function ApplySteps(d: Entry, steps: seq<Step>): Entry
    decreases |steps|
  {
    if steps == [] then d
    else StepWrites(ApplySteps(d, steps[..|steps| - 1]), steps[|steps| - 1])
  }

  /** A collecting step leaves every other key alone. */
  lemma {:induction false} CollectKeep(d: Entry, ms: seq<Measurement>, k: string)
    requires !CollectKey(k)
    ensures k in CollectWrites(d, ms) <==> k in d
    ensures k in d ==> CollectWrites(d, ms)[k] == d[k]
    decreases |ms|
  {
    if ms != [] {
      CollectKeep(d, ms[..|ms| - 1], k);
      var last := ms[|ms| - 1];
      assert FluxKey(last.name) != k;
    }
  }

  /** Measurement `j` is the last one of `ms` named `k`. */
  predicate LastNamed(ms: seq<Measurement>, j: int, k: string) {
    && 0 <= j < |ms| && ms[j].name == k
    && forall j' | j < j' < |ms| :: ms[j'].name != k
  }

  /** A property step: key `k` is there when it was or some measurement
      has its name; the last such measurement gives the value. */
  lemma {:induction false} PropertyWritesSpec(d: Entry, ms: seq<Measurement>, k: string)
    ensures k in PropertyWrites(d, ms) <==> k in d || exists j | 0 <= j < |ms| :: ms[j].name == k
    ensures forall j | LastNamed(ms, j, k) :: PropertyWrites(d, ms)[k] == Number(ms[j].value)
    ensures (forall j | 0 <= j < |ms| :: ms[j].name != k) && k in d ==> PropertyWrites(d, ms)[k] == d[k]
    decreases |ms|
  {
    if ms != [] {
      var init, last := ms[..|ms| - 1], ms[|ms| - 1];
      PropertyWritesSpec(d, init, k);
      assert forall j | 0 <= j < |init| :: ms[j] == init[j];
      forall j | LastNamed(ms, j, k)
        ensures PropertyWrites(d, ms)[k] == Number(ms[j].value)
      {
        if j < |init| {
          assert LastNamed(init, j, k);
        }
      }
    }
  }

  /** Measurement `j` of step `i` writes its value under `k`. */
  ghost predicate WritesAt(steps: seq<Step>, i: int, j: int, k: string) {
    && 0 <= i < |steps| && 0 <= j < |steps[i].measurements|
    && PropertyStep(steps[i]) && steps[i].measurements[j].name == k
  }

  /** ... and no later measurement writes `k` again. */
  ghost predicate LastWriteAt(steps: seq<Step>, i: int, j: int, k: string) {
    && WritesAt(steps, i, j, k)
    && LastNamed(steps[i].measurements, j, k)
    && forall i', j' | i < i' :: !WritesAt(steps, i', j', k)
  }

  /** No measurement writes `k`. */
  ghost predicate Unwritten(steps: seq<Step>, k: string) {
    forall i, j :: !WritesAt(steps, i, j, k)
  }

  /** Whatever key a measurement writes, some measurement writes it last. */
  lemma {:induction false} LastWriteExists(steps: seq<Step>, k: string)
    requires !Unwritten(steps, k)
    ensures exists i, j :: LastWriteAt(steps, i, j, k)
    decreases |steps|
  {
    var init, last := steps[..|steps| - 1], steps[|steps| - 1];
    assert forall i | 0 <= i < |init| :: steps[i] == init[i];
    if PropertyStep(last) && exists j | 0 <= j < |last.measurements| :: last.measurements[j].name == k {
      LastIndexExists(last.measurements, k);
      var j :| LastNamed(last.measurements, j, k);
      assert LastWriteAt(steps, |init|, j, k);
    } else {
      assert forall j :: !WritesAt(steps, |init|, j, k);
      var i, j :| WritesAt(steps, i, j, k);
      assert WritesAt(init, i, j, k);
      LastWriteExists(init, k);
      var i', j' :| LastWriteAt(init, i', j', k);
      assert forall i'', j'' | i'' < |init| :: WritesAt(steps, i'', j'', k) <==> WritesAt(init, i'', j'', k);
      assert LastWriteAt(steps, i', j', k);
    }
  }

  /** The last measurement of `ms` named `k`, when there is one. */
  lemma {:induction false} LastIndexExists(ms: seq<Measurement>, k: string)
    requires exists j | 0 <= j < |ms| :: ms[j].name == k
    ensures exists j :: LastNamed(ms, j, k)
    decreases |ms|
  {
    var last := |ms| - 1;
    if ms[last].name == k {
      assert LastNamed(ms, last, k);
    } else {
      var init := ms[..last];
      var j :| 0 <= j < |ms| && ms[j].name == k;
      assert init[j] == ms[j];
      LastIndexExists(init, k);
      var j' :| LastNamed(init, j', k);
      assert LastNamed(ms, j', k);
    }
  }

  /** Some measurement of step `st` writes `k`. */
  predicate StepWritesKey(st: Step, k: string) {
    PropertyStep(st) && exists j | 0 <= j < |st.measurements| :: st.measurements[j].name == k
  }

  /** One step, on a key no collecting step can write. */
  lemma StepWritesSpec(d: Entry, st: Step, k: string)
    requires !CollectKey(k)
    ensures k in StepWrites(d, st) <==> k in d || StepWritesKey(st, k)
    ensures !StepWritesKey(st, k) && k in d ==> StepWrites(d, st)[k] == d[k]
    ensures forall j | PropertyStep(st) && LastNamed(st.measurements, j, k) ::
      StepWrites(d, st)[k] == Number(st.measurements[j].value)
  {
    if CollectStep(st) {
      CollectKeep(d, st.measurements, k);
    } else if PropertyStep(st) {
      PropertyWritesSpec(d, st.measurements, k);
    }
  }

  /** The writes of `init + [last]` are those of `init` and those of
      `last`. */
  lemma StepsSplit(init: seq<Step>, last: Step, k: string)
    ensures forall i, j :: WritesAt(init, i, j, k) <==> i < |init| && WritesAt(init + [last], i, j, k)
    ensures forall j :: WritesAt(init + [last], |init|, j, k) <==>
      PropertyStep(last) && 0 <= j < |last.measurements| && last.measurements[j].name == k
    ensures Unwritten(init + [last], k) <==> Unwritten(init, k) && !StepWritesKey(last, k)
  {
    var steps := init + [last];
    assert forall i | 0 <= i < |init| :: steps[i] == init[i];
    if !Unwritten(steps, k) && Unwritten(init, k) {
      var i, j :| WritesAt(steps, i, j, k);
      if i < |init| {
        assert WritesAt(init, i, j, k);
      }
    }
    if StepWritesKey(last, k) {
      var j :| 0 <= j < |last.measurements| && last.measurements[j].name == k;
      assert WritesAt(steps, |init|, j, k);
    }
    if !Unwritten(init, k) {
      var i, j :| WritesAt(init, i, j, k);
      assert WritesAt(steps, i, j, k);
    }
  }

  /** The measurements of all steps, on a key no collecting step can write:
      present when it was or some measurement writes it. */
  lemma {:induction false} ApplyStepsKeys(d: Entry, steps: seq<Step>, k: string)
    requires !CollectKey(k)
    ensures k in ApplySteps(d, steps) <==> k in d || !Unwritten(steps, k)
    decreases |steps|
  {
    if steps != [] {
      var init, last := steps[..|steps| - 1], steps[|steps| - 1];
      ApplyStepsKeys(d, init, k);
      assert steps == init + [last];
      StepsSplit(init, last, k);
      StepWritesSpec(ApplySteps(d, init), last, k);
    }
  }

  /** ... and the last write wins. */
  lemma {:induction false} ApplyStepsLast(d: Entry, steps: seq<Step>, k: string, i: int, j: int)
    requires !CollectKey(k) && LastWriteAt(steps, i, j, k)
    ensures k in ApplySteps(d, steps)
    ensures ApplySteps(d, steps)[k] == Number(steps[i].measurements[j].value)
    decreases |steps|
  {
    var init, last := steps[..|steps| - 1], steps[|steps| - 1];
    assert steps == init + [last];
    StepsSplit(init, last, k);
    StepWritesSpec(ApplySteps(d, init), last, k);
    if i < |init| {
      assert init[i] == steps[i];
      assert !StepWritesKey(last, k);
      assert LastWriteAt(init, i, j, k);
      ApplyStepsLast(d, init, k, i, j);
    }
  }

  /** ... and an unwritten key keeps its value. */
  lemma {:induction false} ApplyStepsUnwritten(d: Entry, steps: seq<Step>, k: string)
    requires !CollectKey(k) && Unwritten(steps, k) && k in d
    ensures k in ApplySteps(d, steps) && ApplySteps(d, steps)[k] == d[k]
    decreases |steps|
  {
    if steps != [] {
      var init, last := steps[..|steps| - 1], steps[|steps| - 1];
      assert steps == init + [last];
      StepsSplit(init, last, k);
      ApplyStepsUnwritten(d, init, k);
      StepWritesSpec(ApplySteps(d, init), last, k);
    }
  }

  /** The flux key is neither a collecting key nor one of the fields every
      entry starts from. */
  lemma FluxNameIsMeasured(res: OttoResult, sat: string, sn: string, pn: string)
    ensures !CollectKey(FluxName) && FluxName !in BaseEntry(res, sat, sn, pn)
  {
    assert FluxName[0] == 'A';
  }

  /** The flux key of an entry: present exactly when some property step
      measures the flux, and then the last such measurement, a number. */
  lemma FluxEntry(res: OttoResult, sat: string, sn: string, pn: string)
    ensures FluxName in ApplySteps(BaseEntry(res, sat, sn, pn), res.steps) <==> !Unwritten(res.steps, FluxName)
    ensures forall i, j | LastWriteAt(res.steps, i, j, FluxName) ::
      ApplySteps(BaseEntry(res, sat, sn, pn), res.steps)[FluxName] == Number(res.steps[i].measurements[j].value)
    ensures FluxName in ApplySteps(BaseEntry(res, sat, sn, pn), res.steps) ==>
      ApplySteps(BaseEntry(res, sat, sn, pn), res.steps)[FluxName].Number?
  {
    var base := BaseEntry(res, sat, sn, pn);
    FluxNameIsMeasured(res, sat, sn, pn);
    ApplyStepsKeys(base, res.steps, FluxName);
    forall i, j | LastWriteAt(res.steps, i, j, FluxName)
      ensures ApplySteps(base, res.steps)[FluxName] == Number(res.steps[i].measurements[j].value)
    {
      ApplyStepsLast(base, res.steps, FluxName, i, j);
    }
    if !Unwritten(res.steps, FluxName) {
      LastWriteExists(res.steps, FluxName);
    }
  }

  /** The `magnet_type` written for a category. */
  function SideName(c: Category): string {
    match c
    case Radial => "combined"
    case AxialInner => "inner"
    case AxialOuter => "outer"
  }

  /** An axial result: `Axial` in the name and no `Radial`. */
  predicate AxialOnly(name: string) {
    !Contains(name, "Radial") && Contains(name, "Axial")
  }

  /** `generate_magnet_test_entry(result, sat)`. Reading the serial, then
      the part number, can fail; an axial result without a flux measurement
      fails on the missing key. Otherwise the view and type are set from the
      name and the last flux measurement. */
  function GenerateMagnetTestEntry(res: OttoResult, sat: string): (r: Result<Entry, LookupError>)
    ensures Property(res, SerialNumber).Failure? ==> r == Failure(Property(res, SerialNumber).error)
    ensures Property(res, SerialNumber).Success? && Property(res, PartNumber).Failure? ==>
      r == Failure(Property(res, PartNumber).error)
    ensures r.Failure? <==>
      || Property(res, SerialNumber).Failure? || Property(res, PartNumber).Failure?
      || (AxialOnly(res.name) && Unwritten(res.steps, FluxName))
    ensures r.Success? && Contains(res.name, "Radial") ==>
      && "magnet_view" in r.value && r.value["magnet_view"] == Str("radial")
      && "magnet_type" in r.value && r.value["magnet_type"] == Str(SideName(Radial))
    ensures r.Success? && AxialOnly(res.name) ==>
      && "magnet_view" in r.value && r.value["magnet_view"] == Str("axial")
      && "magnet_type" in r.value
      && forall i, j | LastWriteAt(res.steps, i, j, FluxName) ::
        r.value["magnet_type"] == Str(SideName(FluxSide(res.steps[i].measurements[j].value)))
  {
    var sn :- Property(res, SerialNumber);
    var pn :- Property(res, PartNumber);
    var d := ApplySteps(BaseEntry(res, sat, sn, pn), res.steps);
    if Contains(res.name, "Radial") then
      Success(d["magnet_view" := Str("radial")]["magnet_type" := Str(SideName(Radial))])
    else if Contains(res.name, "Axial") then
      FluxEntry(res, sat, sn, pn);
      if FluxName !in d then Failure(MissingKey(FluxName))
      else Success(d["magnet_view" := Str("axial")]["magnet_type" := Str(SideName(FluxSide(d[FluxName].x)))])
    else Success(d)
  }

  /** The fields every entry starts from are neither collecting keys nor
      the view and type. */
  lemma BaseKeys(res: OttoResult, sat: string, sn: string, pn: string, k: string)
    requires k in BaseEntry(res, sat, sn, pn)
    ensures !CollectKey(k) && k != "magnet_view" && k != "magnet_type"
  {
    assert k in {"sxid", "test_sn", "pn", "test_type", "date", "test_id", "otto_link", "name", "outcome"};
    assert |k| >= 2 && k[0] != 'f' && k[0] != 'u' && k[0] != 'm';
  }

  /** The fields every entry starts from survive unless a measurement has
      the same name. */
  lemma EntryKeepsBase(res: OttoResult, sat: string, k: string)
    requires GenerateMagnetTestEntry(res, sat).Success?
    requires k in BaseEntry(res, sat, Property(res, SerialNumber).value, Property(res, PartNumber).value)
    requires Unwritten(res.steps, k)
    ensures k in GenerateMagnetTestEntry(res, sat).value
    ensures GenerateMagnetTestEntry(res, sat).value[k]
      == BaseEntry(res, sat, Property(res, SerialNumber).value, Property(res, PartNumber).value)[k]
  {
    var base := BaseEntry(res, sat, Property(res, SerialNumber).value, Property(res, PartNumber).value);
    BaseKeys(res, sat, Property(res, SerialNumber).value, Property(res, PartNumber).value, k);
    ApplyStepsUnwritten(base, res.steps, k);
  }

  /** Every property measurement is recorded under its name, the last one
      of a name winning, unless the view or type overwrites it. */
  lemma EntryRecordsMeasurement(res: OttoResult, sat: string, k: string, i: int, j: int)
    requires GenerateMagnetTestEntry(res, sat).Success?
    requires LastWriteAt(res.steps, i, j, k) && !CollectKey(k)
    requires k != "magnet_view" && k != "magnet_type"
    ensures k in GenerateMagnetTestEntry(res, sat).value
    ensures GenerateMagnetTestEntry(res, sat).value[k] == Number(res.steps[i].measurements[j].value)
  {
    var base := BaseEntry(res, sat, Property(res, SerialNumber).value, Property(res, PartNumber).value);
    ApplyStepsLast(base, res.steps, k, i, j);
  }

  /** No step both collects and checks the expected properties. */
  ghost predicate NoMixedStep(steps: seq<Step>) {
    forall i | 0 <= i < |steps| :: !(CollectStep(steps[i]) && Contains(steps[i].description, AgainstExpected))
  }

  /** Without mixed steps, the steps the grouping reads the flux from are
      the steps whose flux the entry records. */
  lemma FluxWrittenIffAxial(steps: seq<Step>)
    requires NoMixedStep(steps)
    ensures HasAxialFlux(steps) <==> !Unwritten(steps, FluxName)
  {
    if HasAxialFlux(steps) {
      var i, j :| 0 <= i < |steps| && 0 <= j < |steps[i].measurements|
        && Contains(steps[i].description, AgainstExpected) && steps[i].measurements[j].name == FluxName;
      assert WritesAt(steps, i, j, FluxName);
    }
  }

  /** The entry agrees with the grouping. For an axial result whose flux
      values all lie on one side, the entry is written exactly when the
      grouping files the result on that side, and its type names that
      side. */
  lemma EntryMatchesGroup(res: OttoResult, sat: string, c: Category)
    requires Property(res, SerialNumber).Success? && Property(res, PartNumber).Success?
    requires AxialOnly(res.name) && c != Radial
    requires UniformFlux(res.steps, c) && NoMixedStep(res.steps)
    ensures GenerateMagnetTestEntry(res, sat).Success? <==> c in AxialPlacements(res.steps)
    ensures GenerateMagnetTestEntry(res, sat).Success? ==>
      GenerateMagnetTestEntry(res, sat).value["magnet_type"] == Str(SideName(c))
  {
    var steps := res.steps;
    AxialPlacementsNonEmpty(steps);
    UniformPlacements(steps, c);
    FluxWrittenIffAxial(steps);
    if AxialPlacements(steps) != [] {
      assert AxialPlacements(steps)[0] in AxialPlacements(steps);
    }
    if !Unwritten(steps, FluxName) {
      LastWriteExists(steps, FluxName);
      var i, j :| LastWriteAt(steps, i, j, FluxName);
      assert FluxSide(steps[i].measurements[j].value) == c;
    }
  }
}
