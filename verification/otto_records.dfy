/** Test-result records as the results database returns them, the
    first-match lookup behind their properties, and the query string that
    asks the database for results by reference. */
module OttoRecords {
  import opened Wrappers
  import opened Seqs

  /** One dictionary of a result's `links` or `references` list. */
  type Item = map<string, string>

  /** `item[key]` on a dictionary without that key. */
  datatype LookupError = MissingKey(key: string)

  /** One measurement of a test step: its name, value and unit. */
  datatype Measurement = Measurement(name: string, value: real, unit: string)

  datatype Step = Step(description: string, measurements: seq<Measurement>)

  /** The part of a result document the model reads. The completion date is
      an abstract timestamp, already parsed. */
  datatype OttoResult = OttoResult(
    caseId: string,
    otto: string,
    date: int,
    name: string,
    outcome: string,
    links: seq<Item>,
    references: seq<Item>,
    steps: seq<Step>)

  /** Every item before position `i` has the key and does not match. */
  predicate PassedOver(s: seq<Item>, keyId: string, keyValue: string, i: nat)
    requires i <= |s|
  {
    forall j | 0 <= j < i :: keyId in s[j] && s[j][keyId] != keyValue
  }

  /** The scan stops at `i`: the key is missing there or matches. */
  predicate StopsAt(s: seq<Item>, keyId: string, keyValue: string, i: nat)
    requires i < |s|
  {
    PassedOver(s, keyId, keyValue, i) && (keyId !in s[i] || s[i][keyId] == keyValue)
  }

  /** `Result._loop_first`: the value under `valueId` of the first item
      whose `keyId` is `keyValue`, or `emptyResponse` when no item matches.
      Reading a missing key fails, whether the match key on the way or the
      value key of the match. */
  function LoopFirst(s: seq<Item>, keyId: string, keyValue: string, valueId: string, emptyResponse: string): (r: Result<string, LookupError>)
    ensures PassedOver(s, keyId, keyValue, |s|) ==> r == Success(emptyResponse)
    ensures forall i | 0 <= i < |s| && StopsAt(s, keyId, keyValue, i) ::
      r == if keyId !in s[i] then Failure(MissingKey(keyId))
           else if valueId in s[i] then Success(s[i][valueId])
           else Failure(MissingKey(valueId))
  {
    if s == [] then Success(emptyResponse)
    else if keyId !in s[0] then Failure(MissingKey(keyId))
    else if s[0][keyId] == keyValue then
      if valueId in s[0] then Success(s[0][valueId]) else Failure(MissingKey(valueId))
    else
      var rest := LoopFirst(s[1..], keyId, keyValue, valueId, emptyResponse);
      assert forall i | 1 <= i < |s| :: s[i] == s[1..][i - 1];
      assert forall i | 1 <= i <= |s| && PassedOver(s, keyId, keyValue, i) :: PassedOver(s[1..], keyId, keyValue, i - 1);
      rest
  }

  /** The two cases of `LoopFirst` cover every list: the scan passes over
      all items or stops at one. */
  lemma {:induction false} LoopFirstCases(s: seq<Item>, keyId: string, keyValue: string)
    ensures PassedOver(s, keyId, keyValue, |s|) || exists i | 0 <= i < |s| :: StopsAt(s, keyId, keyValue, i)
  {
    if s != [] && !StopsAt(s, keyId, keyValue, 0) {
      LoopFirstCases(s[1..], keyId, keyValue);
      if !PassedOver(s[1..], keyId, keyValue, |s| - 1) {
        var i :| 0 <= i < |s[1..]| && StopsAt(s[1..], keyId, keyValue, i);
        assert forall j | 0 <= j < i :: s[1..][j] == s[j + 1];
        assert StopsAt(s, keyId, keyValue, i + 1);
      } else {
        assert forall j | 1 <= j < |s| :: s[j] == s[1..][j - 1];
      }
    }
  }

  /** The properties of a result, each a first-match lookup with a fixed key. */
  datatype Accessor =
    | IssueTicket | OttoLink | Borg
    | PcbaUuid | CampaignId | User | Slot | SerialNumber | PartNumber | Workorder

  /** The lookup behind a property: in `links` by `name`, yielding `path`,
      or in `references` by `ref_type`, yielding `ref_id`. */
  predicate FromLinks(p: Accessor) {
    p.IssueTicket? || p.OttoLink? || p.Borg?
  }

  function KeyValue(p: Accessor): string {
    match p
    case IssueTicket => "issue_ticket"
    case OttoLink => "otto_results"
    case Borg => "borg_run_id"
    case PcbaUuid => "pcba_uuid"
    case CampaignId => "campaign_id"
    case User => "borg_user"
    case Slot => "slot_number"
    case SerialNumber => "serial_number"
    case PartNumber => "part_number"
    case Workorder => "warp_workorder"
  }

  const BorgRuns: string := "https://borg.spacex.corp/runs/"

  /** The property accessors of `Result`: the first link named after the
      property gives its path, the first reference of the property's type its
      id; `borg` prefixes the run id with the run address. */
  function Property(res: OttoResult, p: Accessor): (r: Result<string, LookupError>)
    ensures FromLinks(p) ==> forall i | 0 <= i < |res.links| && StopsAt(res.links, "name", KeyValue(p), i) ::
      r == if "name" !in res.links[i] then Failure(MissingKey("name"))
           else if "path" !in res.links[i] then Failure(MissingKey("path"))
           else Success((if p.Borg? then BorgRuns else "") + res.links[i]["path"])
    ensures FromLinks(p) && PassedOver(res.links, "name", KeyValue(p), |res.links|) ==>
      r == Success(if p.Borg? then BorgRuns else "")
    ensures !FromLinks(p) ==> forall i | 0 <= i < |res.references| && StopsAt(res.references, "ref_type", KeyValue(p), i) ::
      r == if "ref_type" !in res.references[i] then Failure(MissingKey("ref_type"))
           else if "ref_id" !in res.references[i] then Failure(MissingKey("ref_id"))
           else Success(res.references[i]["ref_id"])
    ensures !FromLinks(p) && PassedOver(res.references, "ref_type", KeyValue(p), |res.references|) ==>
      r == Success("")
  {
    if FromLinks(p) then
      var v :- LoopFirst(res.links, "name", KeyValue(p), "path", "");
      var prefix := if p.Borg? then BorgRuns else "";
      assert prefix + "" == prefix;
      Success(prefix + v)
    else
      LoopFirst(res.references, "ref_type", KeyValue(p), "ref_id", "")
  }

  const Base: string := "references?"
  const TypeTag: string := "reference_type="

  /** `references?reference_type=T`, or `references?` without a type. */
  function QueryHead(refType: Option<string>): string {
    match refType
    case Some(t) => Base + TypeTag + t
    case None => Base
  }

  const ValueTag: string := "&reference_value="

  /** One `&reference_value=v` per value, in order. */
  function ValuesPart(values: seq<string>): string {
    if values == [] then ""
    else ValuesPart(values[..|values| - 1]) + ValueTag + values[|values| - 1]
  }

  /** `OttoQuery._results` builds its query string value by value. */
  method QueryUrl(values: seq<string>, refType: Option<string>) returns (url: string)
    ensures url == QueryHead(refType) + ValuesPart(values)
  {
    var head := QueryHead(refType);
    url := head;
    var i := 0;
    while i < |values|
      invariant 0 <= i <= |values|
      invariant url == head + ValuesPart(values[..i])
    {
      var done := ValuesPart(values[..i]);
      assert values[..i + 1][..i] == values[..i];
      assert ValuesPart(values[..i + 1]) == done + ValueTag + values[i];
      ConcatAssoc(head, done, ValueTag);
      ConcatAssoc(head, done + ValueTag, values[i]);
      url := url + ValueTag + values[i];
      i := i + 1;
    }
    assert values[..|values|] == values;
  }

  /** The values part read front to back. */
  lemma {:induction false} ValuesPartCons(values: seq<string>)
    requires values != []
    ensures ValuesPart(values) == ValueTag + values[0] + ValuesPart(values[1..])
    decreases |values|
  {
    var n := |values|;
    if n > 1 {
      var init, last := values[..n - 1], values[n - 1];
      var tail := values[1..];
      ValuesPartCons(init);
      assert init[0] == values[0];
      assert init[1..] == tail[..|tail| - 1];
      assert tail[|tail| - 1] == last;
      var a, b := ValueTag + values[0], ValuesPart(init[1..]);
      assert ValuesPart(init) == a + b;
      assert ValuesPart(tail) == b + ValueTag + last;
      calc {
        ValuesPart(values);
        ValuesPart(init) + ValueTag + last;
        (a + b) + ValueTag + last;
        { ConcatAssoc(a, b, ValueTag + last); }
        a + (b + (ValueTag + last));
        a + ValuesPart(tail);
      }
    } else {
      assert values[..0] == [] && values[1..] == [];
    }
  }

  /** The position of the first `&` in `s`, or `|s|` when there is none. */
  function UpToAmp(s: string): (r: nat)
    ensures r <= |s|
    ensures forall j | 0 <= j < r :: s[j] != '&'
    ensures r < |s| ==> s[r] == '&'
  {
    if s == [] || s[0] == '&' then 0 else 1 + UpToAmp(s[1..])
  }

  /** Splits `&reference_value=v` segments back into their values. */
  function SplitValues(s: string): Option<seq<string>>
    decreases |s|
  {
    if s == [] then Some([])
    else if |s| >= |ValueTag| && s[..|ValueTag|] == ValueTag then
      var rest := s[|ValueTag|..];
      var n := UpToAmp(rest);
      match SplitValues(rest[n..])
      case None => None
      case Some(vs) => Some([rest[..n]] + vs)
    else None
  }

  /** Reads a query string back into its reference type and values. */
  function ParseQuery(url: string): Option<(Option<string>, seq<string>)> {
    if |url| < |Base| || url[..|Base|] != Base then None
    else
      var rest := url[|Base|..];
      if |rest| >= |TypeTag| && rest[..|TypeTag|] == TypeTag then
        var after := rest[|TypeTag|..];
        var n := UpToAmp(after);
        match SplitValues(after[n..])
        case None => None
        case Some(vs) => Some((Some(after[..n]), vs))
      else
        match SplitValues(rest)
        case None => None
        case Some(vs) => Some((None, vs))
  }

  predicate NoAmp(s: string) {
    forall j | 0 <= j < |s| :: s[j] != '&'
  }

  /** A values part is empty or starts with `&`. */
  lemma ValuesPartStart(values: seq<string>)
    ensures ValuesPart(values) == [] || ValuesPart(values)[0] == '&'
  {
    if values != [] {
      ValuesPartCons(values);
    }
  }

  /** `UpToAmp` stops at the end of a prefix without `&` followed by `&`. */
  lemma {:induction false} UpToAmpConcat(v: string, tail: string)
    requires NoAmp(v) && (tail == [] || tail[0] == '&')
    ensures UpToAmp(v + tail) == |v|
    decreases |v|
  {
    var s := v + tail;
    if v == [] {
      assert s == tail;
    } else {
      assert s[0] == v[0] != '&';
      assert s[1..] == v[1..] + tail;
      UpToAmpConcat(v[1..], tail);
    }
  }

  lemma {:induction false} SplitValuesRoundTrip(values: seq<string>)
    requires forall i | 0 <= i < |values| :: NoAmp(values[i])
    ensures SplitValues(ValuesPart(values)) == Some(values)
    decreases |values|
  {
    if values != [] {
      ValuesPartCons(values);
      var tail := ValuesPart(values[1..]);
      ValuesPartStart(values[1..]);
      var s := ValueTag + values[0] + tail;
      assert s[..|ValueTag|] == ValueTag;
      var rest := s[|ValueTag|..];
      assert rest == values[0] + tail;
      UpToAmpConcat(values[0], tail);
      assert rest[..|values[0]|] == values[0];
      assert rest[|values[0]|..] == tail;
      SplitValuesRoundTrip(values[1..]);
      assert [values[0]] + values[1..] == values;
    }
  }

  /** A string after `references?reference_type=` splits into the type,
      up to the first `&`, and the values after it. */
  lemma ParseTyped(t: string, tail: string)
    requires NoAmp(t) && (tail == [] || tail[0] == '&')
    ensures ParseQuery(Base + (TypeTag + (t + tail))) ==
      match SplitValues(tail) case None => None case Some(vs) => Some((Some(t), vs))
  {
    var rest := TypeTag + (t + tail);
    assert (Base + rest)[..|Base|] == Base;
    assert (Base + rest)[|Base|..] == rest;
    assert rest[..|TypeTag|] == TypeTag;
    assert rest[|TypeTag|..] == t + tail;
    UpToAmpConcat(t, tail);
    assert (t + tail)[..|t|] == t;
    assert (t + tail)[|t|..] == tail;
  }

  /** A string after `references?` that starts with `&` or is empty holds
      no type, only values. */
  lemma ParseUntyped(tail: string)
    requires tail == [] || tail[0] == '&'
    ensures ParseQuery(Base + tail) ==
      match SplitValues(tail) case None => None case Some(vs) => Some((None, vs))
  {
    assert (Base + tail)[..|Base|] == Base;
    assert (Base + tail)[|Base|..] == tail;
    if |tail| >= |TypeTag| {
      assert tail[0] != TypeTag[0];
    }
  }

  lemma Regroup(a: string, b: string, c: string, d: string)
    ensures a + b + c + d == a + (b + (c + d))
  {
  }

  /** Query strings built from values and a type without `&` read back to
      exactly that type and those values. */
  lemma QueryRoundTrip(values: seq<string>, refType: Option<string>)
    requires forall i | 0 <= i < |values| :: NoAmp(values[i])
    requires refType.Some? ==> NoAmp(refType.value)
    ensures ParseQuery(QueryHead(refType) + ValuesPart(values)) == Some((refType, values))
  {
    var tail := ValuesPart(values);
    ValuesPartStart(values);
    SplitValuesRoundTrip(values);
    match refType
    case Some(t) =>
      Regroup(Base, TypeTag, t, tail);
      ParseTyped(t, tail);
    case None =>
      ParseUntyped(tail);
  }
}
