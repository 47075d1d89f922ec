/** The translation `QdrantHandler.search` performs from its caller's
    `payload_filter`, `filter_conditions` and `filter_type` arguments into
    the client library's filter value. */
module QdrantFilter {
  import opened Results

  /** A JSON-like value as the API hands it to the handler. */
  datatype Value =
    | Null
    | Bool(b: bool)
    | Int(i: int)
    | Real(r: real)
    | Str(s: string)
    | Array(items: seq<Value>)
    | Object(fields: map<string, Value>)

  /** One entry of `filter_conditions`. `key` is `None` when the dictionary
      has no "key" entry; `matchValue` is what `condition.get("match")`
      yields, so `Null` stands for both an absent and a null match;
      `rangeSpec` is `None` when "range" is absent or null. */
  datatype RawCondition = RawCondition(
    key: Option<string>,
    matchValue: Value,
    rangeSpec: Option<map<string, Value>>)

  /** The client library's range: a bound is present exactly when its
      name was a key of the range dictionary. */
  datatype Range = Range(gte: Option<Value>, lte: Option<Value>, gt: Option<Value>, lt: Option<Value>)

  datatype FieldCondition =
    | MatchCondition(key: string, value: Value)
    | RangeCondition(key: string, range: Range)

  datatype Clause = Must | Should | MustNot

  datatype Filter = Filter(clause: Clause, conditions: seq<FieldCondition>)

  datatype FilterError =
    | MissingConditionKey        // `condition["key"]` raises KeyError
    | UnsupportedFilterType(name: string)

  const BoundNames: seq<string> := ["gte", "lte", "gt", "lt"]

  /** The bound of `r` called `name`, for a name in `BoundNames`. */
  function BoundNamed(r: Range, name: string): Option<Value> {
    if name == "gte" then r.gte
    else if name == "lte" then r.lte
    else if name == "gt" then r.gt
    else if name == "lt" then r.lt
    else None
  }

  /** `models.Range(**range_params)`: only the four bound keys are copied,
      and each one only when the range dictionary holds it. */
  function RangeOf(spec: map<string, Value>): (r: Range)
    ensures forall name :: name in BoundNames ==>
      (BoundNamed(r, name).Some? <==> name in spec)
    ensures forall name :: name in BoundNames && name in spec ==>
      BoundNamed(r, name) == Some(spec[name])
  {
    Range(
      if "gte" in spec then Some(spec["gte"]) else None,
      if "lte" in spec then Some(spec["lte"]) else None,
      if "gt" in spec then Some(spec["gt"]) else None,
      if "lt" in spec then Some(spec["lt"]) else None)
  }

  /** Keys other than the four bound names do not influence the range. */
  lemma RangeIgnoresOtherKeys(spec1: map<string, Value>, spec2: map<string, Value>)
    requires forall name :: name in BoundNames ==> (name in spec1 <==> name in spec2)
    requires forall name :: name in BoundNames && name in spec1 ==> spec1[name] == spec2[name]
    ensures RangeOf(spec1) == RangeOf(spec2)
  {
    var r1, r2 := RangeOf(spec1), RangeOf(spec2);
    assert BoundNamed(r1, "gte") == BoundNamed(r2, "gte");
    assert BoundNamed(r1, "lte") == BoundNamed(r2, "lte");
    assert BoundNamed(r1, "gt") == BoundNamed(r2, "gt");
    assert BoundNamed(r1, "lt") == BoundNamed(r2, "lt");
  }

  /** Whether the structured entry produces a condition at all. */
  predicate Produces(c: RawCondition) {
    c.rangeSpec.Some? || c.matchValue != Null
  }

  /** One structured entry: a range overrides a match, an entry with
      neither is dropped (`Success(None)`), and a missing "key" raises only
      when the entry would produce a condition. */
  function ConvertCondition(c: RawCondition): (r: Result<Option<FieldCondition>, FilterError>)
    ensures r.Failure? <==> Produces(c) && c.key.None?
    ensures r.Failure? ==> r.error == MissingConditionKey
    ensures r.Success? ==> (r.value.None? <==> !Produces(c))
    ensures r.Success? && r.value.Some? ==> r.value.value.key == c.key.value
    ensures r.Success? && c.rangeSpec.Some? ==>
      r.value == Some(RangeCondition(c.key.value, RangeOf(c.rangeSpec.value)))
    ensures r.Success? && c.rangeSpec.None? && c.matchValue != Null ==>
      r.value == Some(MatchCondition(c.key.value, c.matchValue))
  {
    if !Produces(c) then Success(None)
    else if c.key.None? then Failure(MissingConditionKey)
    else if c.rangeSpec.Some? then Success(Some(RangeCondition(c.key.value, RangeOf(c.rangeSpec.value))))
    else Success(Some(MatchCondition(c.key.value, c.matchValue)))
  }

  function OptionToSeq<T>(o: Option<T>): seq<T> {
    if o.Some? then [o.value] else []
  }

  /** The `filter_conditions` loop: every entry converted in list order,
      dropped entries leaving no trace, the first KeyError aborting. */
  function ConvertAll(cs: seq<RawCondition>): (r: Result<seq<FieldCondition>, FilterError>)
    ensures r.Success? <==> forall i :: 0 <= i < |cs| ==> ConvertCondition(cs[i]).Success?
    ensures r.Failure? ==> r.error == MissingConditionKey
    ensures r.Success? ==> |r.value| <= |cs|
    decreases |cs|
  {
    if cs == [] then Success([])
    else
      var head :- ConvertCondition(cs[0]);
      var rest :- ConvertAll(cs[1..]);
      Success(OptionToSeq(head) + rest)
  }

  /** A single entry contributes its own condition, or nothing. */
  lemma ConvertSingle(c: RawCondition)
    ensures ConvertAll([c]).Success? <==> ConvertCondition(c).Success?
    ensures ConvertAll([c]).Success? ==> ConvertAll([c]).value == OptionToSeq(ConvertCondition(c).value)
  {
    assert [c][1..] == [];
  }

  /** Conversion distributes over concatenation: the structured conditions
      keep the order of the entries they come from. */
  lemma {:induction false} ConvertAllAppend(a: seq<RawCondition>, b: seq<RawCondition>)
    ensures ConvertAll(a + b).Success? <==> ConvertAll(a).Success? && ConvertAll(b).Success?
    ensures ConvertAll(a + b).Success? ==>
      ConvertAll(a + b).value == ConvertAll(a).value + ConvertAll(b).value
    decreases |a|
  {
    if a == [] {
      assert a + b == b;
    } else {
      assert (a + b)[0] == a[0];
      assert (a + b)[1..] == a[1..] + b;
      ConvertAllAppend(a[1..], b);
      if ConvertAll(a + b).Success? {
        var head := OptionToSeq(ConvertCondition(a[0]).value);
        calc {
          ConvertAll(a + b).value;
          head + ConvertAll(a[1..] + b).value;
          head + (ConvertAll(a[1..]).value + ConvertAll(b).value);
          (head + ConvertAll(a[1..]).value) + ConvertAll(b).value;
          ConvertAll(a).value + ConvertAll(b).value;
        }
      }
    }
  }

  /** The `payload_filter` items, in the dictionary's order, as exact matches. */
  function PayloadConditions(items: seq<(string, Value)>): (r: seq<FieldCondition>)
    ensures |r| == |items|
    ensures forall i :: 0 <= i < |items| ==> r[i] == MatchCondition(items[i].0, items[i].1)
  {
    seq(|items|, i requires 0 <= i < |items| => MatchCondition(items[i].0, items[i].1))
  }

  function ClauseName(c: Clause): string {
    match c
    case Must => "must"
    case Should => "should"
    case MustNot => "must_not"
  }

  /** The `filter_type` dispatch: exactly the three clause names are accepted. */
  function ClauseNamed(name: string): (r: Result<Clause, FilterError>)
    ensures r.Success? ==> ClauseName(r.value) == name
    ensures r.Failure? ==> r.error == UnsupportedFilterType(name)
  {
    if name == "must" then Success(Must)
    else if name == "should" then Success(Should)
    else if name == "must_not" then Success(MustNot)
    else Failure(UnsupportedFilterType(name))
  }

  /** Every clause is recognised by its own name. */
  lemma ClauseNameRoundTrip(c: Clause)
    ensures ClauseNamed(ClauseName(c)) == Success(c)
  {
  }

  predicate StructuredOk(conditions: Option<seq<RawCondition>>) {
    conditions.None? || ConvertAll(conditions.value).Success?
  }

  /** The filter `search` hands to the client, or `None` when the caller
      gave neither a payload filter nor structured conditions. */
  function BuildFilter(
    payloadFilter: Option<seq<(string, Value)>>,
    conditions: Option<seq<RawCondition>>,
    filterType: string
  ): (r: Result<Option<Filter>, FilterError>)
    ensures payloadFilter.None? && conditions.None? ==> r == Success(None)
    ensures payloadFilter.Some? || conditions.Some? ==>
      (r.Success? <==> StructuredOk(conditions) && ClauseNamed(filterType).Success?)
    ensures payloadFilter.Some? || conditions.Some? ==>
      (r.Success? ==> r.value.Some? && ClauseName(r.value.value.clause) == filterType)
    ensures !StructuredOk(conditions) ==> r == Failure(MissingConditionKey)
    ensures r.Failure? && StructuredOk(conditions) ==> r.error == UnsupportedFilterType(filterType)
    ensures r.Success? && r.value.Some? ==>
      r.value.value.conditions ==
        (if payloadFilter.Some? then PayloadConditions(payloadFilter.value) else []) +
        (if conditions.Some? then ConvertAll(conditions.value).value else [])
  {
    if payloadFilter.None? && conditions.None? then Success(None)
    else
      var fromPayload := if payloadFilter.Some? then PayloadConditions(payloadFilter.value) else [];
      var fromConditions :- if conditions.Some? then ConvertAll(conditions.value) else Success([]);
      var clause :- ClauseNamed(filterType);
      Success(Some(Filter(clause, fromPayload + fromConditions)))
  }

  /** With a filter to build, a range-and-match entry contributes only its
      range, and an entry with neither contributes nothing. */
  lemma RangeOverridesMatchExample(spec: map<string, Value>)
    ensures BuildFilter(None, Some([
        RawCondition(Some("date"), Str("x"), Some(spec)),
        RawCondition(None, Null, None)]), "should")
      == Success(Some(Filter(Should, [RangeCondition("date", RangeOf(spec))])))
  {
    var cs := [RawCondition(Some("date"), Str("x"), Some(spec)), RawCondition(None, Null, None)];
    assert cs == [cs[0]] + [cs[1]];
    ConvertAllAppend([cs[0]], [cs[1]]);
    ConvertSingle(cs[0]);
    ConvertSingle(cs[1]);
    assert ConvertAll(cs).value == [RangeCondition("date", RangeOf(spec))] + [];
    assert [] + ConvertAll(cs).value == ConvertAll(cs).value;
  }
}
