/** The earlier closure-based engine of src/core.ts and src/fields/optional.ts:
    a spec maps keys to validator closures, each declared with its params and
    answering a GET_PARAMS sentinel with them. It has no path decoration and
    no extra-key check. */
module Legacy {
  import opened Values

  /** What a legacy validator is called with: the GET_PARAMS sentinel or a value. */
  datatype Input = GetParamsSentinel | Given(v: Value)

  /** A validator closure; its failure is whatever the validator throws. */
  type Validator = Input -> Result<Value>

  /** The function a field is declared with: `(params, value) => expected`. */
  type ValidatorWithSpec = (Value, Value) -> Result<Value>

  /** A validator spec: an object from keys to validators, in key order. */
  datatype Entry = Entry(key: string, validator: Validator)

  function SpecKeys(spec: seq<Entry>): (ks: seq<string>)
    ensures |ks| == |spec|
    ensures forall i :: 0 <= i < |spec| ==> ks[i] == spec[i].key
  {
    if spec == [] then [] else [spec[0].key] + SpecKeys(spec[1..])
  }

  /** `validateOrGetParams`: the params for the sentinel, the declared function otherwise. */
  function ValidateOrGetParams(fn: ValidatorWithSpec, params: Value, x: Input): (r: Result<Value>)
    ensures x.GetParamsSentinel? ==> r == Ok(params)
    ensures x.Given? ==> r == fn(params, x.v)
  {
    if x.GetParamsSentinel? then Ok(params) else fn(params, x.v)
  }

  /** `declareField(fn)(params)`: the validator closure over `fn` and `params`. */
  function DeclareField(fn: ValidatorWithSpec, params: Value): (vf: Validator)
    ensures forall x :: vf(x) == ValidateOrGetParams(fn, params, x)
  {
    x => ValidateOrGetParams(fn, params, x)
  }

  /** The transform results of `mapSpec`, one per entry in entry order; the
      first transform that throws aborts the whole map. */
  function MapResults(spec: seq<Entry>, t: (Validator, string) -> Result<Value>): (r: Result<seq<Value>>)
    ensures r.Ok? <==> forall i :: 0 <= i < |spec| ==> t(spec[i].validator, spec[i].key).Ok?
    ensures r.Ok? ==> |r.value| == |spec|
    ensures r.Ok? ==> forall i :: 0 <= i < |spec| ==> r.value[i] == t(spec[i].validator, spec[i].key).value
  {
    if spec == [] then Ok([])
    else
      match t(spec[0].validator, spec[0].key)
      case Fail(e) => Fail(e)
      case Ok(x) =>
        match MapResults(spec[1..], t)
        case Fail(e) => Fail(e)
        case Ok(rest) =>
          assert forall i :: 1 <= i < |spec| ==> spec[i] == spec[1..][i - 1];
          Ok([x] + rest)
  }

  /** `mapSpec`: `Object.fromEntries` of each key paired with its transform result. */
  function MapSpec(spec: seq<Entry>, t: (Validator, string) -> Result<Value>): (r: Result<Value>)
    ensures r.Ok? <==> forall i :: 0 <= i < |spec| ==> t(spec[i].validator, spec[i].key).Ok?
    ensures r.Ok? ==> r.value.Obj?
    ensures r.Ok? && Distinct(SpecKeys(spec)) ==> r.value == Obj(Zip(SpecKeys(spec), MapResults(spec, t).value))
  {
    match MapResults(spec, t)
    case Fail(e) => Fail(e)
    case Ok(vs) =>
      var entries := FromEntries(SpecKeys(spec), vs);
      Ok(Obj(Zip(entries.0, entries.1)))
  }

  /** The transform of `getParams`: ask the validator for its params. */
  function AskParams(): (t: (Validator, string) -> Result<Value>)
    ensures forall vf, key :: t(vf, key) == vf(GetParamsSentinel)
  {
    (vf: Validator, key: string) => vf(GetParamsSentinel)
  }

  /** `getParams(spec)`: every validator asked for its params. */
  function GetParams(spec: seq<Entry>): (r: Result<Value>)
    ensures r.Ok? <==> forall i :: 0 <= i < |spec| ==> spec[i].validator(GetParamsSentinel).Ok?
  {
    MapSpec(spec, AskParams())
  }

  /** `validator(value[key])`: reading a key of `undefined` or `null` throws. */
  function ApplyAt(value: Value, vf: Validator, key: string): (r: Result<Value>)
    ensures (value.Undefined? || value.Null?) ==> r == Fail(ReadProp(value, key).error)
    ensures !(value.Undefined? || value.Null?) ==> r == vf(Given(Get(value, key)))
  {
    match ReadProp(value, key)
    case Fail(e) => Fail(e)
    case Ok(x) => vf(Given(x))
  }

  /** The transform of `validate`. */
  function ReadAndApply(value: Value): (t: (Validator, string) -> Result<Value>)
    ensures forall vf, key :: t(vf, key) == ApplyAt(value, vf, key)
  {
    (vf: Validator, key: string) => ApplyAt(value, vf, key)
  }

  /** `validate(spec, value)`: every validator applied to `value[key]`;
      reading a key of `undefined` or `null` throws. */
  function LegacyValidate(spec: seq<Entry>, value: Value): (r: Result<Value>)
    ensures (value.Undefined? || value.Null?) && spec != [] ==> r == Fail(ReadProp(value, spec[0].key).error)
    ensures r.Ok? ==> r.value.Obj?
  {
    MapSpec(spec, ReadAndApply(value))
  }

  /** `optional(validate)`: `undefined` passes without calling `validate`. */
  function OptionalValidator(vf: Validator): (o: Validator)
    ensures o(Given(Undefined)) == Ok(Undefined)
    ensures forall x :: x != Given(Undefined) ==> o(x) == vf(x)
  {
    x => if x == Given(Undefined) then Ok(Undefined) else vf(x)
  }

  /** `optionalOf()`: the placeholder value `undefined`. */
  function OptionalOf(): (r: Value)
    ensures r == Undefined
  {
    Undefined
  }

  // ---------------------------------------------------------------- laws

  /** With distinct spec keys (as in any object literal), a successful
      validation has exactly the spec's keys, and each key holds what its
      validator returned for the value read under that key. */
  lemma {:induction false} ValidateKeysAndValues(spec: seq<Entry>, value: Value)
    requires Distinct(SpecKeys(spec))
    requires value.Obj? || value.Arr?
    requires LegacyValidate(spec, value).Ok?
    ensures var r := LegacyValidate(spec, value).value;
      r.Obj? && Keys(r.props) == SpecKeys(spec) &&
      forall i :: 0 <= i < |spec| ==> Ok(r.props[i].val) == spec[i].validator(Given(Get(value, spec[i].key)))
  {
    var t := ReadAndApply(value);
    var vs := MapResults(spec, t).value;
    var ks := SpecKeys(spec);
    assert FromEntries(ks, vs) == (ks, vs);
    var props := Zip(ks, vs);
    assert LegacyValidate(spec, value) == Ok(Obj(props));
    KeysOfZip(ks, vs);
    forall i | 0 <= i < |spec|
      ensures Ok(props[i].val) == spec[i].validator(Given(Get(value, spec[i].key)))
    {
      assert props[i].val == vs[i] == t(spec[i].validator, spec[i].key).value;
      assert t(spec[i].validator, spec[i].key) == ApplyAt(value, spec[i].validator, spec[i].key);
    }
  }

  /** A failing validator's error comes out exactly as thrown: the first
      failing key, in spec order, and no path added. */
  lemma {:induction false} FirstFailurePropagatesUndecorated(spec: seq<Entry>, value: Value, i: nat)
    requires value.Obj? || value.Arr?
    requires i < |spec|
    requires forall j :: 0 <= j < i ==> spec[j].validator(Given(Get(value, spec[j].key))).Ok?
    requires spec[i].validator(Given(Get(value, spec[i].key))).Fail?
    ensures LegacyValidate(spec, value) == Fail(spec[i].validator(Given(Get(value, spec[i].key))).error)
    decreases i
  {
    var t := ReadAndApply(value);
    FirstFailureOfMap(spec, t, i);
  }

  lemma {:induction false} FirstFailureOfMap(spec: seq<Entry>, t: (Validator, string) -> Result<Value>, i: nat)
    requires i < |spec|
    requires forall j :: 0 <= j < i ==> t(spec[j].validator, spec[j].key).Ok?
    requires t(spec[i].validator, spec[i].key).Fail?
    ensures MapResults(spec, t) == Fail(t(spec[i].validator, spec[i].key).error)
    decreases i
  {
    if i > 0 {
      assert t(spec[0].validator, spec[0].key).Ok?;
      FirstFailureOfMap(spec[1..], t, i - 1);
    }
  }

  /** A first-match property read is unaffected by props appended behind it
      under other keys. */
  lemma {:induction false} GetIgnoresAppendedKeys(props: seq<Prop>, extra: seq<Prop>, key: string)
    requires key !in Keys(extra)
    ensures Get(Obj(props + extra), key) == Get(Obj(props), key)
    decreases |props|
  {
    if props == [] {
      assert forall j :: 0 <= j < |extra| ==> Keys(extra)[j] != key;
    } else {
      assert (props + extra)[1..] == props[1..] + extra;
      if props[0].key != key {
        GetIgnoresAppendedKeys(props[1..], extra, key);
      }
    }
  }

  /** Keys only in the value are dropped silently: appending undeclared
      props to the input does not change the outcome. */
  lemma ExtraKeysAreIgnored(spec: seq<Entry>, props: seq<Prop>, extra: seq<Prop>)
    requires forall k :: k in Keys(extra) ==> k !in SpecKeys(spec)
    ensures LegacyValidate(spec, Obj(props + extra)) == LegacyValidate(spec, Obj(props))
  {
    forall i | 0 <= i < |spec|
      ensures Get(Obj(props + extra), spec[i].key) == Get(Obj(props), spec[i].key)
    {
      assert SpecKeys(spec)[i] == spec[i].key;
      GetIgnoresAppendedKeys(props, extra, spec[i].key);
    }
    MapResultsAgree(spec, ReadAndApply(Obj(props + extra)), ReadAndApply(Obj(props)));
  }

  lemma {:induction false} MapResultsAgree(spec: seq<Entry>, t1: (Validator, string) -> Result<Value>, t2: (Validator, string) -> Result<Value>)
    requires forall i :: 0 <= i < |spec| ==> t1(spec[i].validator, spec[i].key) == t2(spec[i].validator, spec[i].key)
    ensures MapResults(spec, t1) == MapResults(spec, t2)
  {
    if spec != [] {
      assert t1(spec[0].validator, spec[0].key) == t2(spec[0].validator, spec[0].key);
      forall i | 0 <= i < |spec[1..]|
        ensures t1(spec[1..][i].validator, spec[1..][i].key) == t2(spec[1..][i].validator, spec[1..][i].key)
      {
        assert spec[1..][i] == spec[i + 1];
      }
      MapResultsAgree(spec[1..], t1, t2);
    }
  }

  /** A spec whose entry `i` behaves as `declareField(fns[i])(params[i])`. */
  ghost predicate DeclaredWith(spec: seq<Entry>, fns: seq<ValidatorWithSpec>, params: seq<Value>) {
    |fns| == |spec| && |params| == |spec| &&
    forall i, x :: 0 <= i < |spec| ==> spec[i].validator(x) == DeclareField(fns[i], params[i])(x)
  }

  /** `getParams` returns, under each key, the params its validator was declared with. */
  lemma GetParamsReturnsDeclaredParams(spec: seq<Entry>, fns: seq<ValidatorWithSpec>, params: seq<Value>)
    requires Distinct(SpecKeys(spec))
    requires DeclaredWith(spec, fns, params)
    ensures GetParams(spec) == Ok(Obj(Zip(SpecKeys(spec), params)))
  {
    var t := AskParams();
    forall i | 0 <= i < |spec| ensures t(spec[i].validator, spec[i].key) == Ok(params[i]) {
      assert spec[i].validator(GetParamsSentinel) == ValidateOrGetParams(fns[i], params[i], GetParamsSentinel);
    }
    var r := MapResults(spec, t);
    assert r.value == params;
    assert FromEntries(SpecKeys(spec), params) == (SpecKeys(spec), params);
  }
}
