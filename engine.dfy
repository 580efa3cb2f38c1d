/** The spec-tree engine: `validate`/`serialize` of packages/validator/src/interface.ts,
    the per-field rules of the field kinds and decorators, and the per-key
    object step with error decoration and the extra-key check. */
module Engine {
  import opened Values
  import opened Scalars
  import opened Decoration
  import opened Specs

  /** `field.validate(v)`. */
  function Validate(f: Field, v: Value, m: Matcher): (r: Result<Value>)
    ensures (f.StringField? || f.NumberField? || f.BooleanField? || f.ChoiceField?) && r.Ok? ==> r.value == v
    ensures f.ObjectField? && r.Ok? ==> r.value.Obj? && |r.value.props| == MinLen(f.keys, f.specs)
    ensures f.ArrayField? ==> (r.Ok? ==> v.Arr? && r.value.Arr? && |r.value.items| == |v.items|)
    ensures f.Optional? && v.Undefined? ==> r == Ok(Undefined)
    decreases f, 0
  {
    match f
    case UndefinedField => Ok(Undefined)
    case StringField(re) => ValidateString(re, v, m)
    case NumberField(c) => ValidateNumber(c, v)
    case NumberFieldWithRegExp(c) => ValidateNumber(c, ParseFloat(v))
    case BooleanField => ValidateBoolean(v)
    case BooleanText => ValidateBoolean(CoerceBoolean(v))
    case ChoiceField(cs) => ValidateChoice(cs, v)
    case ChoiceFieldWithRegExp(cs) => ValidateChoiceText(cs, v)
    case SingletonField(c) => Ok(c)
    case ObjectField(ks, ss) => ValidateObject(ks, ss, v, m)
    case ArrayField(item) =>
      if !v.Arr? then Fail(Reason("Not an array"))
      else
        (match ValidateItems(item, v.items, 0, m)
         case Ok(vs) => Ok(Arr(vs))
         case Fail(e) => Fail(e))
    case Optional(inner) => if v == Undefined then Ok(Undefined) else Validate(inner, v, m)
    case WithDefault(inner, d) => Validate(inner, if v == Undefined then d else v, m)
    case WithDoc(inner, _) => Validate(inner, v, m)
  }

  /** interface.ts `validate(spec, value)`, by the same case split as
      `getFieldForSpec` (see SpecValidatesThroughItsField). */
  function ValidateSpec(s: Spec, v: Value, m: Matcher): (r: Result<Value>)
    ensures IsArraySpec(s) ==> (r.Ok? ==> v.Arr? && r.value.Arr? && |r.value.items| == |v.items|)
    ensures s.SObj? && AllFields(s.specs) && r.Ok? ==> r.value.Obj? && |r.value.props| == MinLen(s.keys, s.specs)
    ensures (s.SObj? && !AllFields(s.specs)) || (s.SArr? && !IsArraySpec(s) && !AllFields(s.elems)) ==> r == Ok(Undefined)
    decreases s, 0
  {
    match s
    case SUndef => Ok(Undefined)
    case SField(f) => Validate(f, v, m)
    case SArr(es) =>
      if IsArraySpec(s) then
        if !v.Arr? then Fail(Reason("Not an array"))
        else
          (match ValidateItems(es[0].field, v.items, 0, m)
           case Ok(vs) => Ok(Arr(vs))
           case Fail(e) => Fail(e))
      else if AllFields(es) then ValidateObject(IndexKeys(|es|), es, v, m)
      else Ok(Undefined)
    case SObj(ks, ss) =>
      if AllFields(ss) then ValidateObject(ks, ss, v, m) else Ok(Undefined)
  }

  /** Keys and specs of an object field pair up position by position; a
      literal always has as many of one as of the other. */
  function MinLen(ks: seq<string>, ss: seq<Spec>): (n: nat)
    ensures n <= |ks| && n <= |ss|
    ensures |ks| == |ss| ==> n == |ks|
  {
    if |ks| <= |ss| then |ks| else |ss|
  }

  /** objectField.validate: the object check, then every declared key in spec
      order, then the extra-key check. */
  function ValidateObject(ks: seq<string>, ss: seq<Spec>, v: Value, m: Matcher): (r: Result<Value>)
    ensures !IsObjectLike(v) ==> r == Fail(Reason("Not an object"))
    ensures r.Ok? ==> (IsObjectLike(v) && Without(OwnKeys(v), ks) == [] &&
      r.value.Obj? && |r.value.props| == MinLen(ks, ss) &&
      forall i :: 0 <= i < |r.value.props| ==> r.value.props[i].key == ks[i])
    decreases ss, 1
  {
    if !IsObjectLike(v) then Fail(Reason("Not an object"))
    else
      match ValidateEntries(ks, ss, v, m)
      case Fail(e) => Fail(e)
      case Ok(props) =>
        var extra := Without(OwnKeys(v), ks);
        if extra != [] then Fail(ExtraKeys(extra)) else Ok(Obj(props))
  }

  /** The per-key step: `withErrorDecoration(key, () => validate(spec[key], value[key]))`
      for each declared key, stopping at the first failure. */
  function ValidateEntries(ks: seq<string>, ss: seq<Spec>, v: Value, m: Matcher): (r: Result<seq<Prop>>)
    ensures r.Ok? ==> |r.value| == MinLen(ks, ss)
    ensures r.Ok? ==> forall i :: 0 <= i < |r.value| ==>
      r.value[i].key == ks[i] && ValidateSpec(ss[i], Get(v, ks[i]), m) == Ok(r.value[i].val)
    ensures r.Ok? <==> forall i :: 0 <= i < MinLen(ks, ss) ==> ValidateSpec(ss[i], Get(v, ks[i]), m).Ok?
    decreases ss, 0
  {
    if ks == [] || ss == [] then Ok([])
    else
      match WithErrorDecoration(KStr(ks[0]), ValidateSpec(ss[0], Get(v, ks[0]), m))
      case Fail(e) => Fail(e)
      case Ok(x) =>
        match ValidateEntries(ks[1..], ss[1..], v, m)
        case Fail(e) => Fail(e)
        case Ok(rest) =>
          assert forall i :: 1 <= i < MinLen(ks, ss) ==> ks[i] == ks[1..][i - 1] && ss[i] == ss[1..][i - 1];
          Ok([Prop(ks[0], x)] + rest)
  }

  /** arrayField.validate's `value.map`: element `offset + i` is validated with
      its index prepended to any error path. */
  function ValidateItems(item: Field, items: seq<Value>, offset: nat, m: Matcher): (r: Result<seq<Value>>)
    ensures r.Ok? ==> |r.value| == |items|
    ensures r.Ok? ==> forall i :: 0 <= i < |items| ==> Validate(item, items[i], m) == Ok(r.value[i])
    ensures r.Ok? <==> forall i :: 0 <= i < |items| ==> Validate(item, items[i], m).Ok?
    decreases item, |items| + 1
  {
    if items == [] then Ok([])
    else
      match WithErrorDecoration(KIdx(offset), Validate(item, items[0], m))
      case Fail(e) => Fail(e)
      case Ok(x) =>
        match ValidateItems(item, items[1..], offset + 1, m)
        case Fail(e) => Fail(e)
        case Ok(rest) =>
          assert forall i :: 1 <= i < |items| ==> items[i] == items[1..][i - 1];
          Ok([x] + rest)
  }

  /** `field.serialize(v)`. */
  function Serialize(f: Field, v: Value): (r: Result<Value>)
    ensures (f.StringField? || f.NumberField? || f.NumberFieldWithRegExp? || f.BooleanField? ||
             f.ChoiceField? || f.ChoiceFieldWithRegExp?) ==> r == Ok(v)
    ensures f.ObjectField? && r.Ok? ==> r.value.Obj? && |r.value.props| == MinLen(f.keys, f.specs)
    ensures f.ArrayField? && !v.Arr? ==> r == Fail(MapCrash(v))
    ensures f.ArrayField? && r.Ok? ==> v.Arr? && r.value.Arr? && |r.value.items| == |v.items|
    decreases f, 0
  {
    match f
    case UndefinedField => Ok(Undefined)
    case BooleanText => BooleanToText(v)
    case SingletonField(c) => Ok(c)
    case ObjectField(ks, ss) =>
      (match SerializeEntries(ks, ss, v)
       case Ok(props) => Ok(Obj(props))
       case Fail(e) => Fail(e))
    case ArrayField(item) =>
      if !v.Arr? then Fail(MapCrash(v))
      else
        (match SerializeItems(item, v.items, 0)
         case Ok(vs) => Ok(Arr(vs))
         case Fail(e) => Fail(e))
    case Optional(inner) => if v == Undefined then Ok(Undefined) else Serialize(inner, v)
    case WithDefault(inner, _) => Serialize(inner, v)
    case WithDoc(inner, _) => Serialize(inner, v)
    case _ => Ok(v)
  }

  /** The TypeError `value.map(...)` throws on a value that is not an array:
      on `undefined` and `null` reading `map` fails first, on anything else
      `map` is not a function. */
  function MapCrash(v: Value): (e: Error)
    requires !v.Arr?
    ensures (v.Undefined? || v.Null?) ==> e == ReadProp(v, "map").error
    ensures !(v.Undefined? || v.Null?) ==> e == Crash("map is not a function")
  {
    if v.Undefined? || v.Null? then ReadProp(v, "map").error else Crash("map is not a function")
  }

  /** interface.ts `serialize(spec, value)`. */
  function SerializeSpec(s: Spec, v: Value): (r: Result<Value>)
    ensures IsArraySpec(s) && !v.Arr? ==> r == Fail(MapCrash(v))
    ensures IsArraySpec(s) && r.Ok? ==> v.Arr? && r.value.Arr? && |r.value.items| == |v.items|
    ensures s.SObj? && AllFields(s.specs) && r.Ok? ==> r.value.Obj? && |r.value.props| == MinLen(s.keys, s.specs)
    ensures (s.SObj? && !AllFields(s.specs)) || (s.SArr? && !IsArraySpec(s) && !AllFields(s.elems)) ==> r == Ok(Undefined)
    decreases s, 0
  {
    match s
    case SUndef => Ok(Undefined)
    case SField(f) => Serialize(f, v)
    case SArr(es) =>
      if IsArraySpec(s) then
        if !v.Arr? then Fail(MapCrash(v))
        else
          (match SerializeItems(es[0].field, v.items, 0)
           case Ok(vs) => Ok(Arr(vs))
           case Fail(e) => Fail(e))
      else if AllFields(es) then
        (match SerializeEntries(IndexKeys(|es|), es, v)
         case Ok(props) => Ok(Obj(props))
         case Fail(e) => Fail(e))
      else Ok(Undefined)
    case SObj(ks, ss) =>
      if AllFields(ss) then
        match SerializeEntries(ks, ss, v)
        case Ok(props) => Ok(Obj(props))
        case Fail(e) => Fail(e)
      else Ok(Undefined)
  }

  /** The serialize side of the per-key step: no shape check and no
      extra-key check; reading a key of undefined or null throws. */
  function SerializeEntries(ks: seq<string>, ss: seq<Spec>, v: Value): (r: Result<seq<Prop>>)
    ensures r.Ok? ==> |r.value| == MinLen(ks, ss)
    ensures r.Ok? && (v.Obj? || v.Arr?) ==> forall i :: 0 <= i < |r.value| ==>
      r.value[i].key == ks[i] && SerializeSpec(ss[i], Get(v, ks[i])) == Ok(r.value[i].val)
    ensures (v.Undefined? || v.Null?) && ks != [] && ss != [] ==>
      r == Fail(Decorate(KStr(ks[0]), ReadProp(v, ks[0]).error))
    decreases ss, 0
  {
    if ks == [] || ss == [] then Ok([])
    else
      var item := match ReadProp(v, ks[0])
        case Fail(e) => Fail(e)
        case Ok(x) => SerializeSpec(ss[0], x);
      match WithErrorDecoration(KStr(ks[0]), item)
      case Fail(e) => Fail(e)
      case Ok(x) =>
        match SerializeEntries(ks[1..], ss[1..], v)
        case Fail(e) => Fail(e)
        case Ok(rest) =>
          assert forall i :: 1 <= i < MinLen(ks, ss) ==> ks[i] == ks[1..][i - 1] && ss[i] == ss[1..][i - 1];
          Ok([Prop(ks[0], x)] + rest)
  }

  /** arrayField.serialize: element-wise, with index decoration. */
  function SerializeItems(item: Field, items: seq<Value>, offset: nat): (r: Result<seq<Value>>)
    ensures r.Ok? ==> |r.value| == |items|
    ensures r.Ok? ==> forall i :: 0 <= i < |items| ==> Serialize(item, items[i]) == Ok(r.value[i])
    decreases item, |items| + 1
  {
    if items == [] then Ok([])
    else
      match WithErrorDecoration(KIdx(offset), Serialize(item, items[0]))
      case Fail(e) => Fail(e)
      case Ok(x) =>
        match SerializeItems(item, items[1..], offset + 1)
        case Fail(e) => Fail(e)
        case Ok(rest) =>
          assert forall i :: 1 <= i < |items| ==> items[i] == items[1..][i - 1];
          Ok([x] + rest)
  }
}
