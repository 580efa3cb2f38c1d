/** The field declarations: the factory functions through which a caller
    builds a field (`numberField`, `choiceField`, `stringField`), including
    what their declaration wrappers actually do with the arguments. */
module Declarations {
  import opened Values
  import opened Scalars
  import opened Specs
  import opened Engine

  // ------------------------------------------------------------ numberField

  /** `numberField(spec = {canBeFloat: false})`: an omitted spec means integers only. */
  function DeclareNumber(spec: Option<bool>): (f: Field)
    ensures f.NumberField?
    ensures spec.Some? ==> f.canBeFloat == spec.value
  {
    NumberField(if spec.Some? then spec.value else false)
  }

  /** A number field declared without a spec accepts integral numbers only. */
  lemma DefaultNumberFieldIsIntegral(v: Value, m: Matcher)
    ensures Validate(DeclareNumber(None), v, m).Ok? <==> v.Num? && IsIntegral(v.n)
    ensures v.Num? && !IsIntegral(v.n) ==> Validate(DeclareNumber(None), v, m) == Fail(Reason("Not an int"))
  {
  }

  // ------------------------------------------------------------ choiceField

  /** `new Set(iterable)`: undefined and null give the empty set, an array its
      items, a string its characters; anything else is not iterable. */
  function SetOf(x: Value): (r: Result<seq<Value>>)
    ensures (x.Undefined? || x.Null?) ==> r == Ok([])
    ensures x.Arr? ==> r == Ok(x.items)
    ensures x.Str? ==> r.Ok? && |r.value| == |x.s|
    ensures (x.Bool? || x.Num? || x.NaN? || x.Obj?) ==> r.Fail?
  {
    match x
    case Undefined => Ok([])
    case Null => Ok([])
    case Arr(items) => Ok(items)
    case Str(s) => Ok(Characters(s))
    case _ => Fail(Crash("object is not iterable"))
  }

  /** Each character of a string as a one-character string. */
  function Characters(s: string): (cs: seq<Value>)
    ensures |cs| == |s|
    ensures forall i :: 0 <= i < |s| ==> cs[i] == Str([s[i]])
  {
    if s == [] then [] else [Str([s[0]])] + Characters(s[1..])
  }

  /** `choiceField(...choices)` as written: the declaration wrapper forwards
      every argument to `new ChoiceField(...)`, whose constructor takes only
      the first one as its params and builds the choice set from that
      argument's `choices` property. */
  function DeclareChoiceAsWritten(args: seq<Value>): (r: Result<Field>)
    ensures args == [] ==> r == Fail(ReadProp(Undefined, "choices").error)
    ensures r.Ok? ==> r.value.ChoiceField?
  {
    var params := if args == [] then Undefined else args[0];
    match ReadProp(params, "choices")
    case Fail(e) => Fail(e)
    case Ok(cs) =>
      match SetOf(cs)
      case Fail(e) => Fail(e)
      case Ok(members) => Ok(ChoiceField(members))
  }

  predicate IsPrimitive(v: Value) {
    v.Bool? || v.Num? || v.NaN? || v.Str?
  }

  /** Called as its type promises, with the choices themselves as arguments,
      the as-written declaration has no choices at all: every value, the
      declared choices included, is an invalid choice. */
  lemma {:induction false} AsWrittenChoiceRejectsItsChoices(args: seq<Value>, v: Value, m: Matcher)
    requires args != [] && forall i :: 0 <= i < |args| ==> IsPrimitive(args[i])
    ensures DeclareChoiceAsWritten(args) == Ok(ChoiceField([]))
    ensures Validate(DeclareChoiceAsWritten(args).value, v, m) == Fail(Reason("Invalid choice"))
  {
    assert IsPrimitive(args[0]);
    assert Get(args[0], "choices") == Undefined;
  }

  /** `choiceField('a', 'b')` rejects `'a'`. */
  lemma AsWrittenChoiceCounterexample(m: Matcher)
    ensures DeclareChoiceAsWritten([Str("a"), Str("b")]).Ok?
    ensures Validate(DeclareChoiceAsWritten([Str("a"), Str("b")]).value, Str("a"), m) ==
      Fail(Reason("Invalid choice"))
  {
    AsWrittenChoiceRejectsItsChoices([Str("a"), Str("b")], Str("a"), m);
  }

  /** The constructor's own params shape, `{choices: [...]}`, is what the
      as-written declaration actually honours. */
  lemma AsWrittenChoiceHonoursParamsObject(items: seq<Value>, rest: seq<Value>)
    ensures DeclareChoiceAsWritten([Obj([Prop("choices", Arr(items))])] + rest) == Ok(ChoiceField(items))
  {
    var params := Obj([Prop("choices", Arr(items))]);
    assert ([params] + rest)[0] == params;
    assert Get(params, "choices") == Arr(items);
  }

  /** `choiceField(...choices)` as evidently intended: the arguments are the choices. */
  function DeclareChoice(args: seq<Value>): (f: Field)
    ensures f.ChoiceField? && TypeOf(f) == Some(ChoiceTag)
  {
    ChoiceField(args)
  }

  /** The intended declaration accepts exactly its arguments, unchanged, and
      rejects everything else as an invalid choice. */
  lemma ChoiceAcceptsExactlyItsArguments(args: seq<Value>, v: Value, m: Matcher)
    ensures Validate(DeclareChoice(args), v, m).Ok? <==> v in args
    ensures Validate(DeclareChoice(args), v, m).Ok? ==> Validate(DeclareChoice(args), v, m).value == v
    ensures v !in args ==> Validate(DeclareChoice(args), v, m) == Fail(Reason("Invalid choice"))
  {
  }

  // ------------------------------------------------------------ stringField

  /** `stringField(regex?)` as written: the declaration helper it goes through
      returns `Object.assign({type}, wrapper)`, a plain object carrying only the
      type, so calling it throws. */
  function DeclareStringAsWritten(regex: Option<string>): (r: Result<Field>)
    ensures r.Fail? && r.error.Crash?
  {
    Fail(Crash("stringField is not a function"))
  }

  /** `stringField(regex?)` as evidently intended: a callable declaration
      producing a string field stamped with its type. */
  function DeclareString(regex: Option<string>): (f: Field)
    ensures f.StringField? && f.regex == regex
    ensures TypeOf(f) == Some(StringTag)
  {
    StringField(regex)
  }

  /** The intended string field accepts exactly the strings its pattern matches
      whole, and nothing that is not a string. */
  lemma StringFieldAcceptsMatchingStrings(regex: Option<string>, v: Value, m: Matcher)
    ensures Validate(DeclareString(regex), v, m).Ok? <==>
      v.Str? && (regex.None? || m("^" + regex.value + "$", v.s))
    ensures Validate(DeclareString(regex), v, m).Ok? ==> Validate(DeclareString(regex), v, m).value == v
  {
  }
}
