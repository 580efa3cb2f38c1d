/** Field kinds, decorators and spec trees, with the structural predicates of
    packages/validator/src/core.ts and packages/validator/src/interface.ts that
    decide what a spec stands for. */
module Specs {
  import opened Values
  import opened Scalars

  /** Every built-in field kind and decorator. The `...WithRegExp` and
      `BooleanText` kinds are the string-input variants used in path segments. */
  datatype Field =
    | UndefinedField
    | StringField(regex: Option<string>)
    | NumberField(canBeFloat: bool)
    | NumberFieldWithRegExp(canBeFloat: bool)
    | BooleanField
    | BooleanText
    | ChoiceField(choices: seq<Value>)
    | ChoiceFieldWithRegExp(choices: seq<Value>)
    | SingletonField(choice: Value)
    | ObjectField(keys: seq<string>, specs: seq<Spec>)
    | ArrayField(itemField: Field)
    | Optional(innerField: Field)
    | WithDefault(innerField: Field, defaultValue: Value)
    | WithDoc(innerField: Field, doc: Value)

  /** A spec as a caller writes it: `undefined`, a field, an array literal or
      an object literal (keys and specs side by side, in key order). */
  datatype Spec =
    | SUndef
    | SField(field: Field)
    | SArr(elems: seq<Spec>)
    | SObj(keys: seq<string>, specs: seq<Spec>)

  const StringTag := "@validator/fields.StringField"
  const NumberTag := "@validator/fields.NumberField"
  const BooleanTag := "@validator/fields.BooleanField"
  const ChoiceTag := "@validator/fields.ChoiceField"
  const ObjectTag := "@validator/fields.ObjectField"
  const ArrayTag := "@validator/fields.ArrayField"
  const OptionalTag := "@validator/fields.Optional"
  const WithDefaultTag := "@validator/fields.WithDefault"
  const WithDocTag := "@validator/fields.WithDoc"

  /** The `type` a field carries. Declared kinds carry their declaration's tag;
      the boolean string variant copies the base field's tag; the choice
      variant is built with `new` directly and carries none, nor does a
      singleton field. Number and array tags are Symbols in the source and are
      named here by their description. */
  function TypeOf(f: Field): (t: Option<string>)
    ensures t.Some? ==> t.value != ""
    ensures (f.BooleanField? || f.BooleanText?) ==> t == Some(BooleanTag)
    ensures (f.NumberField? || f.NumberFieldWithRegExp?) ==> t == Some(NumberTag)
    ensures f.ChoiceFieldWithRegExp? || f.SingletonField? || f.UndefinedField? ==> t.None?
  {
    match f
    case UndefinedField => None
    case StringField(_) => Some(StringTag)
    case NumberField(_) => Some(NumberTag)
    case NumberFieldWithRegExp(_) => Some(NumberTag)
    case BooleanField => Some(BooleanTag)
    case BooleanText => Some(BooleanTag)
    case ChoiceField(_) => Some(ChoiceTag)
    case ChoiceFieldWithRegExp(_) => None
    case SingletonField(_) => None
    case ObjectField(_, _) => Some(ObjectTag)
    case ArrayField(_) => Some(ArrayTag)
    case Optional(_) => Some(OptionalTag)
    case WithDefault(_, _) => Some(WithDefaultTag)
    case WithDoc(_, _) => Some(WithDocTag)
  }

  /** `getFieldWithRegExp()`, for the kinds that define it. A string field
      returns itself; number and choice fields build their variant from the
      same spec; the boolean field builds its text variant. Variants of number
      and choice inherit the method; the other kinds do not have it. */
  function WithRegExp(f: Field): (r: Option<Field>)
    ensures f.StringField? ==> r == Some(f)
    ensures r.Some? && !r.value.ChoiceFieldWithRegExp? ==> RegexSource(r.value).Some?
  {
    match f
    case StringField(_) => Some(f)
    case NumberField(c) => Some(NumberFieldWithRegExp(c))
    case NumberFieldWithRegExp(c) => Some(f)
    case BooleanField => Some(BooleanText)
    case ChoiceField(cs) => Some(ChoiceFieldWithRegExp(cs))
    case ChoiceFieldWithRegExp(cs) => Some(f)
    case _ => None
  }

  /** Asking a variant for its variant again yields the same variant, except
      for the boolean text variant, which omits `getFieldWithRegExp`. */
  lemma WithRegExpStable(f: Field)
    requires SupportsStringInput(f)
    ensures var g := WithRegExp(f).value;
      WithRegExp(g) == (if g.BooleanText? then None else Some(g))
  {
  }

  predicate SupportsStringInput(f: Field) {
    WithRegExp(f).Some?
  }

  /** The `.regex.source` of a string-input field; the choice variant's
      pattern is taken from its choices (see ChoicePatternListsIndices for
      the pattern the source builds). */
  function RegexSource(f: Field): (r: Option<string>)
    ensures r.Some? <==> (f.StringField? || f.NumberFieldWithRegExp? || f.BooleanText? ||
      (f.ChoiceFieldWithRegExp? && forall i :: 0 <= i < |f.choices| ==> ToText(f.choices[i]).Some?))
  {
    match f
    case StringField(re) => Some(StringRegexSource(re))
    case NumberFieldWithRegExp(c) => Some(NumberRegexSource(c))
    case BooleanText => Some(BooleanRegexSource)
    case ChoiceFieldWithRegExp(cs) => ChoiceRegexSource(cs)
    case _ => None
  }

  /** The fixed patterns: booleans as `true|false|1|0`, integers as `-?\d+`
      with an optional fraction for floats, and any text for an unconstrained
      string field. */
  lemma FixedStringInputPatterns()
    ensures RegexSource(BooleanText) == Some("true|false|1|0")
    ensures RegexSource(NumberFieldWithRegExp(false)) == Some("-?\\d+")
    ensures RegexSource(NumberFieldWithRegExp(true)) == Some("-?\\d+(\\.\\d+)?")
    ensures RegexSource(StringField(None)) == Some(".*")
  {
    assert NumberRegexSource(false) == "-?\\d+" + "" == "-?\\d+";
    assert NumberRegexSource(true) == "-?\\d+" + "(\\.\\d+)?" == "-?\\d+(\\.\\d+)?";
  }

  // ------------------------------------------------ interface.ts predicates

  predicate AllFields(specs: seq<Spec>) {
    forall i :: 0 <= i < |specs| ==> specs[i].SField?
  }

  /** interface.ts `isArraySpec`: an array of exactly one element that is a Field. */
  predicate IsArraySpec(s: Spec)
    ensures IsArraySpec(s) ==> IsObjectSpec(s)
  {
    s.SArr? && |s.elems| == 1 && s.elems[0].SField?
  }

  /** interface.ts `isObjectSpec`: every own key's value is a Field. An array
      is an object whose keys are its indices, so an array of Fields of any
      length passes too. */
  predicate IsObjectSpec(s: Spec)
    ensures IsObjectSpec(s) ==> (s.SObj? || s.SArr?) && IsObjectSpecDeep(s) == Some(true)
  {
    (s.SObj? && AllFields(s.specs)) || (s.SArr? && AllFields(s.elems))
  }

  /** interface.ts `getFieldForSpec`. */
  function FieldForSpec(s: Spec): (f: Field)
    ensures s.SUndef? ==> f == UndefinedField
    ensures s.SField? ==> f == s.field
    ensures IsArraySpec(s) ==> f == ArrayField(s.elems[0].field)
    ensures !IsArraySpec(s) && s.SArr? && AllFields(s.elems) ==>
      f == ObjectField(IndexKeys(|s.elems|), s.elems)
    ensures s.SObj? && AllFields(s.specs) ==> f == ObjectField(s.keys, s.specs)
    ensures !s.SField? && !IsArraySpec(s) && !IsObjectSpec(s) ==> f == UndefinedField
  {
    match s
    case SUndef => UndefinedField
    case SField(f) => f
    case SArr(es) =>
      if IsArraySpec(s) then ArrayField(es[0].field)
      else if AllFields(es) then ObjectField(IndexKeys(|es|), es)
      else UndefinedField
    case SObj(ks, ss) =>
      if AllFields(ss) then ObjectField(ks, ss) else UndefinedField
  }

  // ------------------------------------------------ core.ts predicates

  /** core.ts `isValidChild`, whose `isObjectSpec` calls `Object.keys(obj)`:
      on `undefined` that throws, reported here as None. */
  function IsValidChild(s: Spec): (r: Option<bool>)
    ensures s.SField? ==> r == Some(true)
    ensures s.SUndef? ==> r.None?
  {
    match s
    case SUndef => None
    case SField(_) => Some(true)
    case SArr(es) =>
      if |es| == 1 && IsValidChild(es[0]) == Some(true) then Some(true)
      else AllValidChildren(es)
    case SObj(_, ss) => AllValidChildren(ss)
  }

  /** core.ts `isObjectSpec`'s early-return loop over the values of a spec. */
  function AllValidChildren(ss: seq<Spec>): (r: Option<bool>)
    ensures r == Some(true) ==> forall i :: 0 <= i < |ss| ==> IsValidChild(ss[i]) == Some(true)
    ensures (forall i :: 0 <= i < |ss| ==> IsValidChild(ss[i]) == Some(true)) ==> r == Some(true)
  {
    if ss == [] then Some(true)
    else
      match IsValidChild(ss[0])
      case None => None
      case Some(false) => Some(false)
      case Some(true) =>
        var rest := AllValidChildren(ss[1..]);
        assert forall i :: 1 <= i < |ss| ==> ss[i] == ss[1..][i - 1];
        rest
  }

  /** core.ts `isObjectSpec`, which accepts any object whose values are valid
      children, recursively; the empty object qualifies. */
  function IsObjectSpecDeep(s: Spec): (r: Option<bool>)
    requires s.SObj? || s.SArr?
    ensures var children := if s.SObj? then s.specs else s.elems;
      r == Some(true) <==> forall i :: 0 <= i < |children| ==> IsValidChild(children[i]) == Some(true)
  {
    if s.SObj? then AllValidChildren(s.specs) else AllValidChildren(s.elems)
  }

  /** core.ts `isArraySpec`: an array of exactly one valid child. */
  function IsArraySpecDeep(s: Spec): (r: bool)
    ensures IsArraySpec(s) ==> r
    ensures r ==> s.SArr? && IsObjectSpecDeep(s) == Some(true)
  {
    s.SArr? && |s.elems| == 1 && IsValidChild(s.elems[0]) == Some(true)
  }

  /** Nested object literals are children for core.ts, but not Fields for
      interface.ts, which therefore falls back to the undefined field. */
  lemma NestedLiteralIsChildButNotObjectSpec(f: Field)
    ensures var s := SObj(["a"], [SObj(["b"], [SField(f)])]);
      IsObjectSpecDeep(s) == Some(true) && !IsObjectSpec(s) && FieldForSpec(s) == UndefinedField
  {
    var inner := SObj(["b"], [SField(f)]);
    assert IsValidChild(inner) == Some(true) by {
      assert AllValidChildren([SField(f)]) == Some(true);
    }
    assert AllValidChildren([inner]) == Some(true);
  }
}
