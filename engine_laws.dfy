/** What the spec-tree engine promises: dispatch through `getFieldForSpec`,
    first-failure reporting with fully qualified paths, extra keys only after
    the declared keys pass, and validation as a fixed point whose result
    serializes back to itself. */
module EngineLaws {
  import opened Values
  import opened Scalars
  import opened Decoration
  import opened Specs
  import opened Engine

  /** `validate(spec, v)` and `serialize(spec, v)` are those of `getFieldForSpec(spec)`. */
  lemma SpecValidatesThroughItsField(s: Spec, v: Value, m: Matcher)
    ensures ValidateSpec(s, v, m) == Validate(FieldForSpec(s), v, m)
    ensures SerializeSpec(s, v) == Serialize(FieldForSpec(s), v)
  {
    SpecValidateDispatch(s, v, m);
    SpecSerializeDispatch(s, v);
  }

  lemma SpecValidateDispatch(s: Spec, v: Value, m: Matcher)
    ensures ValidateSpec(s, v, m) == Validate(FieldForSpec(s), v, m)
  {
    if IsArraySpec(s) {
      ArraySpecValidateDispatch(s, v, m);
    } else if s.SArr? {
      TupleSpecValidateDispatch(s, v, m);
    }
  }

  lemma ArraySpecValidateDispatch(s: Spec, v: Value, m: Matcher)
    requires IsArraySpec(s)
    ensures ValidateSpec(s, v, m) == Validate(FieldForSpec(s), v, m)
  {
    assert FieldForSpec(s) == ArrayField(s.elems[0].field);
  }

  lemma TupleSpecValidateDispatch(s: Spec, v: Value, m: Matcher)
    requires s.SArr? && !IsArraySpec(s)
    ensures ValidateSpec(s, v, m) == Validate(FieldForSpec(s), v, m)
  {
    if AllFields(s.elems) {
      var ks := IndexKeys(|s.elems|);
      assert FieldForSpec(s) == ObjectField(ks, s.elems);
      assert ValidateSpec(s, v, m) == ValidateObject(ks, s.elems, v, m);
      assert Validate(ObjectField(ks, s.elems), v, m) == ValidateObject(ks, s.elems, v, m);
    } else {
      assert ValidateSpec(s, v, m) == Ok(Undefined);
      assert FieldForSpec(s) == UndefinedField;
    }
  }

  lemma SpecSerializeDispatch(s: Spec, v: Value)
    ensures SerializeSpec(s, v) == Serialize(FieldForSpec(s), v)
  {
    if IsArraySpec(s) {
      ArraySpecSerializeDispatch(s, v);
    } else if s.SArr? {
      TupleSpecSerializeDispatch(s, v);
    }
  }

  lemma ArraySpecSerializeDispatch(s: Spec, v: Value)
    requires IsArraySpec(s)
    ensures SerializeSpec(s, v) == Serialize(FieldForSpec(s), v)
  {
    assert FieldForSpec(s) == ArrayField(s.elems[0].field);
  }

  lemma TupleSpecSerializeDispatch(s: Spec, v: Value)
    requires s.SArr? && !IsArraySpec(s)
    ensures SerializeSpec(s, v) == Serialize(FieldForSpec(s), v)
  {
    if AllFields(s.elems) {
      var ks := IndexKeys(|s.elems|);
      assert FieldForSpec(s) == ObjectField(ks, s.elems);
    } else {
      assert SerializeSpec(s, v) == Ok(Undefined);
      assert FieldForSpec(s) == UndefinedField;
    }
  }

  // ------------------------------------------------------------ first failure

  /** Keys are checked in spec order: when the keys before `i` pass and key
      `i` fails, the object fails with key `i`'s error qualified by that key. */
  lemma {:induction false} EntriesFailAtFirstFailingKey(ks: seq<string>, ss: seq<Spec>, v: Value, m: Matcher, i: nat)
    requires i < |ks| && i < |ss|
    requires forall j :: 0 <= j < i ==> ValidateSpec(ss[j], Get(v, ks[j]), m).Ok?
    requires ValidateSpec(ss[i], Get(v, ks[i]), m).Fail?
    ensures ValidateEntries(ks, ss, v, m) == Fail(Decorate(KStr(ks[i]), ValidateSpec(ss[i], Get(v, ks[i]), m).error))
    decreases i
  {
    if i > 0 {
      assert ValidateSpec(ss[0], Get(v, ks[0]), m).Ok?;
      EntriesFailAtFirstFailingKey(ks[1..], ss[1..], v, m, i - 1);
    }
  }

  /** Elements are checked in index order: the first failing element is the
      one reported, with its index in front of its path. */
  lemma {:induction false} ItemsFailAtFirstFailingIndex(item: Field, items: seq<Value>, offset: nat, m: Matcher, i: nat)
    requires i < |items|
    requires forall j :: 0 <= j < i ==> Validate(item, items[j], m).Ok?
    requires Validate(item, items[i], m).Fail?
    ensures ValidateItems(item, items, offset, m) == Fail(Decorate(KIdx(offset + i), Validate(item, items[i], m).error))
    decreases i
  {
    if i == 0 {
      FailingHeadFailsItems(item, items, offset, m);
    } else {
      var tl := items[1..];
      var e := Validate(item, items[i], m).error;
      assert ValidateItems(item, tl, offset + 1, m) == Fail(Decorate(KIdx(offset + i), e)) by {
        assert Validate(item, tl[i - 1], m) == Validate(item, items[i], m);
        assert forall j :: 0 <= j < i - 1 ==> tl[j] == items[j + 1];
        ItemsFailAtFirstFailingIndex(item, tl, offset + 1, m, i - 1);
      }
      FailingTailFailsItems(item, items, offset, m);
    }
  }

  lemma FailingHeadFailsItems(item: Field, items: seq<Value>, offset: nat, m: Matcher)
    requires items != [] && Validate(item, items[0], m).Fail?
    ensures ValidateItems(item, items, offset, m) == Fail(Decorate(KIdx(offset), Validate(item, items[0], m).error))
  {
  }

  lemma FailingTailFailsItems(item: Field, items: seq<Value>, offset: nat, m: Matcher)
    requires items != [] && Validate(item, items[0], m).Ok?
    requires ValidateItems(item, items[1..], offset + 1, m).Fail?
    ensures ValidateItems(item, items, offset, m) == ValidateItems(item, items[1..], offset + 1, m)
  {
  }

  /** An array field reports the first failing element at its index. */
  lemma ArrayFailsAtFirstFailingIndex(item: Field, items: seq<Value>, m: Matcher, i: nat)
    requires i < |items|
    requires forall j :: 0 <= j < i ==> Validate(item, items[j], m).Ok?
    requires Validate(item, items[i], m).Fail?
    ensures Validate(ArrayField(item), Arr(items), m) == Fail(Decorate(KIdx(i), Validate(item, items[i], m).error))
  {
    ItemsFailAtFirstFailingIndex(item, items, 0, m, i);
    ArrayOfFailingItems(item, items, m);
  }

  lemma ArrayOfFailingItems(item: Field, items: seq<Value>, m: Matcher)
    requires ValidateItems(item, items, 0, m).Fail?
    ensures Validate(ArrayField(item), Arr(items), m) == Fail(ValidateItems(item, items, 0, m).error)
  {
  }

  /** A failing declared key fails the object field, and the object spec,
      with that key's decorated error. */
  lemma ObjectFailsAtEntries(ks: seq<string>, ss: seq<Spec>, v: Value, m: Matcher)
    requires IsObjectLike(v) && ValidateEntries(ks, ss, v, m).Fail?
    ensures Validate(ObjectField(ks, ss), v, m) == Fail(ValidateEntries(ks, ss, v, m).error)
    ensures AllFields(ss) ==> ValidateSpec(SObj(ks, ss), v, m) == Fail(ValidateEntries(ks, ss, v, m).error)
  {
    assert Validate(ObjectField(ks, ss), v, m) == ValidateObject(ks, ss, v, m);
  }

  /** Passing declared keys and no undeclared key make the object field pass. */
  lemma ObjectPassesWithEntries(ks: seq<string>, ss: seq<Spec>, v: Value, m: Matcher)
    requires IsObjectLike(v) && ValidateEntries(ks, ss, v, m).Ok? && Without(OwnKeys(v), ks) == []
    ensures Validate(ObjectField(ks, ss), v, m) == Ok(Obj(ValidateEntries(ks, ss, v, m).value))
  {
    assert Validate(ObjectField(ks, ss), v, m) == ValidateObject(ks, ss, v, m);
  }

  /** Of two declared keys, a passing first and a failing second fail the
      object spec with the second key's decorated error. */
  lemma SecondKeyFails(k0: string, k1: string, ss: seq<Spec>, v: Value, m: Matcher)
    requires |ss| == 2 && AllFields(ss) && IsObjectLike(v)
    requires ValidateSpec(ss[0], Get(v, k0), m).Ok?
    requires ValidateSpec(ss[1], Get(v, k1), m).Fail?
    ensures ValidateSpec(SObj([k0, k1], ss), v, m) == Fail(Decorate(KStr(k1), ValidateSpec(ss[1], Get(v, k1), m).error))
  {
    EntriesFailAtFirstFailingKey([k0, k1], ss, v, m, 1);
    ObjectFailsAtEntries([k0, k1], ss, v, m);
  }

  /** The extra-key check comes last: a failing declared key wins over extra
      keys, and extra keys are reported, in input order, only when every
      declared key passes. */
  lemma DeclaredKeysBeforeExtraKeys(ks: seq<string>, ss: seq<Spec>, v: Value, m: Matcher)
    requires |ks| == |ss| && IsObjectLike(v)
    ensures (exists i :: 0 <= i < |ks| && ValidateSpec(ss[i], Get(v, ks[i]), m).Fail?) ==>
      ValidateObject(ks, ss, v, m) == Fail(ValidateEntries(ks, ss, v, m).error) &&
      ValidateObject(ks, ss, v, m).error.Path?
    ensures (forall i :: 0 <= i < |ks| ==> ValidateSpec(ss[i], Get(v, ks[i]), m).Ok?) ==>
      ValidateObject(ks, ss, v, m) ==
        (if Without(OwnKeys(v), ks) != [] then Fail(ExtraKeys(Without(OwnKeys(v), ks)))
         else Ok(Obj(ValidateEntries(ks, ss, v, m).value)))
  {
    if exists i :: 0 <= i < |ks| && ValidateSpec(ss[i], Get(v, ks[i]), m).Fail? {
      assert ValidateEntries(ks, ss, v, m).Fail?;
      FailedEntriesCarryPath(ks, ss, v, m);
    }
  }

  /** Every failure of the per-key step is qualified by the failing key. */
  lemma {:induction false} FailedEntriesCarryPath(ks: seq<string>, ss: seq<Spec>, v: Value, m: Matcher)
    requires ValidateEntries(ks, ss, v, m).Fail?
    ensures ValidateEntries(ks, ss, v, m).error.Path?
    ensures |ValidateEntries(ks, ss, v, m).error.path| >= 1
    ensures ValidateEntries(ks, ss, v, m).error.path[0] in KeyPath(ks)
    decreases ss
  {
    if ValidateSpec(ss[0], Get(v, ks[0]), m).Ok? {
      FailedEntriesCarryPath(ks[1..], ss[1..], v, m);
      assert KeyPath(ks)[1..] == KeyPath(ks[1..]);
    }
  }

  // ------------------------------------------------------------ nested paths

  /** `{k1: objectField({k2: ... objectField({kn: leaf})})}` */
  function Nest(keys: seq<string>, leaf: Field): (f: Field)
    ensures keys == [] ==> f == leaf
    ensures keys != [] ==> f == ObjectField([keys[0]], [SField(Nest(keys[1..], leaf))])
  {
    if keys == [] then leaf else ObjectField([keys[0]], [SField(Nest(keys[1..], leaf))])
  }

  /** `{k1: {k2: ... {kn: x}}}` */
  function NestValue(keys: seq<string>, x: Value): (v: Value)
    ensures keys == [] ==> v == x
    ensures keys != [] ==> v == Obj([Prop(keys[0], NestValue(keys[1..], x))])
  {
    if keys == [] then x else Obj([Prop(keys[0], NestValue(keys[1..], x))])
  }

  function KeyPath(keys: seq<string>): (p: seq<Key>)
    ensures |p| == |keys|
    ensures forall i :: 0 <= i < |keys| ==> p[i] == KStr(keys[i])
  {
    if keys == [] then [] else [KStr(keys[0])] + KeyPath(keys[1..])
  }

  /** One level of nesting: a failure under key `k` is decorated with `k`. */
  lemma SingleKeyFailure(k: string, g: Field, y: Value, m: Matcher)
    requires Validate(g, y, m).Fail?
    ensures Validate(ObjectField([k], [SField(g)]), Obj([Prop(k, y)]), m) ==
      Fail(Decorate(KStr(k), Validate(g, y, m).error))
  {
    var v := Obj([Prop(k, y)]);
    assert Get(v, k) == y;
    EntriesFailAtFirstFailingKey([k], [SField(g)], v, m, 0);
  }

  /** A plain failure `n` levels deep is reported with exactly the `n` keys
      leading to it, outermost first, and the failure itself unchanged. */
  lemma {:induction false} NestedFailureHasFullPath(keys: seq<string>, leaf: Field, x: Value, m: Matcher)
    requires keys != []
    requires Validate(leaf, x, m).Fail?
    requires !Validate(leaf, x, m).error.Path? && Truthy(Validate(leaf, x, m).error)
    ensures Validate(Nest(keys, leaf), NestValue(keys, x), m) == Fail(Path(KeyPath(keys), Validate(leaf, x, m).error))
    decreases keys
  {
    var e := Validate(leaf, x, m).error;
    var inner := Nest(keys[1..], leaf);
    var y := NestValue(keys[1..], x);
    if |keys| == 1 {
      assert inner == leaf && y == x;
      SingleKeyFailure(keys[0], leaf, x, m);
    } else {
      NestedFailureHasFullPath(keys[1..], leaf, x, m);
      SingleKeyFailure(keys[0], inner, y, m);
      assert [KStr(keys[0])] + KeyPath(keys[1..]) == KeyPath(keys);
    }
  }

  // ------------------------------------------------------------ decorators

  /** `optional(inner)`: `undefined` passes, and serializes, as `undefined`
      without consulting the inner field; any other value is the inner
      field's to accept or reject. */
  lemma OptionalDelegates(inner: Field, v: Value, m: Matcher)
    ensures Validate(Optional(inner), Undefined, m) == Ok(Undefined)
    ensures Serialize(Optional(inner), Undefined) == Ok(Undefined)
    ensures v != Undefined ==> Validate(Optional(inner), v, m) == Validate(inner, v, m)
    ensures v != Undefined ==> Serialize(Optional(inner), v) == Serialize(inner, v)
  {
  }

  /** `withDefault(inner, d)`: a missing value is replaced by the default,
      which the inner field then validates like any input; a present value
      ignores the default, and serialize never substitutes it. */
  lemma WithDefaultValidatesTheDefault(inner: Field, d: Value, v: Value, m: Matcher)
    ensures Validate(WithDefault(inner, d), Undefined, m) == Validate(inner, d, m)
    ensures v != Undefined ==> Validate(WithDefault(inner, d), v, m) == Validate(inner, v, m)
    ensures Serialize(WithDefault(inner, d), v) == Serialize(inner, v)
  {
  }

  /** `withDoc(inner, doc)` validates and serializes exactly as its inner field. */
  lemma WithDocIsTransparent(inner: Field, doc: Value, v: Value, m: Matcher)
    ensures Validate(WithDoc(inner, doc), v, m) == Validate(inner, v, m)
    ensures Serialize(WithDoc(inner, doc), v) == Serialize(inner, v)
  {
  }

  /** String, number, boolean and choice fields serialize every value to itself. */
  lemma ScalarsSerializeToThemselves(re: Option<string>, canBeFloat: bool, cs: seq<Value>, v: Value)
    ensures Serialize(StringField(re), v) == Ok(v)
    ensures Serialize(NumberField(canBeFloat), v) == Ok(v)
    ensures Serialize(BooleanField, v) == Ok(v)
    ensures Serialize(ChoiceField(cs), v) == Ok(v)
  {
  }

  /** `singletonField(c)` ignores its input in both directions and never fails. */
  lemma SingletonIgnoresInput(c: Value, v: Value, m: Matcher)
    ensures Validate(SingletonField(c), v, m) == Ok(c)
    ensures Serialize(SingletonField(c), v) == Ok(c)
  {
  }

  /** An object field whose keys are all optional accepts an object holding
      none of them, and returns each key holding `undefined`. */
  lemma AbsentOptionalKeysValidate(ks: seq<string>, inners: seq<Field>, m: Matcher)
    requires |ks| == |inners|
    ensures ValidateObject(ks, OptionalSpecs(inners), Obj([]), m) ==
      Ok(Obj(Zip(ks, Undefineds(|ks|))))
  {
    AbsentOptionalEntries(ks, inners, m);
    assert Without(OwnKeys(Obj([])), ks) == [];
    ObjectOfEntries(ks, OptionalSpecs(inners), Obj([]), m, Zip(ks, Undefineds(|ks|)));
  }

  /** Passing entries and no undeclared key make the object result. */
  lemma ObjectOfEntries(ks: seq<string>, ss: seq<Spec>, v: Value, m: Matcher, props: seq<Prop>)
    requires v.Obj? && ValidateEntries(ks, ss, v, m) == Ok(props) && Without(OwnKeys(v), ks) == []
    ensures ValidateObject(ks, ss, v, m) == Ok(Obj(props))
  {
  }

  lemma {:induction false} AbsentOptionalEntries(ks: seq<string>, inners: seq<Field>, m: Matcher)
    requires |ks| == |inners|
    ensures ValidateEntries(ks, OptionalSpecs(inners), Obj([]), m) == Ok(Zip(ks, Undefineds(|ks|)))
    decreases |ks|
  {
    if ks != [] {
      assert OptionalSpecs(inners)[1..] == OptionalSpecs(inners[1..]);
      assert Undefineds(|ks|)[1..] == Undefineds(|ks| - 1);
      assert ValidateSpec(OptionalSpecs(inners)[0], Get(Obj([]), ks[0]), m) == Ok(Undefined);
      AbsentOptionalEntries(ks[1..], inners[1..], m);
    }
  }

  function OptionalSpecs(inners: seq<Field>): (ss: seq<Spec>)
    ensures |ss| == |inners|
  {
    if inners == [] then [] else [SField(Optional(inners[0]))] + OptionalSpecs(inners[1..])
  }

  function Undefineds(n: nat): (vs: seq<Value>)
    ensures |vs| == n
  {
    if n == 0 then [] else [Undefined] + Undefineds(n - 1)
  }

  /** When every declared key passes, the per-key step returns each key with
      the value its spec returned. */
  lemma EntriesOfPassingKeys(ks: seq<string>, ss: seq<Spec>, v: Value, m: Matcher, vals: seq<Value>)
    requires |ss| == |ks| && |vals| == |ks|
    requires forall i :: 0 <= i < |ks| ==> ValidateSpec(ss[i], Get(v, ks[i]), m) == Ok(vals[i])
    ensures ValidateEntries(ks, ss, v, m) == Ok(Zip(ks, vals))
  {
    var r := ValidateEntries(ks, ss, v, m);
    assert r.Ok?;
    assert r.value == Zip(ks, vals);
  }

  /** Two declared keys that both pass give the two-entry result. */
  lemma TwoPassingKeys(k0: string, k1: string, ss: seq<Spec>, v: Value, m: Matcher, x0: Value, x1: Value)
    requires |ss| == 2
    requires ValidateSpec(ss[0], Get(v, k0), m) == Ok(x0) && ValidateSpec(ss[1], Get(v, k1), m) == Ok(x1)
    ensures ValidateEntries([k0, k1], ss, v, m) == Ok([Prop(k0, x0), Prop(k1, x1)])
  {
    var ks, xs := [k0, k1], [x0, x1];
    forall i | 0 <= i < 2
      ensures ValidateSpec(ss[i], Get(v, ks[i]), m) == Ok(xs[i])
    {
    }
    EntriesOfPassingKeys(ks, ss, v, m, xs);
    assert Zip(ks, xs) == [Prop(k0, x0), Prop(k1, x1)];
  }

  /** An object whose declared keys all pass and which has no other keys
      validates to the declared keys with their values. */
  lemma ObjectOfPassingKeys(ks: seq<string>, ss: seq<Spec>, v: Value, m: Matcher, vals: seq<Value>)
    requires |ss| == |ks| && |vals| == |ks| && AllFields(ss) && v.Obj?
    requires ValidateEntries(ks, ss, v, m) == Ok(Zip(ks, vals))
    requires forall k :: k in OwnKeys(v) ==> k in ks
    ensures ValidateSpec(SObj(ks, ss), v, m) == Ok(Obj(Zip(ks, vals)))
  {
    assert Without(OwnKeys(v), ks) == [];
  }

  /** An object whose declared keys all pass but which has other keys fails
      with exactly those keys. */
  lemma ObjectWithExtraKeys(ks: seq<string>, ss: seq<Spec>, v: Value, m: Matcher)
    requires AllFields(ss) && v.Obj? && ValidateEntries(ks, ss, v, m).Ok?
    requires Without(OwnKeys(v), ks) != []
    ensures ValidateSpec(SObj(ks, ss), v, m) == Fail(ExtraKeys(Without(OwnKeys(v), ks)))
  {
  }

  // ------------------------------------------------------------ fixed point

  /** Fields for which validation is a fixed point: object keys are distinct
      (as in any object literal) and the choice string variant, whose lookup
      can turn a missing key into `undefined`, is not used. */
  predicate WellFormed(f: Field)
    decreases f, 1
  {
    match f
    case ChoiceFieldWithRegExp(_) => false
    case ObjectField(ks, ss) => Distinct(ks) && forall i :: 0 <= i < |ss| ==> WellFormedSpec(ss[i])
    case ArrayField(item) => WellFormed(item)
    case Optional(inner) => WellFormed(inner)
    case WithDefault(inner, _) => WellFormed(inner)
    case WithDoc(inner, _) => WellFormed(inner)
    case _ => true
  }

  predicate WellFormedSpec(s: Spec)
    decreases s, 0
  {
    s.SUndef? || (s.SField? && WellFormed(s.field))
  }

  /** Object values keyed by distinct keys read back position by position. */
  lemma GetOfDistinctProps(props: seq<Prop>, ks: seq<string>, i: nat)
    requires |props| <= |ks| && Distinct(ks)
    requires forall j :: 0 <= j < |props| ==> props[j].key == ks[j]
    requires i < |props|
    ensures Get(Obj(props), ks[i]) == props[i].val
  {
  }

  /** A field that turns a defined input into `undefined` does so for every input. */
  lemma {:induction false} UndefinedResultIsConstant(f: Field, v: Value, w: Value, m: Matcher)
    requires WellFormed(f)
    requires v != Undefined && Validate(f, v, m) == Ok(Undefined)
    ensures Validate(f, w, m) == Ok(Undefined)
    decreases f
  {
    match f
    case Optional(inner) =>
      UndefinedResultIsConstant(inner, v, w, m);
    case WithDefault(inner, d) =>
      UndefinedResultIsConstant(inner, v, if w == Undefined then d else w, m);
    case WithDoc(inner, _) =>
      UndefinedResultIsConstant(inner, v, w, m);
    case _ =>
  }

  /** Validation is a fixed point: validating a validated value returns it unchanged. */
  lemma {:induction false} ValidateIdempotent(f: Field, v: Value, m: Matcher)
    requires WellFormed(f)
    requires Validate(f, v, m).Ok?
    ensures Validate(f, Validate(f, v, m).value, m) == Validate(f, v, m)
    decreases f, 2
  {
    var y := Validate(f, v, m).value;
    match f
    case ObjectField(ks, ss) =>
      ObjectValidationIdempotent(ks, ss, v, m);
    case ArrayField(item) =>
      ItemsValidationIdempotent(item, v.items, m);
    case Optional(inner) =>
      if v != Undefined && y != Undefined {
        ValidateIdempotent(inner, v, m);
      }
    case WithDefault(inner, d) =>
      var x := if v == Undefined then d else v;
      if y != Undefined {
        ValidateIdempotent(inner, x, m);
      } else if v != Undefined {
        UndefinedResultIsConstant(inner, v, d, m);
      }
    case WithDoc(inner, _) =>
      ValidateIdempotent(inner, v, m);
    case _ =>
  }

  lemma {:induction false} ObjectValidationIdempotent(ks: seq<string>, ss: seq<Spec>, v: Value, m: Matcher)
    requires WellFormed(ObjectField(ks, ss))
    requires ValidateObject(ks, ss, v, m).Ok?
    ensures ValidateObject(ks, ss, ValidateObject(ks, ss, v, m).value, m) == ValidateObject(ks, ss, v, m)
    decreases ObjectField(ks, ss), 1
  {
    var props := ValidateEntries(ks, ss, v, m).value;
    assert ValidateObject(ks, ss, v, m) == Ok(Obj(props));
    EntriesValidationIdempotent(ks, ss, v, m);
    ValidatedKeysAreDeclared(ks, ss, v, m);
  }

  lemma {:induction false} EntriesValidationIdempotent(ks: seq<string>, ss: seq<Spec>, v: Value, m: Matcher)
    requires WellFormed(ObjectField(ks, ss))
    requires ValidateEntries(ks, ss, v, m).Ok?
    ensures ValidateEntries(ks, ss, Obj(ValidateEntries(ks, ss, v, m).value), m) == ValidateEntries(ks, ss, v, m)
    decreases ObjectField(ks, ss), 0
  {
    var props := ValidateEntries(ks, ss, v, m).value;
    var y := Obj(props);
    forall i | 0 <= i < |props|
      ensures ValidateSpec(ss[i], Get(y, ks[i]), m) == Ok(props[i].val)
    {
      GetOfDistinctProps(props, ks, i);
      if ss[i].SField? {
        assert ss[i] in ss;
        ValidateIdempotent(ss[i].field, Get(v, ks[i]), m);
      }
    }
    var again := ValidateEntries(ks, ss, y, m);
    assert again.Ok?;
    assert again.value == props by {
      assert |again.value| == |props|;
      forall i | 0 <= i < |props| ensures again.value[i] == props[i] {
      }
    }
  }

  /** The validated object has no key beyond the declared ones. */
  lemma ValidatedKeysAreDeclared(ks: seq<string>, ss: seq<Spec>, v: Value, m: Matcher)
    requires ValidateEntries(ks, ss, v, m).Ok?
    ensures Without(OwnKeys(Obj(ValidateEntries(ks, ss, v, m).value)), ks) == []
  {
    var props := ValidateEntries(ks, ss, v, m).value;
    forall k | k in OwnKeys(Obj(props)) ensures k in ks {
      var j :| 0 <= j < |props| && Keys(props)[j] == k;
    }
  }

  lemma {:induction false} ItemsValidationIdempotent(item: Field, items: seq<Value>, m: Matcher)
    requires WellFormed(item)
    requires ValidateItems(item, items, 0, m).Ok?
    ensures ValidateItems(item, ValidateItems(item, items, 0, m).value, 0, m) == ValidateItems(item, items, 0, m)
    decreases ArrayField(item), 0
  {
    var ys := ValidateItems(item, items, 0, m).value;
    forall i | 0 <= i < |ys| ensures Validate(item, ys[i], m) == Ok(ys[i]) {
      ValidateIdempotent(item, items[i], m);
    }
    var again := ValidateItems(item, ys, 0, m);
    assert again.value == ys;
  }

  /** Fields whose serialize gives back the validated value itself: well
      formed and without the boolean string variant, whose serialize turns
      the boolean into text (see BooleanTextRoundTrip). */
  predicate SerializesToItself(f: Field)
    decreases f, 1
  {
    match f
    case BooleanText => false
    case ChoiceFieldWithRegExp(_) => true
    case ObjectField(ks, ss) => Distinct(ks) && forall i :: 0 <= i < |ss| ==> SerializesToItselfSpec(ss[i])
    case ArrayField(item) => SerializesToItself(item)
    case Optional(inner) => SerializesToItself(inner)
    case WithDefault(inner, _) => SerializesToItself(inner)
    case WithDoc(inner, _) => SerializesToItself(inner)
    case _ => true
  }

  predicate SerializesToItselfSpec(s: Spec)
    decreases s, 0
  {
    s.SUndef? || (s.SField? && SerializesToItself(s.field))
  }

  /** Serializing a validated value gives that value back. */
  lemma {:induction false} SerializeOfValidated(f: Field, v: Value, m: Matcher)
    requires SerializesToItself(f)
    requires Validate(f, v, m).Ok?
    ensures Serialize(f, Validate(f, v, m).value) == Validate(f, v, m)
    decreases f
  {
    var y := Validate(f, v, m).value;
    match f
    case ObjectField(ks, ss) =>
      var props := ValidateEntries(ks, ss, v, m).value;
      assert y == Obj(props);
      forall i | 0 <= i < |props|
        ensures SerializeSpec(ss[i], Get(y, ks[i])) == Ok(props[i].val)
      {
        GetOfDistinctProps(props, ks, i);
        if ss[i].SField? {
          SerializeOfValidated(ss[i].field, Get(v, ks[i]), m);
        }
      }
      SerializeEntriesOfObject(ks, ss, props);
    case ArrayField(item) =>
      var ys := ValidateItems(item, v.items, 0, m).value;
      forall i | 0 <= i < |ys| ensures Serialize(item, ys[i]) == Ok(ys[i]) {
        SerializeOfValidated(item, v.items[i], m);
      }
      SerializeItemsOfValues(item, ys, 0);
    case Optional(inner) =>
      if v != Undefined && y != Undefined {
        SerializeOfValidated(inner, v, m);
      }
    case WithDefault(inner, d) =>
      SerializeOfValidated(inner, if v == Undefined then d else v, m);
    case WithDoc(inner, _) =>
      SerializeOfValidated(inner, v, m);
    case _ =>
  }

  lemma {:induction false} SerializeEntriesOfObject(ks: seq<string>, ss: seq<Spec>, props: seq<Prop>)
    requires |props| == MinLen(ks, ss)
    requires forall i :: 0 <= i < |props| ==> props[i].key == ks[i]
    requires forall i :: 0 <= i < |props| ==> SerializeSpec(ss[i], Get(Obj(props), ks[i])) == Ok(props[i].val)
    ensures SerializeEntries(ks, ss, Obj(props)) == Ok(props)
  {
    var r := SerializeEntries(ks, ss, Obj(props));
    SerializeEntriesSucceed(ks, ss, Obj(props));
    assert r.value == props by {
      forall i | 0 <= i < |props| ensures r.value[i] == props[i] {
      }
    }
  }

  lemma {:induction false} SerializeEntriesSucceed(ks: seq<string>, ss: seq<Spec>, v: Value)
    requires v.Obj?
    requires forall i :: 0 <= i < MinLen(ks, ss) ==> SerializeSpec(ss[i], Get(v, ks[i])).Ok?
    ensures SerializeEntries(ks, ss, v).Ok?
    decreases ss
  {
    if ks != [] && ss != [] {
      assert SerializeSpec(ss[0], Get(v, ks[0])).Ok?;
      forall i | 0 <= i < MinLen(ks[1..], ss[1..])
        ensures SerializeSpec(ss[1..][i], Get(v, ks[1..][i])).Ok?
      {
        assert ss[1..][i] == ss[i + 1] && ks[1..][i] == ks[i + 1];
      }
      SerializeEntriesSucceed(ks[1..], ss[1..], v);
    }
  }

  lemma {:induction false} SerializeItemsOfValues(item: Field, ys: seq<Value>, offset: nat)
    requires forall i :: 0 <= i < |ys| ==> Serialize(item, ys[i]) == Ok(ys[i])
    ensures SerializeItems(item, ys, offset) == Ok(ys)
    decreases |ys|
  {
    if ys != [] {
      assert Serialize(item, ys[0]) == Ok(ys[0]);
      forall i | 0 <= i < |ys[1..]| ensures Serialize(item, ys[1..][i]) == Ok(ys[1..][i]) {
        assert ys[1..][i] == ys[i + 1];
      }
      SerializeItemsOfValues(item, ys[1..], offset + 1);
      assert [ys[0]] + ys[1..] == ys;
    }
  }
}
