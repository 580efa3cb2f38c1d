/** The engine on the concrete inputs of the validator's own tests. */
module EngineExamples {
  import opened Values
  import opened Scalars
  import opened Decoration
  import opened Specs
  import opened Engine
  import opened EngineLaws

  /** `{str: stringField(), num: withDefault(numberField(), 42)}` */
  function InnerSchema(): Field {
    ObjectField(["str", "num"], [SField(StringField(None)), SField(WithDefault(NumberField(false), Num(42.0)))])
  }

  /** `objectField({bool: optional(booleanField()), fl: numberField({canBeFloat: false})})` */
  function ListItem(): Field {
    ObjectField(["bool", "fl"], [SField(Optional(BooleanField)), SField(NumberField(false))])
  }

  /** The nested schema of the engine's tests. */
  function Schema(): Spec {
    SObj(["innerSchema", "innerList"], [SField(InnerSchema()), SField(ArrayField(ListItem()))])
  }

  function SchemaInput(fl: Value): Value {
    Obj([Prop("innerSchema", Obj([Prop("str", Str("string")), Prop("num", Num(12.0))])),
         Prop("innerList", Arr([Obj([Prop("fl", fl)])]))])
  }

  /** The list element `{fl: 'Some random payload'}` fails at `fl`. */
  lemma ListItemErrorExample(m: Matcher)
    ensures Validate(ListItem(), Obj([Prop("fl", Str("Some random payload"))]), m) ==
      Fail(Path([KStr("fl")], Reason("Not a number")))
  {
    ListItemFailsAtFl(Str("Some random payload"), m);
  }

  /** Any list element whose `fl` is not a number fails at `fl`. */
  lemma ListItemFailsAtFl(fl: Value, m: Matcher)
    requires !(fl.Num? || fl.NaN?)
    ensures Validate(ListItem(), Obj([Prop("fl", fl)]), m) == Fail(Path([KStr("fl")], Reason("Not a number")))
  {
    var item := Obj([Prop("fl", fl)]);
    var ss := ListItem().specs;
    assert ValidateSpec(ss[0], Get(item, "bool"), m) == Ok(Undefined) by {
      assert Get(item, "bool") == Undefined;
    }
    assert ValidateSpec(ss[1], Get(item, "fl"), m) == Fail(Reason("Not a number")) by {
      assert Get(item, "fl") == fl;
    }
    EntriesFailAtFirstFailingKey(["bool", "fl"], ss, item, m, 1);
    ObjectFailsAtEntries(["bool", "fl"], ss, item, m);
  }

  /** `{str: 'string', num: 12}` passes the inner schema. */
  lemma InnerSchemaExample(m: Matcher)
    ensures Validate(InnerSchema(), Obj([Prop("str", Str("string")), Prop("num", Num(12.0))]), m).Ok?
  {
    var inner := Obj([Prop("str", Str("string")), Prop("num", Num(12.0))]);
    InnerSchemaEntries(m);
    assert Without(OwnKeys(inner), ["str", "num"]) == [] by {
      assert OwnKeys(inner) == ["str", "num"];
    }
    ObjectPassesWithEntries(["str", "num"], InnerSchema().specs, inner, m);
  }

  lemma InnerSchemaEntries(m: Matcher)
    ensures ValidateEntries(["str", "num"], InnerSchema().specs,
      Obj([Prop("str", Str("string")), Prop("num", Num(12.0))]), m).Ok?
  {
    var inner := Obj([Prop("str", Str("string")), Prop("num", Num(12.0))]);
    var ss := InnerSchema().specs;
    assert ValidateSpec(ss[0], Get(inner, "str"), m) == Ok(Str("string")) by {
      assert Get(inner, "str") == Str("string");
    }
    assert ValidateSpec(ss[1], Get(inner, "num"), m) == Ok(Num(12.0)) by {
      assert Get(inner, "num") == Num(12.0) && IsIntegral(12.0);
    }
    TwoPassingKeys("str", "num", ss, inner, m, Str("string"), Num(12.0));
  }

  /** A list element whose number is a string fails at `innerList`, index 0, `fl`. */
  lemma NestedErrorExample(m: Matcher)
    ensures ValidateSpec(Schema(), SchemaInput(Str("Some random payload")), m) ==
      Fail(Path([KStr("innerList"), KIdx(0), KStr("fl")], Reason("Not a number")))
  {
    SchemaFailsAtFl(Str("Some random payload"), m);
  }

  /** The nested schema fails at `innerList`, `0`, `fl` whenever `fl` is not a number. */
  lemma SchemaFailsAtFl(fl: Value, m: Matcher)
    requires !(fl.Num? || fl.NaN?)
    ensures ValidateSpec(Schema(), SchemaInput(fl), m) ==
      Fail(Path([KStr("innerList"), KIdx(0), KStr("fl")], Reason("Not a number")))
  {
    SchemaInputReads(fl);
    InnerSchemaExample(m);
    InnerListFailsAtFl(fl, m);
    SecondKeyFails("innerSchema", "innerList", Schema().specs, SchemaInput(fl), m);
  }

  /** The list holding such an element fails at index 0, then `fl`. */
  lemma InnerListFailsAtFl(fl: Value, m: Matcher)
    requires !(fl.Num? || fl.NaN?)
    ensures Validate(ArrayField(ListItem()), Arr([Obj([Prop("fl", fl)])]), m) ==
      Fail(Path([KIdx(0), KStr("fl")], Reason("Not a number")))
  {
    ListItemFailsAtFl(fl, m);
    ArrayFailsAtFirstFailingIndex(ListItem(), [Obj([Prop("fl", fl)])], m, 0);
  }

  lemma SchemaInputReads(fl: Value)
    ensures Get(SchemaInput(fl), "innerSchema") == Obj([Prop("str", Str("string")), Prop("num", Num(12.0))])
    ensures Get(SchemaInput(fl), "innerList") == Arr([Obj([Prop("fl", fl)])])
  {
    var v := SchemaInput(fl);
    GetReadsFirstProperty(v, "innerSchema", 0);
    assert "innerSchema"[5] != "innerList"[5];
    GetReadsFirstProperty(v, "innerList", 1);
  }

  /** Undeclared keys are reported together, in input order, once the declared key passes. */
  lemma ExtraKeysExample(m: Matcher)
    ensures ValidateSpec(SObj(["fieldOne"], [SField(StringField(None))]),
      Obj([Prop("fieldOne", Str("one")), Prop("fieldTwo", Str("two")), Prop("fieldThree", Str("three"))]), m)
      == Fail(ExtraKeys(["fieldTwo", "fieldThree"]))
  {
    var v := Obj([Prop("fieldOne", Str("one")), Prop("fieldTwo", Str("two")), Prop("fieldThree", Str("three"))]);
    var ss := [SField(StringField(None))];
    ExtraKeysEntries(m);
    ExtraKeysUndeclared();
    ObjectWithExtraKeys(["fieldOne"], ss, v, m);
  }

  lemma ExtraKeysUndeclared()
    ensures Without(OwnKeys(Obj([Prop("fieldOne", Str("one")), Prop("fieldTwo", Str("two")),
      Prop("fieldThree", Str("three"))])), ["fieldOne"]) == ["fieldTwo", "fieldThree"]
  {
    var ks := ["fieldOne", "fieldTwo", "fieldThree"];
    assert OwnKeys(Obj([Prop("fieldOne", Str("one")), Prop("fieldTwo", Str("two")),
      Prop("fieldThree", Str("three"))])) == ks;
    assert "fieldTwo"[5] != "fieldOne"[5];
    assert Without(ks[2..], ["fieldOne"]) == ["fieldThree"];
  }

  lemma ExtraKeysEntries(m: Matcher)
    ensures ValidateEntries(["fieldOne"], [SField(StringField(None))],
      Obj([Prop("fieldOne", Str("one")), Prop("fieldTwo", Str("two")), Prop("fieldThree", Str("three"))]), m).Ok?
  {
    var v := Obj([Prop("fieldOne", Str("one")), Prop("fieldTwo", Str("two")), Prop("fieldThree", Str("three"))]);
    assert Get(v, "fieldOne") == Str("one");
    assert ValidateSpec(SField(StringField(None)), Str("one"), m) == Ok(Str("one"));
  }

  /** `{field: arrayField(numberField())}` on `{field: [1, 2, false]}` fails at `field`, index 2. */
  lemma ArrayIndexErrorExample(m: Matcher)
    ensures ValidateSpec(SObj(["field"], [SField(ArrayField(NumberField(false)))]),
      Obj([Prop("field", Arr([Num(1.0), Num(2.0), Bool(false)]))]), m)
      == Fail(Path([KStr("field"), KIdx(2)], Reason("Not a number")))
  {
    var v := Obj([Prop("field", Arr([Num(1.0), Num(2.0), Bool(false)]))]);
    assert IsIntegral(1.0) && IsIntegral(2.0);
    ArrayFailsAtFirstFailingIndex(NumberField(false), [Num(1.0), Num(2.0), Bool(false)], m, 2);
    assert Get(v, "field") == Arr([Num(1.0), Num(2.0), Bool(false)]);
    EntriesFailAtFirstFailingKey(["field"], [SField(ArrayField(NumberField(false)))], v, m, 0);
  }

  /** A non-array under `field` fails at `field` with the bare reason. */
  lemma NotAnArrayExample(m: Matcher)
    ensures ValidateSpec(SObj(["field"], [SField(ArrayField(NumberField(false)))]),
      Obj([Prop("field", Num(11.0))]), m)
      == Fail(Path([KStr("field")], Reason("Not an array")))
  {
    var v := Obj([Prop("field", Num(11.0))]);
    assert Get(v, "field") == Num(11.0);
    EntriesFailAtFirstFailingKey(["field"], [SField(ArrayField(NumberField(false)))], v, m, 0);
  }

  /** An array spec of two fields is an object spec keyed by indices: the
      result is an object with keys "0" and "1", not an array. */
  lemma TupleExample(m: Matcher)
    ensures ValidateSpec(SArr([SField(NumberField(false)), SField(StringField(None))]),
      Arr([Num(14.0), Str("Val")]), m)
      == Ok(Obj([Prop("0", Num(14.0)), Prop("1", Str("Val"))]))
  {
    var ss := [SField(NumberField(false)), SField(StringField(None))];
    TupleKeys();
    TupleEntries(m);
    assert !IsArraySpec(SArr(ss)) && AllFields(ss);
  }

  lemma TupleKeys()
    ensures IndexKeys(2) == ["0", "1"]
    ensures Without(OwnKeys(Arr([Num(14.0), Str("Val")])), ["0", "1"]) == []
  {
    assert NatToString(0) == "0" && NatToString(1) == "1";
    assert IndexKeys(2) == ["0", "1"];
  }

  lemma TupleEntries(m: Matcher)
    ensures ValidateEntries(["0", "1"], [SField(NumberField(false)), SField(StringField(None))],
      Arr([Num(14.0), Str("Val")]), m) == Ok([Prop("0", Num(14.0)), Prop("1", Str("Val"))])
  {
    var v := Arr([Num(14.0), Str("Val")]);
    var ss := [SField(NumberField(false)), SField(StringField(None))];
    assert NatToString(0) == "0" && NatToString(1) == "1";
    assert ValidateSpec(ss[0], Get(v, "0"), m) == Ok(Num(14.0)) by {
      assert Get(v, "0") == Num(14.0) && IsIntegral(14.0);
    }
    assert ValidateSpec(ss[1], Get(v, "1"), m) == Ok(Str("Val")) by {
      assert FindIndex("1", 2, 1) == 1;
      assert FindIndex("1", 2, 0) == 1;
    }
    TwoPassingKeys("0", "1", ss, v, m, Num(14.0), Str("Val"));
  }
}
