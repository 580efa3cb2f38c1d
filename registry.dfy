/** The field-type registry of packages/validator/src/registry.ts: pairs of a
    field declaration's type tag and a function that provides a
    representation of such a field, checked for duplicate tags when the
    registry is created, and looked up by the `type` each field carries. */
module Registry {
  import opened Values
  import opened Specs

  /** The callback a representation function receives to ask for the
      representation of another field. */
  type Request<R> = Field -> Result<R>

  /** A representation function: the field, and the callback for recursion. */
  type Provide<!R> = (Field, Request<R>) -> Result<R>

  /** `[declaration, provideRepresentation]`; the declaration enters only with its `type`. */
  datatype FieldPair<!R> = FieldPair(tag: string, provide: Provide<R>)

  function Tags<R>(pairs: seq<FieldPair<R>>): (ts: seq<string>)
    ensures |ts| == |pairs|
    ensures forall i :: 0 <= i < |pairs| ==> ts[i] == pairs[i].tag
  {
    if pairs == [] then [] else [pairs[0].tag] + Tags(pairs[1..])
  }

  // ------------------------------------------------------------ duplicates

  /** The first tag, scanning in order, that was already seen earlier. */
  function FirstDuplicate(tags: seq<string>, seen: set<string>): (r: Option<string>)
    ensures r.Some? ==> r.value in tags
    ensures r.None? ==> forall i :: 0 <= i < |tags| ==> tags[i] !in seen
  {
    if tags == [] then None
    else if tags[0] in seen then Some(tags[0])
    else FirstDuplicate(tags[1..], seen + {tags[0]})
  }

  function DuplicateMessage(t: string): string {
    "Found duplicate of type declaration '" + t + "'"
  }

  /** No duplicate is found exactly when the tags are distinct. */
  lemma {:induction false} NoDuplicateIffDistinct(tags: seq<string>, seen: set<string>)
    ensures FirstDuplicate(tags, seen).None? <==> Distinct(tags) && forall i :: 0 <= i < |tags| ==> tags[i] !in seen
    decreases |tags|
  {
    if tags != [] {
      var rest := tags[1..];
      NoDuplicateIffDistinct(rest, seen + {tags[0]});
      assert forall i :: 0 <= i < |rest| ==> rest[i] == tags[i + 1];
      if tags[0] !in seen {
        assert Distinct(rest) && (forall i :: 0 <= i < |rest| ==> rest[i] !in seen + {tags[0]})
          <==> Distinct(tags) && forall i :: 0 <= i < |tags| ==> tags[i] !in seen;
      }
    }
  }

  /** `withNoDuplicates(pairs, pair => pair[0].type)`: a set of processed
      tags is grown in list order and the first repeated tag is reported. */
  method WithNoDuplicates<R>(pairs: seq<FieldPair<R>>) returns (r: Result<seq<FieldPair<R>>>)
    ensures FirstDuplicate(Tags(pairs), {}).Some? ==>
      r == Fail(Reason(DuplicateMessage(FirstDuplicate(Tags(pairs), {}).value)))
    ensures FirstDuplicate(Tags(pairs), {}).None? ==> r == Ok(pairs)
  {
    var processed: set<string> := {};
    var i := 0;
    while i < |pairs|
      invariant 0 <= i <= |pairs|
      invariant processed == set j | 0 <= j < i :: pairs[j].tag
      invariant FirstDuplicate(Tags(pairs), {}) == FirstDuplicate(Tags(pairs)[i..], processed)
    {
      assert Tags(pairs)[i..][0] == pairs[i].tag;
      assert Tags(pairs)[i..][1..] == Tags(pairs)[i + 1..];
      if pairs[i].tag in processed {
        return Fail(Reason(DuplicateMessage(pairs[i].tag)));
      }
      processed := processed + {pairs[i].tag};
      i := i + 1;
    }
    return Ok(pairs);
  }

  // ------------------------------------------------------------ lookup

  /** `Object.fromEntries` of the pairs: a later pair for the same tag wins. */
  function Mapping<R>(pairs: seq<FieldPair<R>>): (m: map<string, Provide<R>>)
    ensures forall t :: t in m <==> t in Tags(pairs)
  {
    if pairs == [] then map[]
    else
      var init := Mapping(pairs[..|pairs| - 1]);
      assert Tags(pairs) == Tags(pairs[..|pairs| - 1]) + [pairs[|pairs| - 1].tag];
      init[pairs[|pairs| - 1].tag := pairs[|pairs| - 1].provide]
  }

  /** With distinct tags, every pair's function is found under its own tag. */
  lemma {:induction false} MappingFindsEveryPair<R>(pairs: seq<FieldPair<R>>, i: nat)
    requires Distinct(Tags(pairs))
    requires i < |pairs|
    ensures pairs[i].tag in Mapping(pairs)
    ensures Mapping(pairs)[pairs[i].tag] == pairs[i].provide
    decreases |pairs|, 1
  {
    if i + 1 < |pairs| {
      MappingFindsEarlierPair(pairs, i);
    } else {
      MappingOfLastPair(pairs);
    }
  }

  lemma {:induction false} MappingFindsEarlierPair<R>(pairs: seq<FieldPair<R>>, i: nat)
    requires Distinct(Tags(pairs))
    requires i + 1 < |pairs|
    ensures pairs[i].tag in Mapping(pairs)
    ensures Mapping(pairs)[pairs[i].tag] == pairs[i].provide
    decreases |pairs|, 0
  {
    var n := |pairs| - 1;
    var init := pairs[..n];
    MappingOfLastPair(pairs);
    TagsOfPrefix(pairs);
    DistinctPrefix(Tags(pairs), n);
    DistinctTagsDiffer(pairs, i, n);
    assert init[i] == pairs[i];
    MappingFindsEveryPair(init, i);
    UpdateKeepsOtherKeys(Mapping(init), pairs[n].tag, pairs[n].provide, pairs[i].tag);
  }

  lemma UpdateKeepsOtherKeys<K, V>(m: map<K, V>, k: K, v: V, other: K)
    requires other != k && other in m
    ensures other in m[k := v] && m[k := v][other] == m[other]
  {
  }

  lemma MappingOfLastPair<R>(pairs: seq<FieldPair<R>>)
    requires pairs != []
    ensures Mapping(pairs) == Mapping(pairs[..|pairs| - 1])[pairs[|pairs| - 1].tag := pairs[|pairs| - 1].provide]
  {
  }

  lemma TagsOfPrefix<R>(pairs: seq<FieldPair<R>>)
    requires pairs != []
    ensures Tags(pairs[..|pairs| - 1]) == Tags(pairs)[..|pairs| - 1]
  {
  }

  lemma DistinctPrefix(tags: seq<string>, n: nat)
    requires Distinct(tags) && n <= |tags|
    ensures Distinct(tags[..n])
  {
  }

  /** Distinct tags belong to different pairs. */
  lemma DistinctTagsDiffer<R>(pairs: seq<FieldPair<R>>, i: nat, j: nat)
    requires Distinct(Tags(pairs)) && i < j < |pairs|
    ensures pairs[i].tag != pairs[j].tag
  {
    DistinctAt(Tags(pairs), i, j);
    TagsDiffer(pairs, i, j);
  }

  lemma TagsDiffer<R>(pairs: seq<FieldPair<R>>, i: nat, j: nat)
    requires i < |pairs| && j < |pairs| && Tags(pairs)[i] != Tags(pairs)[j]
    ensures pairs[i].tag != pairs[j].tag
  {
  }

  lemma DistinctAt(tags: seq<string>, i: nat, j: nat)
    requires Distinct(tags) && i < j < |tags|
    ensures tags[i] != tags[j]
  {
  }

  /** `getValue(mapping, type)`. */
  function GetValue<V>(mapping: map<string, V>, tag: Option<string>): (r: Result<V>)
    ensures (tag.None? || tag.value == "") ==> r == Fail(Reason("Fields without type are not supported"))
    ensures tag.Some? && tag.value != "" && tag.value !in mapping ==>
      r == Fail(Reason("Could not find field of type '" + tag.value + "'"))
    ensures tag.Some? && tag.value != "" && tag.value in mapping ==> r == Ok(mapping[tag.value])
  {
    if tag.None? || tag.value == "" then Fail(Reason("Fields without type are not supported"))
    else if tag.value !in mapping then Fail(Reason("Could not find field of type '" + tag.value + "'"))
    else Ok(mapping[tag.value])
  }

  /** `g` is a field held directly inside `f`. */
  predicate ChildOf(g: Field, f: Field) {
    match f
    case ArrayField(item) => g == item
    case Optional(inner) => g == inner
    case WithDefault(inner, _) => g == inner
    case WithDoc(inner, _) => g == inner
    case ObjectField(_, ss) => SField(g) in ss
    case _ => false
  }

  /** The callback handed to a representation function for `f`: the
      registry's own lookup, for the fields held inside `f`. */
  function RequestFor<R>(mapping: map<string, Provide<R>>, f: Field): (req: Request<R>)
    ensures forall g :: ChildOf(g, f) ==> req(g) == GetRepresentation(mapping, g)
    decreases f, 0
  {
    (g: Field) =>
      if ChildOf(g, f) then GetRepresentation(mapping, g)
      else Fail(Reason("Could not find field of type '" + "<not a sub-field>" + "'"))
  }

  /** `getRepresentation(field)`: look up the field's `type`, then call the
      registered function with the field and the lookup itself. */
  function GetRepresentation<R>(mapping: map<string, Provide<R>>, f: Field): (r: Result<R>)
    ensures TypeOf(f).None? ==> r == Fail(Reason("Fields without type are not supported"))
    ensures TypeOf(f).Some? && TypeOf(f).value !in mapping ==>
      r == Fail(Reason("Could not find field of type '" + TypeOf(f).value + "'"))
    ensures TypeOf(f).Some? && TypeOf(f).value in mapping ==>
      r == mapping[TypeOf(f).value](f, RequestFor(mapping, f))
    decreases f, 1
  {
    match GetValue(mapping, TypeOf(f))
    case Fail(e) => Fail(e)
    case Ok(provide) => provide(f, RequestFor(mapping, f))
  }

  /** `createRegistry(pairs)`: the duplicate check runs first, before any lookup exists. */
  function CreateRegistry<R>(pairs: seq<FieldPair<R>>): (r: Result<map<string, Provide<R>>>)
    ensures FirstDuplicate(Tags(pairs), {}).Some? ==>
      r == Fail(Reason(DuplicateMessage(FirstDuplicate(Tags(pairs), {}).value)))
    ensures FirstDuplicate(Tags(pairs), {}).None? ==> r == Ok(Mapping(pairs))
  {
    match FirstDuplicate(Tags(pairs), {})
    case Some(t) => Fail(Reason(DuplicateMessage(t)))
    case None => Ok(Mapping(pairs))
  }

  /** A registry created from distinct tags answers for a field of a
      registered kind with that kind's function, given the registry's own
      lookup for recursion. */
  lemma RegisteredKindIsRepresented<R>(pairs: seq<FieldPair<R>>, i: nat, f: Field)
    requires FirstDuplicate(Tags(pairs), {}).None?
    requires i < |pairs| && TypeOf(f) == Some(pairs[i].tag)
    ensures CreateRegistry(pairs).Ok?
    ensures var m := CreateRegistry(pairs).value;
      GetRepresentation(m, f) == pairs[i].provide(f, RequestFor(m, f))
  {
    NoDuplicateIffDistinct(Tags(pairs), {});
    MappingFindsEveryPair(pairs, i);
  }

  // ------------------------------------------------------------ example

  /** A representation that names a number field "number". */
  function NumberRepresentation(): (p: Provide<string>)
    ensures forall f, request :: p(f, request) == Ok("number")
  {
    (f: Field, request: Request<string>) => Ok("number")
  }

  /** Brackets what the registry says about an array field's item field. */
  function ArrayText(f: Field, request: Request<string>): Result<string> {
    if !f.ArrayField? then Fail(Reason("not an array field"))
    else
      match request(f.itemField)
      case Ok(s) => Ok("[" + s + "]")
      case Fail(e) => Fail(e)
  }

  function ArrayRepresentation(): (p: Provide<string>)
    ensures forall f, request :: p(f, request) == ArrayText(f, request)
  {
    (f: Field, request: Request<string>) => ArrayText(f, request)
  }

  /** Marks what the registry says about an optional field's inner field as optional. */
  function OptionalText(f: Field, request: Request<string>): Result<string> {
    if !f.Optional? then Fail(Reason("not an optional field"))
    else
      match request(f.innerField)
      case Ok(s) => Ok(s + "?")
      case Fail(e) => Fail(e)
  }

  function OptionalRepresentation(): (p: Provide<string>)
    ensures forall f, request :: p(f, request) == OptionalText(f, request)
  {
    (f: Field, request: Request<string>) => OptionalText(f, request)
  }

  function ExamplePairs(): seq<FieldPair<string>> {
    [FieldPair(NumberTag, NumberRepresentation()),
     FieldPair(ArrayTag, ArrayRepresentation()),
     FieldPair(OptionalTag, OptionalRepresentation())]
  }

  lemma ExampleTagsAreDistinct()
    ensures FirstDuplicate(Tags(ExamplePairs()), {}).None?
  {
    var ts := Tags(ExamplePairs());
    assert ts == [NumberTag, ArrayTag, OptionalTag];
    assert NumberTag != ArrayTag && NumberTag != OptionalTag && ArrayTag != OptionalTag;
    assert FirstDuplicate(ts[2..], {NumberTag, ArrayTag}) == None;
    assert FirstDuplicate(ts[1..], {NumberTag}) == None;
  }

  /** What the example registry maps each registered tag to. */
  lemma ExampleMapping()
    ensures CreateRegistry(ExamplePairs()).Ok?
    ensures IsExampleMapping(CreateRegistry(ExamplePairs()).value)
    ensures StringTag !in CreateRegistry(ExamplePairs()).value
  {
    var pairs := ExamplePairs();
    ExampleTagsAreDistinct();
    NoDuplicateIffDistinct(Tags(pairs), {});
    assert CreateRegistry(pairs) == Ok(Mapping(pairs));
    ExamplePairsAreMapped();
    StringTagIsNotExampleTag();
  }

  lemma StringTagIsNotExampleTag()
    ensures StringTag !in Tags(ExamplePairs())
  {
    assert Tags(ExamplePairs()) == [NumberTag, ArrayTag, OptionalTag];
    assert StringTag != NumberTag by {
      assert StringTag[18] != NumberTag[18];
    }
  }

  lemma ExamplePairsAreMapped()
    requires Distinct(Tags(ExamplePairs()))
    ensures IsExampleMapping(Mapping(ExamplePairs()))
  {
    var pairs := ExamplePairs();
    MappingFindsEveryPair(pairs, 0);
    MappingFindsEveryPair(pairs, 1);
    MappingFindsEveryPair(pairs, 2);
  }

  /** The map the example registry builds. */
  ghost predicate IsExampleMapping(m: map<string, Provide<string>>) {
    NumberTag in m && m[NumberTag] == NumberRepresentation() &&
    ArrayTag in m && m[ArrayTag] == ArrayRepresentation() &&
    OptionalTag in m && m[OptionalTag] == OptionalRepresentation()
  }

  lemma OptionalNumberRepresentation(m: map<string, Provide<string>>)
    requires IsExampleMapping(m)
    ensures GetRepresentation(m, Optional(NumberField(false))) == Ok("number?")
  {
    var num := NumberField(false);
    var opt := Optional(num);
    assert GetRepresentation(m, num) == Ok("number");
    assert RequestFor(m, opt)(num) == Ok("number");
    assert GetRepresentation(m, opt) == OptionalRepresentation()(opt, RequestFor(m, opt));
    assert "number" + "?" == "number?";
    assert OptionalText(opt, RequestFor(m, opt)) == Ok("number?");
  }

  lemma ArrayOfOptionalNumberRepresentation(m: map<string, Provide<string>>)
    requires IsExampleMapping(m)
    ensures GetRepresentation(m, ArrayField(Optional(NumberField(false)))) == Ok("[number?]")
  {
    var opt := Optional(NumberField(false));
    var arr := ArrayField(opt);
    OptionalNumberRepresentation(m);
    assert RequestFor(m, arr)(opt) == Ok("number?");
    assert GetRepresentation(m, arr) == ArrayRepresentation()(arr, RequestFor(m, arr));
    assert "[" + "number?" + "]" == "[number?]";
    assert ArrayText(arr, RequestFor(m, arr)) == Ok("[number?]");
  }

  /** The registry recurses through the field tree: an array of optional
      numbers is represented from the representations of its parts. */
  lemma RepresentationRecursesIntoSubFields()
    ensures CreateRegistry(ExamplePairs()).Ok?
    ensures GetRepresentation(CreateRegistry(ExamplePairs()).value, ArrayField(Optional(NumberField(false)))) ==
      Ok("[number?]")
  {
    ExampleMapping();
    ArrayOfOptionalNumberRepresentation(CreateRegistry(ExamplePairs()).value);
  }

  /** A field kind nobody registered is reported by its type. */
  lemma UnregisteredKindIsReported()
    ensures CreateRegistry(ExamplePairs()).Ok?
    ensures GetRepresentation(CreateRegistry(ExamplePairs()).value, ArrayField(StringField(None))) ==
      Fail(Reason("Could not find field of type '" + StringTag + "'"))
  {
    ExampleMapping();
    ArrayOfUnregisteredKind(CreateRegistry(ExamplePairs()).value);
  }

  lemma ArrayOfUnregisteredKind(m: map<string, Provide<string>>)
    requires IsExampleMapping(m) && StringTag !in m
    ensures GetRepresentation(m, ArrayField(StringField(None))) ==
      Fail(Reason("Could not find field of type '" + StringTag + "'"))
  {
    var str := StringField(None);
    var arr := ArrayField(str);
    assert GetRepresentation(m, str) == Fail(Reason("Could not find field of type '" + StringTag + "'"));
    assert RequestFor(m, arr)(str) == GetRepresentation(m, str);
    assert GetRepresentation(m, arr) == ArrayRepresentation()(arr, RequestFor(m, arr));
  }

  /** Registering a kind twice fails when the registry is created, naming
      the kind (here `optional`, whose type is a string). */
  lemma DuplicateKindIsRejected()
    ensures CreateRegistry(ExamplePairs() + [FieldPair(OptionalTag, OptionalRepresentation())]) ==
      Fail(Reason(DuplicateMessage(OptionalTag)))
  {
    var pairs := ExamplePairs() + [FieldPair(OptionalTag, OptionalRepresentation())];
    var ts := Tags(pairs);
    assert ts == [NumberTag, ArrayTag, OptionalTag, OptionalTag];
    assert NumberTag != ArrayTag && NumberTag != OptionalTag && ArrayTag != OptionalTag;
    assert FirstDuplicate([OptionalTag], {NumberTag, ArrayTag, OptionalTag}) == Some(OptionalTag);
    assert FirstDuplicate([OptionalTag, OptionalTag], {NumberTag, ArrayTag}) == Some(OptionalTag);
    assert FirstDuplicate([ArrayTag, OptionalTag, OptionalTag], {NumberTag}) == Some(OptionalTag);
    assert ts[1..] == [ArrayTag, OptionalTag, OptionalTag];
    assert {} + {NumberTag} == {NumberTag};
  }
}
