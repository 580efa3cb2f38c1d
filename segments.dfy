/** The segment chain of packages/validator/src/segmentChain.ts and
    packages/validator/src/fields/segmentField.ts: a linked list of segments,
    each a literal piece of a path or a named, typed parameter, from which a
    regular expression is built, matched against a path and turned back
    into a path. */
module Segments {
  import opened Values
  import opened Scalars
  import opened Decoration
  import opened Specs
  import opened Engine
  import opened EngineLaws

  /** `value.match(pattern)`: None when the pattern does not match; otherwise
      the text captured by each named group, in the order the groups appear.
      Regular-expression matching itself is outside the model. */
  type Search = (string, string) -> Option<seq<string>>

  /** One segment as data: its key (the root's is absent, read as "") and the
      string-input variant of its field, if it has one. */
  datatype Link = Link(key: string, field: Option<Field>)

  /** A field a segment can be built with: it has a string-input variant, and
      that variant's pattern is known to the model. */
  predicate Segmentable(f: Field) {
    SupportsStringInput(f) && RegexSource(WithRegExp(f).value).Some?
  }

  predicate HasSource(l: Link) {
    l.field.Some? ==> RegexSource(l.field.value).Some?
  }

  predicate WellLinked(links: seq<Link>) {
    forall i :: 0 <= i < |links| ==> HasSource(links[i])
  }

  /** `segment.field && segment.key`: the segment is a named group. */
  predicate Named(l: Link) {
    l.field.Some? && l.key != ""
  }

  /** A segment's part of the pattern: a named group around its field's
      pattern, or its key as a literal. */
  function Piece(l: Link): (p: string)
    requires HasSource(l)
    ensures !Named(l) ==> p == l.key
  {
    if Named(l) then "(?<" + l.key + ">" + RegexSource(l.field.value).value + ")" else l.key
  }

  function Body(links: seq<Link>): string
    requires WellLinked(links)
  {
    if links == [] then ""
    else Body(links[..|links| - 1]) + Piece(links[|links| - 1])
  }

  /** `getRegex()`: the pieces joined and anchored at both ends. */
  function Pattern(links: seq<Link>): (p: string)
    requires WellLinked(links)
    ensures |p| >= 2 && p[0] == '^' && p[|p| - 1] == '$'
  {
    "^" + Body(links) + "$"
  }

  /** The names of the named groups, in chain order. */
  function GroupNames(links: seq<Link>): (names: seq<string>)
    ensures |names| <= |links|
    ensures forall i :: 0 <= i < |names| ==> names[i] != ""
  {
    if links == [] then []
    else GroupNames(links[..|links| - 1]) + (if Named(links[|links| - 1]) then [links[|links| - 1].key] else [])
  }

  /** The fields of the named groups, alongside GroupNames. */
  function GroupFields(links: seq<Link>): (fs: seq<Field>)
    ensures |fs| == |GroupNames(links)|
  {
    if links == [] then []
    else
      var l := links[|links| - 1];
      GroupFields(links[..|links| - 1]) + (if Named(l) then [l.field.value] else [])
  }

  /** `getFieldSegments()`: the keys of the segments that hold a field. */
  function FieldKeys(links: seq<Link>): (ks: seq<string>) {
    if links == [] then []
    else
      var l := links[|links| - 1];
      FieldKeys(links[..|links| - 1]) + (if l.field.Some? then [l.key] else [])
  }

  /** The specs of the segments that hold a field, alongside FieldKeys. */
  function FieldSpecs(links: seq<Link>): (ss: seq<Spec>)
    ensures |ss| == |FieldKeys(links)|
    ensures forall i :: 0 <= i < |ss| ==> ss[i].SField?
  {
    if links == [] then []
    else
      var l := links[|links| - 1];
      FieldSpecs(links[..|links| - 1]) + (if l.field.Some? then [SField(l.field.value)] else [])
  }

  /** `Object.fromEntries(segments.map(segment => [segment.key, segment.field]))`. */
  function ParamSpec(links: seq<Link>): (s: Spec)
    ensures s.SObj? && |s.keys| == |s.specs|
  {
    var e := FromEntries(FieldKeys(links), FieldSpecs(links));
    SObj(e.0, e.1)
  }

  /** The `groups` object of a match: each group name with its captured text. */
  function Captured(names: seq<string>, caps: seq<string>): (props: seq<Prop>)
    ensures |props| == |names|
    ensures forall i :: 0 <= i < |names| ==>
      props[i] == Prop(names[i], if i < |caps| then Str(caps[i]) else Undefined)
  {
    if names == [] then []
    else
      var rest := Captured(names[1..], if caps == [] then [] else caps[1..]);
      [Prop(names[0], if caps == [] then Undefined else Str(caps[0]))] + rest
  }

  /** Building a pattern with two groups of the same name is a syntax error. */
  const DuplicateGroup := Crash("Invalid regular expression: Duplicate capture group name")

  /** `validate(value)` as written: a match without named groups has no
      `groups`, and is reported like no match at all. */
  function ChainValidateAsWritten(links: seq<Link>, value: string, search: Search, m: Matcher): (r: Result<Value>)
    requires WellLinked(links)
    ensures !Distinct(GroupNames(links)) ==> r == Fail(DuplicateGroup)
    ensures Distinct(GroupNames(links)) && search(Pattern(links), value).None? ==> r == Fail(Reason("Didn't match"))
    ensures GroupNames(links) == [] ==> r == Fail(Reason("Didn't match"))
  {
    var names := GroupNames(links);
    if !Distinct(names) then Fail(DuplicateGroup)
    else
      match search(Pattern(links), value)
      case None => Fail(Reason("Didn't match"))
      case Some(caps) =>
        if names == [] then Fail(Reason("Didn't match"))
        else ValidateSpec(ParamSpec(links), Obj(Captured(names, caps)), m)
  }

  /** `validate(value)` as evidently intended: a match is validated against
      the parameter spec, with no parameters when there are no named groups. */
  function ChainValidate(links: seq<Link>, value: string, search: Search, m: Matcher): (r: Result<Value>)
    requires WellLinked(links)
    ensures !Distinct(GroupNames(links)) ==> r == Fail(DuplicateGroup)
    ensures Distinct(GroupNames(links)) && search(Pattern(links), value).None? ==> r == Fail(Reason("Didn't match"))
  {
    var names := GroupNames(links);
    if !Distinct(names) then Fail(DuplicateGroup)
    else
      match search(Pattern(links), value)
      case None => Fail(Reason("Didn't match"))
      case Some(caps) => ValidateSpec(ParamSpec(links), Obj(Captured(names, caps)), m)
  }

  /** One segment of `serialize` as written: a named group calls
      `field.asString`, which none of the string-input variants defines. */
  function LinkTextAsWritten(l: Link, x: Value): (r: Result<string>)
    ensures !Named(l) ==> r == Ok(l.key)
    ensures Named(l) ==> r.Fail? && r.error.Crash?
  {
    if Named(l) then
      match ReadProp(x, l.key)
      case Fail(e) => Fail(e)
      case Ok(_) => Fail(Crash("asString is not a function"))
    else Ok(l.key)
  }

  /** One segment of `serialize` as evidently intended: a named group writes
      the text of the parameter's value, a literal writes its key. */
  function LinkText(l: Link, x: Value): (r: Result<string>)
    ensures !Named(l) ==> r == Ok(l.key)
    ensures Named(l) && IsObjectLike(x) && ToText(Get(x, l.key)).Some? ==> r == Ok(ToText(Get(x, l.key)).value)
  {
    if Named(l) then
      match ReadProp(x, l.key)
      case Fail(e) => Fail(e)
      case Ok(v) =>
        match ToText(v)
        case Some(t) => Ok(t)
        case None => Fail(Crash("Cannot convert the value to a string"))
    else Ok(l.key)
  }

  /** `serialize(deserialized)` as written: segment texts joined in chain order. */
  function SerializeLinksAsWritten(links: seq<Link>, x: Value): (r: Result<string>)
    ensures r.Ok? <==> forall i :: 0 <= i < |links| ==> !Named(links[i])
  {
    if links == [] then Ok("")
    else
      assert forall i :: 0 <= i < |links| - 1 ==> links[..|links| - 1][i] == links[i];
      match SerializeLinksAsWritten(links[..|links| - 1], x)
      case Fail(e) => Fail(e)
      case Ok(s) =>
        match LinkTextAsWritten(links[|links| - 1], x)
        case Fail(e) => Fail(e)
        case Ok(t) => Ok(s + t)
  }

  /** `serialize(deserialized)` as evidently intended. */
  function SerializeLinks(links: seq<Link>, x: Value): (r: Result<string>)
    ensures r.Ok? <==> forall i :: 0 <= i < |links| ==> LinkText(links[i], x).Ok?
  {
    if links == [] then Ok("")
    else
      assert forall i :: 0 <= i < |links| - 1 ==> links[..|links| - 1][i] == links[i];
      match SerializeLinks(links[..|links| - 1], x)
      case Fail(e) => Fail(e)
      case Ok(s) =>
        match LinkText(links[|links| - 1], x)
        case Fail(e) => Fail(e)
        case Ok(t) => Ok(s + t)
  }

  // ------------------------------------------------------------ literal chains

  /** A chain of literal segments only has no groups and no parameter entries. */
  lemma {:induction false} LiteralChainHasNoParams(links: seq<Link>)
    requires forall i :: 0 <= i < |links| ==> links[i].field.None?
    ensures GroupNames(links) == [] && FieldKeys(links) == [] && FieldSpecs(links) == []
  {
    if links != [] {
      LiteralChainHasNoParams(links[..|links| - 1]);
    }
  }

  /** As written, a chain without named groups rejects every path, even one
      its pattern matches. */
  lemma AsWrittenLiteralChainNeverMatches(links: seq<Link>, value: string, search: Search, m: Matcher)
    requires WellLinked(links)
    requires GroupNames(links) == []
    ensures ChainValidateAsWritten(links, value, search, m) == Fail(Reason("Didn't match"))
  {
  }

  /** Once a chain has a named group, the as-written validation is the intended one. */
  lemma AsWrittenAgreesWithNamedGroups(links: seq<Link>, value: string, search: Search, m: Matcher)
    requires WellLinked(links)
    requires GroupNames(links) != []
    ensures ChainValidateAsWritten(links, value, search, m) == ChainValidate(links, value, search, m)
  {
  }

  /** As intended, a chain of literal segments accepts every path its pattern
      matches, with no parameters. */
  lemma LiteralChainMatchesWithoutParams(links: seq<Link>, value: string, search: Search, m: Matcher)
    requires forall i :: 0 <= i < |links| ==> links[i].field.None?
    requires search(Pattern(links), value).Some?
    ensures ChainValidate(links, value, search, m) == Ok(Obj([]))
  {
    LiteralChainHasNoParams(links);
    assert ParamSpec(links) == SObj([], []);
    assert Captured([], search(Pattern(links), value).value) == [];
    EmptySpecAcceptsEmptyObject(m);
  }

  /** The parameter spec of a chain without named groups accepts the empty object. */
  lemma EmptySpecAcceptsEmptyObject(m: Matcher)
    ensures ValidateSpec(SObj([], []), Obj([]), m) == Ok(Obj([]))
  {
    assert ValidateEntries([], [], Obj([]), m) == Ok([]);
    assert Without(OwnKeys(Obj([])), []) == [];
  }

  /** A chain of literal segments serializes to its own pattern without the anchors. */
  lemma {:induction false} LiteralChainSerializesToItsBody(links: seq<Link>, x: Value)
    requires WellLinked(links)
    requires forall i :: 0 <= i < |links| ==> !Named(links[i])
    ensures SerializeLinks(links, x) == Ok(Body(links))
    ensures SerializeLinksAsWritten(links, x) == Ok(Body(links))
  {
    if links != [] {
      LiteralChainSerializesToItsBody(links[..|links| - 1], x);
    }
  }

  /** Whenever the as-written serialize succeeds, the intended one gives the
      same text: the two differ only on named segments. */
  lemma {:induction false} AsWrittenSerializeAgrees(links: seq<Link>, x: Value)
    ensures SerializeLinksAsWritten(links, x).Ok? ==> SerializeLinks(links, x) == SerializeLinksAsWritten(links, x)
  {
    if links != [] {
      AsWrittenSerializeAgrees(links[..|links| - 1], x);
    }
  }

  /** As written, serializing a chain that has a named group always fails. */
  lemma {:induction false} AsWrittenSerializeFailsWithParams(links: seq<Link>, x: Value, i: nat)
    requires i < |links| && Named(links[i])
    ensures SerializeLinksAsWritten(links, x).Fail?
    decreases |links|
  {
    var n := |links| - 1;
    if i < n {
      assert links[..n][i] == links[i];
      AsWrittenSerializeFailsWithParams(links[..n], x, i);
    }
  }

  // ------------------------------------------------------------ round trip

  /** What a string-input variant needs of a value to read the value's own
      text back as that value. A choice must be the only choice with its text,
      since the variant looks a text up as the last choice stored under it,
      and the choice set must have no `null` or `undefined`, for which no
      variant can be built. */
  predicate ReadsBack(f: Field, v: Value, m: Matcher) {
    ToText(v).Some? &&
    match f
    case StringField(re) => v.Str? && (re.None? || m("^" + re.value + "$", v.s))
    case NumberFieldWithRegExp(_) => v.Num? && IsIntegral(v.n)
    case BooleanText => v.Bool?
    case ChoiceFieldWithRegExp(cs) =>
      v in cs && !HasNullishChoice(cs) && forall c :: c in cs && MapsTo(c, Str(ToText(v).value)) ==> c == v
    case _ => false
  }

  /** A string-input variant reads back the text of any value it accepts. */
  lemma VariantReadsBackItsText(f: Field, v: Value, m: Matcher)
    requires ReadsBack(f, v, m)
    ensures Validate(f, Str(ToText(v).value), m) == Ok(v)
  {
    var t := ToText(v).value;
    match f
    case NumberFieldWithRegExp(_) =>
      ParseFloatOfIntText(v.n.Floor);
    case ChoiceFieldWithRegExp(cs) =>
      LookupChoiceMapsTo(cs, Str(t), v);
    case _ =>
  }

  /** The texts of the named parameters of `x`. */
  function TextsOf(names: seq<string>, x: Value): (ts: seq<string>)
    requires forall i :: 0 <= i < |names| ==> ToText(Get(x, names[i])).Some?
    ensures |ts| == |names|
    ensures forall i :: 0 <= i < |names| ==> ts[i] == ToText(Get(x, names[i])).value
  {
    seq(|names|, i requires 0 <= i < |names| => ToText(Get(x, names[i])).value)
  }

  /** The values of the named parameters of `x`. */
  function ValuesOf(names: seq<string>, x: Value): (vs: seq<Value>)
    ensures |vs| == |names|
    ensures forall i :: 0 <= i < |names| ==> vs[i] == Get(x, names[i])
  {
    seq(|names|, i requires 0 <= i < |names| => Get(x, names[i]))
  }

  /** Each field as a spec. */
  function SpecsOf(fs: seq<Field>): (ss: seq<Spec>)
    ensures |ss| == |fs|
    ensures forall i :: 0 <= i < |fs| ==> ss[i] == SField(fs[i])
  {
    seq(|fs|, i requires 0 <= i < |fs| => SField(fs[i]))
  }

  /** When every segment that holds a field is named, the parameter entries
      are exactly the named groups. */
  lemma {:induction false} NamedFieldEntries(links: seq<Link>)
    requires forall i :: 0 <= i < |links| && links[i].field.Some? ==> links[i].key != ""
    ensures FieldKeys(links) == GroupNames(links)
    ensures FieldSpecs(links) == SpecsOf(GroupFields(links))
  {
    if links != [] {
      NamedFieldEntries(links[..|links| - 1]);
    }
  }

  /** Each captured text, read from the groups object, validates to the
      value it was written from. */
  lemma CapturedTextsReadBack(names: seq<string>, fs: seq<Field>, x: Value, m: Matcher, i: nat)
    requires |fs| == |names| && Distinct(names) && i < |names|
    requires forall j :: 0 <= j < |names| ==> ToText(Get(x, names[j])).Some?
    requires ReadsBack(fs[i], Get(x, names[i]), m)
    ensures Validate(fs[i], Get(Obj(Captured(names, TextsOf(names, x))), names[i]), m) == Ok(Get(x, names[i]))
  {
    var props := Captured(names, TextsOf(names, x));
    var y := Get(x, names[i]);
    assert Get(Obj(props), names[i]) == Str(ToText(y).value) by {
      GetOfDistinctProps(props, names, i);
    }
    VariantReadsBackItsText(fs[i], y, m);
  }

  /** The per-key step over the groups object succeeds with the written values. */
  lemma CapturedEntriesReadBack(names: seq<string>, fs: seq<Field>, x: Value, m: Matcher)
    requires |fs| == |names| && Distinct(names)
    requires forall i :: 0 <= i < |names| ==> ToText(Get(x, names[i])).Some?
    requires forall i :: 0 <= i < |names| ==> ReadsBack(fs[i], Get(x, names[i]), m)
    ensures ValidateEntries(names, SpecsOf(fs), Obj(Captured(names, TextsOf(names, x))), m) ==
      Ok(Zip(names, ValuesOf(names, x)))
  {
    var specs := SpecsOf(fs);
    var groups := Obj(Captured(names, TextsOf(names, x)));
    var vals := ValuesOf(names, x);
    forall i | 0 <= i < |names|
      ensures ValidateSpec(specs[i], Get(groups, names[i]), m) == Ok(vals[i])
    {
      CapturedTextsReadBack(names, fs, x, m, i);
      assert specs[i] == SField(fs[i]) && vals[i] == Get(x, names[i]);
    }
    EntriesOfPassingKeys(names, specs, groups, m, vals);
  }

  /** The groups object of the captured texts validates, field by field, to
      the values the texts were written from. */
  lemma GroupsReadBack(names: seq<string>, fs: seq<Field>, x: Value, m: Matcher)
    requires |fs| == |names| && Distinct(names)
    requires forall i :: 0 <= i < |names| ==> ToText(Get(x, names[i])).Some?
    requires forall i :: 0 <= i < |names| ==> ReadsBack(fs[i], Get(x, names[i]), m)
    ensures ValidateSpec(SObj(names, SpecsOf(fs)), Obj(Captured(names, TextsOf(names, x))), m) ==
      Ok(Obj(Zip(names, ValuesOf(names, x))))
  {
    CapturedEntriesReadBack(names, fs, x, m);
    CapturedObject(names, SpecsOf(fs), TextsOf(names, x), m, ValuesOf(names, x));
  }

  /** The groups object validates to the per-key results once every group passes. */
  lemma CapturedObject(names: seq<string>, ss: seq<Spec>, caps: seq<string>, m: Matcher, vals: seq<Value>)
    requires |ss| == |names| && |vals| == |names| && AllFields(ss)
    requires ValidateEntries(names, ss, Obj(Captured(names, caps)), m) == Ok(Zip(names, vals))
    ensures ValidateSpec(SObj(names, ss), Obj(Captured(names, caps)), m) == Ok(Obj(Zip(names, vals)))
  {
    KeysOfCaptured(names, caps);
    ObjectOfPassingKeys(names, ss, Obj(Captured(names, caps)), m, vals);
  }

  /** The groups object has exactly the group names as keys. */
  lemma KeysOfCaptured(names: seq<string>, caps: seq<string>)
    ensures OwnKeys(Obj(Captured(names, caps))) == names
  {
    var props := Captured(names, caps);
    assert forall i :: 0 <= i < |names| ==> Keys(props)[i] == names[i];
  }

  /** Serializing a parameter object and matching the result back gives the
      parameters back: if the match captures, for each named group, the text
      serialize wrote for it, validation returns each group's value under
      its name. */
  lemma ChainReadsBackWhatItWrites(links: seq<Link>, x: Value, search: Search, m: Matcher)
    requires WellLinked(links)
    requires forall i :: 0 <= i < |links| && links[i].field.Some? ==> links[i].key != ""
    requires Distinct(GroupNames(links))
    requires forall i :: 0 <= i < |GroupNames(links)| ==> ToText(Get(x, GroupNames(links)[i])).Some?
    requires forall i :: 0 <= i < |GroupNames(links)| ==>
      ReadsBack(GroupFields(links)[i], Get(x, GroupNames(links)[i]), m)
    requires SerializeLinks(links, x).Ok?
    requires search(Pattern(links), SerializeLinks(links, x).value) == Some(TextsOf(GroupNames(links), x))
    ensures ChainValidate(links, SerializeLinks(links, x).value, search, m) ==
      Ok(Obj(Zip(GroupNames(links), ValuesOf(GroupNames(links), x))))
  {
    var names := GroupNames(links);
    var specs := FieldSpecs(links);
    NamedFieldEntries(links);
    assert FromEntries(names, specs) == (names, specs);
    assert ParamSpec(links) == SObj(names, SpecsOf(GroupFields(links)));
    GroupsReadBack(names, GroupFields(links), x, m);
  }

  // ------------------------------------------------------------ the chain object

  /** The links of a run of segments, in the same order. */
  function LinksOf(segs: seq<Segment>): (links: seq<Link>)
    ensures |links| == |segs|
    ensures forall i :: 0 <= i < |segs| ==> links[i] == Link(segs[i].key, segs[i].field)
  {
    seq(|segs|, i requires 0 <= i < |segs| => Link(segs[i].key, segs[i].field))
  }

  /** `Array.prototype.reverse` on the collected segments. */
  function Reversed<T>(s: seq<T>): (r: seq<T>)
    ensures |r| == |s|
    ensures forall i :: 0 <= i < |s| ==> r[i] == s[|s| - 1 - i]
  {
    if s == [] then [] else Reversed(s[1..]) + [s[0]]
  }

  /** A segment of a chain: a link to its parent, its key and the
      string-input variant of its field never change; the pattern is built
      on first use and remembered. */
  class Segment {
    const parent: Segment?
    const key: string
    const field: Option<Field>
    ghost const depth: nat
    var regex: Option<string>

    /** The parent links end at a root, and every field has a pattern. */
    ghost predicate Valid()
      decreases depth
    {
      HasSource(Link(key, field)) &&
      (parent == null ==> depth == 0) &&
      (parent != null ==> parent.depth < depth && parent.Valid())
    }

    /** The segments from the root down to this one. */
    ghost function Ancestry(): (segs: seq<Segment>)
      requires Valid()
      ensures |segs| >= 1 && segs[|segs| - 1] == this
      ensures forall i :: 0 <= i < |segs| ==> segs[i].Valid()
      decreases depth
    {
      if parent == null then [this] else parent.Ancestry() + [this]
    }

    /** The chain as data, root first. */
    ghost function Chain(): (links: seq<Link>)
      requires Valid()
      ensures WellLinked(links)
    {
      LinksOf(Ancestry())
    }

    /** The remembered pattern, if any, is this chain's pattern. */
    ghost predicate MemoOk()
      requires Valid()
      reads this
    {
      regex.Some? ==> regex.value == Pattern(Chain())
    }

    /** `new Segment(parent, key, field)`: the field is replaced by its
        string-input variant; the root has no key, read as "". */
    constructor (parent: Segment?, key: string, field: Option<Field>)
      requires parent != null ==> parent.Valid()
      requires field.Some? ==> Segmentable(field.value)
      ensures Valid() && MemoOk()
      ensures this.parent == parent && this.key == key
      ensures this.field == (if field.Some? then WithRegExp(field.value) else None)
      ensures regex == None
      ensures Chain() == (if parent == null then [] else parent.Chain()) + [Link(key, this.field)]
    {
      this.parent := parent;
      this.key := key;
      this.field := if field.Some? then WithRegExp(field.value) else None;
      this.depth := if parent == null then 0 else parent.depth + 1;
      this.regex := None;
      new;
      if parent != null {
        assert Ancestry() == parent.Ancestry() + [this];
        assert LinksOf(parent.Ancestry() + [this]) == LinksOf(parent.Ancestry()) + [Link(key, this.field)];
      }
    }

    /** `_(key, field)`: a new segment below this one. */
    method Extend(key: string, field: Option<Field>) returns (s: Segment)
      requires Valid()
      requires field.Some? ==> Segmentable(field.value)
      ensures fresh(s) && s.Valid() && s.MemoOk() && s.parent == this
      ensures s.Chain() == Chain() + [Link(key, if field.Some? then WithRegExp(field.value) else None)]
    {
      s := new Segment(this, key, field);
    }

    /** `getSegments()`: walk the parent links up to the root, then reverse. */
    method GetSegments() returns (segs: seq<Segment>)
      requires Valid()
      ensures segs == Ancestry()
    {
      var collected: seq<Segment> := [];
      var cursor: Segment? := this;
      while cursor != null
        invariant cursor != null ==> cursor.Valid()
        invariant (if cursor == null then [] else cursor.Ancestry()) + Reversed(collected) == Ancestry()
        decreases if cursor == null then 0 else cursor.depth + 1
      {
        AncestryStep(cursor, collected);
        collected := collected + [cursor];
        cursor := cursor.parent;
      }
      segs := Reversed(collected);
    }

    /** `getRegex()` (and `toString()`): the anchored pattern of the chain,
        built once and then remembered. */
    method GetRegex() returns (r: string)
      requires Valid() && MemoOk()
      modifies this
      ensures r == Pattern(Chain())
      ensures regex == Some(r)
    {
      if regex.None? || regex.value == "" {
        var segs := GetSegments();
        regex := Some("^" + Body(LinksOf(segs)) + "$");
      }
      r := regex.value;
    }

    /** `validate(value)`: match the path, then validate the groups against
        the parameter spec of the segments that hold a field. */
    method Validate(value: string, search: Search, m: Matcher) returns (r: Result<Value>)
      requires Valid() && MemoOk()
      modifies this
      ensures regex == Some(Pattern(Chain()))
      ensures r == ChainValidate(Chain(), value, search, m)
      ensures GroupNames(Chain()) != [] ==> r == ChainValidateAsWritten(Chain(), value, search, m)
    {
      var pattern := GetRegex();
      var segs := GetSegments();
      var links := LinksOf(segs);
      var names := GroupNames(links);
      if !Distinct(names) {
        return Fail(DuplicateGroup);
      }
      var matches := search(pattern, value);
      if matches.None? {
        return Fail(Reason("Didn't match"));
      }
      r := ValidateSpec(ParamSpec(links), Obj(Captured(names, matches.value)), m);
      if names != [] {
        AsWrittenAgreesWithNamedGroups(links, value, search, m);
      }
    }

    /** SegmentField's `serialize(deserialized)`: each segment's text pushed in
        chain order, then joined. */
    method Serialize(x: Value) returns (r: Result<Value>)
      requires Valid()
      ensures SerializeLinks(Chain(), x).Fail? ==> r == Fail(SerializeLinks(Chain(), x).error)
      ensures SerializeLinks(Chain(), x).Ok? ==> r == Ok(Str(SerializeLinks(Chain(), x).value))
      ensures SerializeLinksAsWritten(Chain(), x).Ok? ==> r == Ok(Str(SerializeLinksAsWritten(Chain(), x).value))
    {
      var segs := GetSegments();
      var links := LinksOf(segs);
      AsWrittenSerializeAgrees(links, x);
      var out := "";
      for i := 0 to |links|
        invariant SerializeLinks(links[..i], x) == Ok(out)
      {
        SerializeStep(links, x, i, out);
        match LinkText(links[i], x) {
          case Fail(e) =>
            return Fail(e);
          case Ok(t) =>
            out := out + t;
        }
      }
      assert links[..|links|] == links;
      r := Ok(Str(out));
    }
  }

  /** One step of the walk to the root: the segment moves from the part
      still to walk to the collected part. */
  lemma AncestryStep(c: Segment, collected: seq<Segment>)
    requires c.Valid()
    ensures (if c.parent == null then [] else c.parent.Ancestry()) + Reversed(collected + [c]) ==
      c.Ancestry() + Reversed(collected)
  {
    assert Reversed(collected + [c]) == [c] + Reversed(collected);
  }

  /** One segment of the serialize loop: its text extends the output, or
      its failure is the failure of the whole chain. */
  lemma SerializeStep(links: seq<Link>, x: Value, i: nat, out: string)
    requires i < |links| && SerializeLinks(links[..i], x) == Ok(out)
    ensures LinkText(links[i], x).Fail? ==> SerializeLinks(links, x) == Fail(LinkText(links[i], x).error)
    ensures LinkText(links[i], x).Ok? ==> SerializeLinks(links[..i + 1], x) == Ok(out + LinkText(links[i], x).value)
  {
    assert links[..i + 1][..i] == links[..i];
    if LinkText(links[i], x).Fail? {
      SerializeFailureSticks(links, x, i + 1);
    }
  }

  /** The first segment that cannot be written decides the failure. */
  lemma {:induction false} SerializeFailureSticks(links: seq<Link>, x: Value, n: nat)
    requires n <= |links| && SerializeLinks(links[..n], x).Fail?
    ensures SerializeLinks(links, x) == SerializeLinks(links[..n], x)
    decreases |links| - n
  {
    if n < |links| {
      assert links[..n + 1][..n] == links[..n];
      SerializeFailureSticks(links, x, n + 1);
    } else {
      assert links[..n] == links;
    }
  }

  /** `$`: the root segment, with neither key nor field. */
  method Root() returns (s: Segment)
    ensures fresh(s) && s.Valid() && s.MemoOk()
    ensures s.Chain() == [Link("", None)]
  {
    s := new Segment(null, "", None);
  }

  // ------------------------------------------------------------ examples

  /** Appending a segment appends its piece, its group and its parameter entry. */
  lemma AppendLink(links: seq<Link>, l: Link)
    requires WellLinked(links) && HasSource(l)
    ensures WellLinked(links + [l])
    ensures Body(links + [l]) == Body(links) + Piece(l)
    ensures GroupNames(links + [l]) == GroupNames(links) + (if Named(l) then [l.key] else [])
    ensures FieldKeys(links + [l]) == FieldKeys(links) + (if l.field.Some? then [l.key] else [])
    ensures FieldSpecs(links + [l]) == FieldSpecs(links) + (if l.field.Some? then [SField(l.field.value)] else [])
  {
    assert (links + [l])[..|links|] == links;
  }

  /** The chain of the segment tests: `$._('/')._('field', field)._('/suffix')`,
      with `g` the field's string-input variant. */
  function HarnessChain(g: Field): seq<Link> {
    [Link("", None), Link("/", None), Link("field", Some(g)), Link("/suffix", None)]
  }

  /** The harness pattern, spelled out. */
  lemma HarnessText(src: string)
    ensures "^" + ("" + "" + "/" + ("(?<" + "field" + ">" + src + ")") + "/suffix") + "$" ==
      "^/(?<field>" + src + ")/suffix$"
  {
  }

  /** A chain of two literals, one named group and a literal, for any keys:
      its pattern body, groups and parameter entries, segment by segment. */
  lemma GroupBetweenLiterals(a: string, b: string, n: string, g: Field, c: string)
    requires RegexSource(g).Some?
    ensures var ch := [Link(a, None), Link(b, None), Link(n, Some(g)), Link(c, None)];
      WellLinked(ch) && Body(ch) == "" + a + b + Piece(Link(n, Some(g))) + c &&
      GroupNames(ch) == (if n != "" then [n] else []) && FieldKeys(ch) == [n] && FieldSpecs(ch) == [SField(g)]
  {
    var l0, l1, l2, l3 := Link(a, None), Link(b, None), Link(n, Some(g)), Link(c, None);
    var names := if n != "" then [n] else [];
    var c0: seq<Link> := [];
    var c1 := c0 + [l0];
    assert WellLinked(c1) && Body(c1) == "" + a && GroupNames(c1) == [] &&
      FieldKeys(c1) == [] && FieldSpecs(c1) == [] by {
      AppendLink(c0, l0);
    }
    var c2 := c1 + [l1];
    assert WellLinked(c2) && Body(c2) == "" + a + b && GroupNames(c2) == [] &&
      FieldKeys(c2) == [] && FieldSpecs(c2) == [] by {
      AppendLink(c1, l1);
    }
    var c3 := c2 + [l2];
    assert WellLinked(c3) && Body(c3) == "" + a + b + Piece(l2) && GroupNames(c3) == names &&
      FieldKeys(c3) == [n] && FieldSpecs(c3) == [SField(g)] by {
      AppendLink(c2, l2);
    }
    var c4 := c3 + [l3];
    assert WellLinked(c4) && Body(c4) == "" + a + b + Piece(l2) + c && GroupNames(c4) == names &&
      FieldKeys(c4) == [n] && FieldSpecs(c4) == [SField(g)] by {
      AppendLink(c3, l3);
    }
    assert c4 == [Link(a, None), Link(b, None), Link(n, Some(g)), Link(c, None)];
  }

  /** The harness chain, segment by segment. */
  lemma HarnessChainParts(g: Field)
    requires RegexSource(g).Some?
    ensures WellLinked(HarnessChain(g))
    ensures Body(HarnessChain(g)) == "" + "" + "/" + Piece(Link("field", Some(g))) + "/suffix"
    ensures GroupNames(HarnessChain(g)) == ["field"]
    ensures FieldKeys(HarnessChain(g)) == ["field"]
    ensures FieldSpecs(HarnessChain(g)) == [SField(g)]
  {
    GroupBetweenLiterals("", "/", "field", g, "/suffix");
  }

  /** The harness chain's pattern wraps the field's pattern in a group named
      `field`, and `field` is its only parameter. */
  lemma HarnessChainShape(g: Field)
    requires RegexSource(g).Some?
    ensures WellLinked(HarnessChain(g))
    ensures Pattern(HarnessChain(g)) == "^/(?<field>" + RegexSource(g).value + ")/suffix$"
    ensures GroupNames(HarnessChain(g)) == ["field"]
    ensures ParamSpec(HarnessChain(g)) == SObj(["field"], [SField(g)])
  {
    HarnessChainParts(g);
    var src := RegexSource(g).value;
    assert Piece(Link("field", Some(g))) == "(?<" + "field" + ">" + src + ")";
    HarnessText(src);
    assert FromEntries(["field"], [SField(g)]) == (["field"], [SField(g)]);
  }

  /** A matched path is validated against the parameter spec. */
  lemma ChainValidateOfMatch(links: seq<Link>, value: string, search: Search, m: Matcher, caps: seq<string>)
    requires WellLinked(links) && Distinct(GroupNames(links))
    requires search(Pattern(links), value) == Some(caps)
    ensures ChainValidate(links, value, search, m) ==
      ValidateSpec(ParamSpec(links), Obj(Captured(GroupNames(links), caps)), m)
  {
  }

  /** A one-parameter spec on an object holding just that parameter. */
  lemma SingleParam(k: string, g: Field, y: Value, m: Matcher)
    ensures Validate(g, y, m).Ok? ==>
      ValidateSpec(SObj([k], [SField(g)]), Obj([Prop(k, y)]), m) == Ok(Obj([Prop(k, Validate(g, y, m).value)]))
    ensures Validate(g, y, m).Fail? ==>
      ValidateSpec(SObj([k], [SField(g)]), Obj([Prop(k, y)]), m) == Fail(Decorate(KStr(k), Validate(g, y, m).error))
  {
    var v := Obj([Prop(k, y)]);
    assert Get(v, k) == y;
    assert ValidateSpec(SObj([k], [SField(g)]), v, m) == ValidateObject([k], [SField(g)], v, m);
    assert AllFields([SField(g)]);
    if Validate(g, y, m).Ok? {
      var r := ValidateEntries([k], [SField(g)], v, m);
      assert ValidateSpec(SField(g), Get(v, k), m).Ok?;
      assert r.Ok? && |r.value| == 1;
      assert r.value == [Prop(k, Validate(g, y, m).value)];
      assert OwnKeys(v) == [k];
      assert Without([k], [k]) == [];
    } else {
      EntriesFailAtFirstFailingKey([k], [SField(g)], v, m, 0);
    }
  }

  /** What the segment tests check: a path the pattern matches gives
      `{field: y}` when the field accepts its text as `y`, and otherwise the
      field's error under the path `['field']`. */
  lemma HarnessValidate(g: Field, input: string, search: Search, m: Matcher)
    requires RegexSource(g).Some?
    requires search("^/(?<field>" + RegexSource(g).value + ")/suffix$", "/" + input + "/suffix") == Some([input])
    ensures WellLinked(HarnessChain(g))
    ensures Validate(g, Str(input), m).Ok? ==>
      ChainValidate(HarnessChain(g), "/" + input + "/suffix", search, m) ==
        Ok(Obj([Prop("field", Validate(g, Str(input), m).value)]))
    ensures Validate(g, Str(input), m).Fail? ==>
      ChainValidate(HarnessChain(g), "/" + input + "/suffix", search, m) ==
        Fail(Decorate(KStr("field"), Validate(g, Str(input), m).error))
  {
    HarnessChainShape(g);
    ChainValidateOfMatch(HarnessChain(g), "/" + input + "/suffix", search, m, [input]);
    assert Captured(["field"], [input]) == [Prop("field", Str(input))];
    SingleParam("field", g, Str(input), m);
  }

  /** `$._('/users/')._('username', stringField())._('/todos/')._('uid', numberField())`,
      each field replaced by its string-input variant. */
  function TodoChain(): seq<Link> {
    [Link("", None), Link("/users/", None), Link("username", Some(StringField(None))),
     Link("/todos/", None), Link("uid", Some(NumberFieldWithRegExp(false)))]
  }

  /** The pattern of TodoChain, spelled out. */
  lemma TodoText()
    ensures "^" + ("" + "" + "/users/" + ("(?<" + "username" + ">" + ".*" + ")") + "/todos/" +
      ("(?<" + "uid" + ">" + ("-?\\d+" + "") + ")")) + "$" == "^/users/(?<username>.*)/todos/(?<uid>-?\\d+)$"
  {
    var user, uid := "(?<" + "username" + ">" + ".*" + ")", "(?<" + "uid" + ">" + ("-?\\d+" + "") + ")";
    UsernameGroupText();
    UidGroupText();
    PatternPieces("/users/", user, "/todos/", uid);
    TodoPrefixText();
    TodoSuffixText();
    TodoHalves();
  }

  lemma UsernameGroupText()
    ensures "(?<" + "username" + ">" + ".*" + ")" == "(?<username>.*)"
  {
  }

  lemma UidGroupText()
    ensures "(?<" + "uid" + ">" + ("-?\\d+" + "") + ")" == "(?<uid>-?\\d+)"
  {
    assert "-?\\d+" + "" == "-?\\d+";
  }

  /** Literal pieces of the TodoChain pattern. */
  lemma TodoHalves()
    ensures "^/users/(?<username>.*)/todos/(?<uid>-?\\d+)$" == "^/users/(?<username>.*)" + "/todos/(?<uid>-?\\d+)$"
  {}
  lemma TodoPrefixText()
    ensures "^" + "/users/" + "(?<username>.*)" == "^/users/(?<username>.*)"
  {}
  lemma TodoSuffixText()
    ensures "/todos/" + "(?<uid>-?\\d+)" + "$" == "/todos/(?<uid>-?\\d+)$"
  {}
  lemma PatternPieces(p: string, q: string, r: string, s: string)
    ensures "^" + ("" + "" + p + q + r + s) + "$" == "^" + p + q + (r + s + "$")
  {}

  /** TodoChain, segment by segment. */
  lemma TodoChainParts()
    ensures WellLinked(TodoChain())
    ensures Body(TodoChain()) == "" + "" + "/users/" + Piece(TodoChain()[2]) + "/todos/" + Piece(TodoChain()[4])
    ensures GroupNames(TodoChain()) == ["username", "uid"]
    ensures FieldKeys(TodoChain()) == ["username", "uid"]
    ensures FieldSpecs(TodoChain()) == [SField(StringField(None)), SField(NumberFieldWithRegExp(false))]
  {
    var l2, l4 := Link("username", Some(StringField(None))), Link("uid", Some(NumberFieldWithRegExp(false)));
    var pre := [Link("", None), Link("/users/", None), l2, Link("/todos/", None)];
    GroupBetweenLiterals("", "/users/", "username", StringField(None), "/todos/");
    AppendLink(pre, l4);
    assert pre + [l4] == TodoChain();
  }

  lemma TodoChainShape()
    ensures WellLinked(TodoChain())
    ensures Pattern(TodoChain()) == "^/users/(?<username>.*)/todos/(?<uid>-?\\d+)$"
    ensures GroupNames(TodoChain()) == ["username", "uid"]
    ensures ParamSpec(TodoChain()) ==
      SObj(["username", "uid"], [SField(StringField(None)), SField(NumberFieldWithRegExp(false))])
  {
    TodoChainParts();
    assert Piece(TodoChain()[2]) == "(?<" + "username" + ">" + ".*" + ")";
    assert Piece(TodoChain()[4]) == "(?<" + "uid" + ">" + ("-?\\d+" + "") + ")";
    TodoText();
    var ks := ["username", "uid"];
    var ss := [SField(StringField(None)), SField(NumberFieldWithRegExp(false))];
    assert FromEntries(ks, ss) == (ks, ss);
  }

  /** `/users/alice/todos/42` reads as `{username: 'alice', uid: 42}`. */
  lemma TodoPathExample(search: Search, m: Matcher)
    requires search("^/users/(?<username>.*)/todos/(?<uid>-?\\d+)$", "/users/alice/todos/42") == Some(["alice", "42"])
    ensures WellLinked(TodoChain())
    ensures ChainValidate(TodoChain(), "/users/alice/todos/42", search, m) ==
      Ok(Obj([Prop("username", Str("alice")), Prop("uid", Num(42.0))]))
  {
    TodoChainShape();
    TodoCaptured();
    ChainValidateOfMatch(TodoChain(), "/users/alice/todos/42", search, m, ["alice", "42"]);
    TodoParams(m);
  }

  /** The groups of `/users/alice/todos/42` as an object. */
  lemma TodoCaptured()
    ensures Captured(["username", "uid"], ["alice", "42"]) == [Prop("username", Str("alice")), Prop("uid", Str("42"))]
  {
  }

  /** The text `42` read by the number field's string-input variant. */
  lemma UidText(m: Matcher)
    ensures Validate(NumberFieldWithRegExp(false), Str("42"), m) == Ok(Num(42.0))
  {
    assert IntToString(42) == "42";
    ParseFloatOfIntText(42);
    assert IsIntegral(42.0);
  }

  /** The parameter spec of TodoChain on the captured groups. */
  lemma TodoParams(m: Matcher)
    ensures ValidateSpec(SObj(["username", "uid"], [SField(StringField(None)), SField(NumberFieldWithRegExp(false))]),
      Obj([Prop("username", Str("alice")), Prop("uid", Str("42"))]), m) ==
      Ok(Obj([Prop("username", Str("alice")), Prop("uid", Num(42.0))]))
  {
    var ks := ["username", "uid"];
    var ss := [SField(StringField(None)), SField(NumberFieldWithRegExp(false))];
    var v := Obj([Prop("username", Str("alice")), Prop("uid", Str("42"))]);
    var xs := [Str("alice"), Num(42.0)];
    assert ValidateSpec(ss[0], Get(v, "username"), m) == Ok(Str("alice")) by {
      assert Get(v, "username") == Str("alice");
    }
    assert ValidateSpec(ss[1], Get(v, "uid"), m) == Ok(Num(42.0)) by {
      assert Get(v, "uid") == Str("42");
      UidText(m);
    }
    TwoPassingKeys("username", "uid", ss, v, m, Str("alice"), Num(42.0));
    assert Zip(ks, xs) == [Prop("username", Str("alice")), Prop("uid", Num(42.0))];
    assert OwnKeys(v) == ks;
    ObjectOfPassingKeys(ks, ss, v, m, xs);
  }

  /** `$._('/health')` matched against `/health`: rejected as written,
      an empty parameter object as intended. */
  lemma HealthPathExample(search: Search, m: Matcher)
    requires search("^/health$", "/health") == Some([])
    ensures var links := [Link("", None), Link("/health", None)];
      WellLinked(links) &&
      ChainValidateAsWritten(links, "/health", search, m) == Fail(Reason("Didn't match")) &&
      ChainValidate(links, "/health", search, m) == Ok(Obj([]))
  {
    var links := [Link("", None), Link("/health", None)];
    HealthPattern(links);
    LiteralChainHasNoParams(links);
    AsWrittenLiteralChainNeverMatches(links, "/health", search, m);
    LiteralChainMatchesWithoutParams(links, "/health", search, m);
  }

  /** The pattern of the `/health` chain. */
  lemma HealthPattern(links: seq<Link>)
    requires links == [Link("", None), Link("/health", None)]
    ensures WellLinked(links) && Pattern(links) == "^/health$"
  {
    assert Body(links[..1]) == "" by {
      assert links[..1][..0] == [];
    }
    assert Body(links) == "/health" by {
      assert links[..1] == links[..|links| - 1];
    }
    assert "^" + "/health" + "$" == "^/health$";
  }
}
