# ts-runtime-validator, modelled in Dafny

A model of the runtime validator of `ts-runtime-validator`. A caller describes
data with a **spec**: `undefined`, a **field**, an array literal or an object
literal of specs. `validate(spec, value)` checks an untrusted value against it
and returns the typed value, or throws an error. The error names the path to
the failing part (`{path: ['innerList', 0, 'fl'], inner: 'Not a number'}`), or
lists the undeclared keys (`{extraKeys: [...]}`). `serialize(spec, value)` goes
the other way.

The model covers:

- **Values and errors** (`values.dfy`): JSON-like values with ordered object
  properties, `NaN` as its own value, and own-property reads. Reading a
  property of `undefined` or `null` is a `Crash`, modelling a TypeError.
  Errors are `Reason | Path | ExtraKeys | Crash`.
- **Field kinds** (`scalars.dfy`, `specs.dfy`): string, number, boolean,
  choice, singleton, object, array and undefined fields.
  - Decorators: `optional`, `withDefault` and `withDoc`.
  - The string-input variants that `getFieldWithRegExp()` returns: number and
    choice `...WithRegExp`, and the boolean text variant.
  - Each field's regular-expression source.
- **Error decoration** (`decoration.dfy`): `withErrorDecoration`, which turns a
  nested failure into a fully qualified path.
- **The spec-tree engine** (`engine.dfy`, `engine_laws.dfy`,
  `engine_examples.dfy`):
  - interface.ts `getFieldForSpec`, `validate` and `serialize`;
  - the per-key object step and the per-index array step;
  - laws: first failure wins, full error paths, idempotence of validation,
    serialize inverting validate;
  - the engine's own test scenarios.
- **The registry** (`registry.dfy`): `createRegistry`, which rejects duplicate
  kinds, maps each kind's `type` to its representation function, and lets
  that function request the representation of the fields inside it.
- **Declarations** (`declarations.dfy`): `numberField`, `choiceField` and
  `stringField` as the caller invokes them.
- **The segment chain** (`segments.dfy`): `Segment` (segmentChain.ts) and
  `SegmentField` (fields/segmentField.ts). Both are a parent-linked list of
  path segments. It builds an anchored pattern from its segments, matches a
  path against it, validates the named groups, and writes a parameter object
  back as a path. `class Segment` holds the parent link, key, field and the
  remembered pattern. Its methods follow `getRegex`, `validate` and
  `serialize`, with the corrections listed under "Findings". Each method is
  proved against the corrected function over the chain's links, and also
  against the as-written function wherever the two agree.
- **The legacy closure engine** (`legacy.dfy`): src/core.ts and
  src/fields/optional.ts.

Regular-expression matching is a parameter of the model:

- a `Matcher` answers whether a string matches an anchored pattern;
- a `Search` answers what a path's named groups capture.

The model states what is built from those answers, not how a regex engine
finds them.

## Model

| member | source | states |
|---|---|---|
| Values.ReadProp | src/core.ts:33 | reading a key fails exactly on `undefined` and `null`; otherwise it gives the property read |
| Values.GetReadsFirstProperty | src/core.ts:33 | a key an object holds reads the value of the first property with that key |
| Values.GetOfMissingKey | src/core.ts:33 | a key an object lacks, and any key of a value that is neither object nor array, reads `undefined` |
| Values.ToText | packages/validator/src/fields/choiceField.ts:47 | a string's text is itself; booleans, `NaN` and integral numbers have a non-empty text; `undefined` and `null` have none, and objects and arrays are outside the model |
| Values.FromEntries | src/core.ts:23-27 | there are always as many keys as values; with distinct keys the object holds exactly the given keys and values, in order |
| Decoration.DecorateAll | packages/validator/src/core.ts:35-51 | no keys leave the error unchanged; otherwise the result is a path error whose first key is the outermost key |
| Decoration.Decorate | packages/validator/src/core.ts:38-50 | a thrown `{path, inner}` with a truthy `inner` gets the key prepended to its path and keeps its inner error; any other error is wrapped with path `[key]` |
| Decoration.WithErrorDecoration | packages/validator/src/core.ts:35-51 | success passes through unchanged; a failure comes out decorated with the key |
| Decoration.DecorationQualifiesPath | packages/validator/src/core.ts:39-43 | a plain truthy error decorated through n nested keys is exactly `Path(keys, error)`, outermost key first |
| Decoration.DecorationExtendsPath | packages/validator/src/core.ts:39-43 | an already qualified error only grows at the front of its path, its inner error unchanged |
| Decoration.EmptyReasonIsWrappedAgain | packages/validator/src/core.ts:39-49 | an empty-string reason is falsy, so an outer level wraps it again instead of extending its path |
| Scalars.ValidateString | packages/validator/src/fields/stringField.ts:18-29 | a non-string fails "Not a string"; a string passes unchanged without a regex, and with one exactly when it matches the regex anchored at both ends, else "Doesn't match a regex" |
| Scalars.StringRegexSource | packages/validator/src/fields/stringField.ts:15-17 | the pattern is the given regex, or `.*` when none was given |
| Scalars.ValidateNumber | packages/validator/src/fields/numberField.ts:21-29 | passes, unchanged, exactly a number that is integral or allowed to be a float (NaN only when floats are allowed); a non-number fails "Not a number", a rejected number "Not an int" |
| Scalars.NumberRegexSource | packages/validator/src/fields/numberField.ts:37-46 | the pattern starts with `-?\d+` and has the fractional part exactly when floats are allowed |
| Scalars.ParseDecimal | packages/validator/src/fields/numberField.ts:48-50 | the result is a number or `NaN`; an empty text or one that starts with neither `-` nor a digit gives `NaN`; without a leading `-` the number is not negative |
| Scalars.UnsignedDecimal | packages/validator/src/fields/numberField.ts:48-50 | a text without sign parses to `NaN` exactly when it does not start with a digit, and otherwise to a non-negative number |
| Scalars.FractionValue | packages/validator/src/fields/numberField.ts:48-50 | the fraction after the whole part is never negative, and is 0 unless the text goes on with a `.` |
| Scalars.FractionValueOfText | packages/validator/src/fields/numberField.ts:48-50 | `.f` followed by a non-digit is the fraction `f / 10^|f|` |
| Scalars.ParseDecimalOfDigits | packages/validator/src/fields/numberField.ts:48-50 | a digit run followed by a non-digit parses to the run's value plus the fraction that follows |
| Scalars.ParseDecimalOfMinus | packages/validator/src/fields/numberField.ts:48-50 | a text starting with a digit parses to a number, and after a leading `-` to its negation |
| Scalars.ParseDecimalOfFractionText | packages/validator/src/fields/numberField.ts:48-50 | `d.f` followed by a non-digit parses to `d + f / 10^|f|`; `12.` parses to 12 |
| Scalars.ParseDecimalOfNegatedFractionText | packages/validator/src/fields/numberField.ts:48-50 | `-d.f` followed by a non-digit parses to `-(d + f / 10^|f|)` |
| Scalars.ParseDecimalOfDigitPrefix | packages/validator/src/fields/numberField.ts:48-50 | a digit run followed by neither a digit nor a `.` parses to its integer: `'12abc'` gives 12 |
| Scalars.ParseDecimalOfNegatedDigitPrefix | packages/validator/src/fields/numberField.ts:48-50 | the same run after a leading `-` parses to the negated integer |
| Scalars.ParseFloat | packages/validator/src/fields/numberField.ts:48-50 | the result is a number or `NaN`; a number parses to itself; a value that is neither string nor number gives `NaN` |
| Scalars.ParseFloatOfIntText | packages/validator/src/fields/numberField.ts:48-50 | `Number.parseFloat` of an integer's decimal text is that integer |
| Scalars.ValidateBoolean | packages/validator/src/fields/booleanField.ts:8-13 | passes, unchanged, exactly `true` and `false`; everything else fails "Not a boolean" |
| Scalars.CoerceBoolean | packages/validator/src/fields/booleanField.ts:24-30 | the texts `'true'`/`'1'` become `true`, `'false'`/`'0'` become `false`, anything else is left as it is |
| Scalars.BooleanToText | packages/validator/src/fields/booleanField.ts:33 | a boolean serializes to `'true'` or `'false'` |
| Scalars.BooleanTextRoundTrip | packages/validator/src/fields/booleanField.ts:24-33 | the text variant reads back the text it writes for every boolean |
| Scalars.ValidateChoice | packages/validator/src/fields/choiceField.ts:24-29 | passes exactly the values in the choice set, unchanged; anything else fails "Invalid choice" |
| Scalars.LookupChoice | packages/validator/src/fields/choiceField.ts:45-48 | a found entry is a choice stored under that key; a key some choice maps to always finds a choice |
| Scalars.LookupChoiceMapsTo | packages/validator/src/fields/choiceField.ts:45-48 | when some choice is stored under a key, the lookup returns a choice that is stored under that key |
| Scalars.BuildChoiceMap | packages/validator/src/fields/choiceField.ts:41-49 | the loop fails exactly when some choice is `null` or `undefined`, with the TypeError `toString` throws on it; otherwise the map has a key exactly for each choice and each choice's text, and maps each key to the choice `get` finds under it |
| Scalars.ValidateChoiceText | packages/validator/src/fields/choiceField.ts:41-61 | a `null` or `undefined` choice makes the field throw the `toString` TypeError; otherwise the variant accepts exactly a value or text that some choice maps to and returns that choice, and anything else fails "Invalid choice" |
| Scalars.EscapeRegex | packages/validator/src/fields/choiceField.ts:54 | escaping never shortens a text |
| Scalars.EscapeRegexKeepsPlainText | packages/validator/src/fields/choiceField.ts:54 | a text without regex metacharacters is its own escape |
| Scalars.UnescapeEscapeRegex | packages/validator/src/fields/choiceField.ts:54 | escaping a text for a pattern loses nothing: the escaped text reads back as the original |
| Scalars.AlternativesOfEscapedJoin | packages/validator/src/fields/choiceField.ts:52-56 | joining escaped texts with `\|` gives a pattern whose alternatives are exactly those escaped texts |
| Scalars.ChoiceRegexSourceAsWritten | packages/validator/src/fields/choiceField.ts:51-57 | as written, no choices give the empty pattern `(?:)`, and otherwise the pattern has one alternative per choice |
| Scalars.ChoiceRegexSource | packages/validator/src/fields/choiceField.ts:51-57 | as corrected, a pattern exists exactly when every choice has a text, and it has one alternative per choice |
| Scalars.ChoicePatternListsIndices | packages/validator/src/fields/choiceField.ts:51-57 | as written, alternative i of the choice pattern reads as the index `i`, not as choice i |
| Scalars.ChoicePatternCounterexample | packages/validator/src/fields/choiceField.ts:51-57 | as written, the pattern for the choices `'a'`, `'b'` is `0\|1` |
| Scalars.ChoiceTexts | packages/validator/src/fields/choiceField.ts:53 | the texts of the choices exist exactly when every choice has one, and text i is choice i's text |
| Scalars.ChoicePatternListsEveryChoice | packages/validator/src/fields/choiceField.ts:51-57 | as corrected, the pattern has one alternative per choice and alternative i reads as choice i's text |
| Specs.TypeOf | packages/validator/src/registry.ts:21-27 | a type, when present, is non-empty; the boolean text variant carries the boolean field's tag; number and its variant share the number tag; the choice variant, a singleton and the undefined field carry none |
| Specs.WithRegExp | packages/validator/src/fields/stringField.ts:12-17 | a string field is its own string-input variant; every variant except the choice variant has a pattern |
| Specs.WithRegExpStable | packages/validator/src/fields/booleanField.ts:21-35 | asking a variant for its variant again gives the same variant, except the boolean text variant, which has none |
| Specs.FixedStringInputPatterns | packages/validator/src/fields/booleanField.ts:34 | the boolean text pattern is `true\|false\|1\|0`; the number patterns are `-?\d+` with `(\.\d+)?` for floats; an unconstrained string matches `.*` |
| Specs.RegexSource | packages/validator/src/segmentChain.ts:61-62 | a pattern exists exactly for the string field, the number and boolean string-input variants, and the choice variant whose every choice has a text (its pattern as corrected) |
| Specs.IsArraySpec | packages/validator/src/interface.ts:27-38 | an array spec is an array of exactly one field, and every array spec is also an object spec |
| Specs.IsObjectSpec | packages/validator/src/interface.ts:11-24 | every own key of an object or array literal holds a field; such a spec also passes core.ts's deep check |
| Specs.IsObjectSpecDeep | packages/validator/src/core.ts:58-70 | the deep object check holds exactly when every child is a valid child |
| Specs.IsArraySpecDeep | packages/validator/src/core.ts:73-84 | every interface.ts array spec passes it, and a spec that passes is an array that passes the deep object check |
| Specs.FieldForSpec | packages/validator/src/interface.ts:40-54 | undefined gives the undefined field; a field is itself; a one-field array is an array field; other arrays of fields are object fields keyed by index; object literals of fields are object fields; anything else is the undefined field |
| Specs.IsValidChild | packages/validator/src/core.ts:87-88 | a field is always a valid child; `undefined` has no answer, since reading its keys throws |
| Specs.AllValidChildren | packages/validator/src/core.ts:58-70 | the deep object check holds exactly when every child is a valid child |
| Specs.NestedLiteralIsChildButNotObjectSpec | packages/validator/src/interface.ts:11-24 | a nested object literal passes core.ts's deep check but not interface.ts's shallow one, so it is read as the undefined field |
| Engine.Validate | packages/validator/src/interface.ts:58-62 | string, number, boolean and choice fields return an accepted value unchanged; an object field returns an object with one property per declared key; an array field accepts only arrays and returns as many items; an optional field passes `undefined` |
| Engine.ValidateSpec | packages/validator/src/interface.ts:58-62 | an array spec returns an array of as many items as the input; an object literal of fields returns an object with one property per declared key; a literal that is neither validates to `undefined` |
| Engine.Serialize | packages/validator/src/interface.ts:64-67 | string, number, boolean and choice fields and their string-input variants serialize a value to itself; an array field throws on a non-array (on `undefined` or `null` the TypeError of reading `map`, on anything else "map is not a function") and otherwise keeps the length; an object field returns one property per declared key |
| Engine.SerializeSpec | packages/validator/src/interface.ts:64-67 | an array spec throws on a non-array as an array field does (reading `map` of `undefined` or `null`, otherwise "map is not a function") and otherwise keeps the length; an object literal of fields returns one property per declared key; a literal that is neither serializes to `undefined` |
| Engine.ValidateObject | packages/validator/src/fields/objectField.ts:24-29 | a value that is not an object fails "Not an object"; a success means the value is an object without undeclared keys, and the result holds the declared keys in spec order |
| Engine.ValidateEntries | packages/validator/src/fields/objectField.ts:28 | succeeds exactly when every declared key's value passes its spec, and then returns each declared key, in spec order, with what its spec returned |
| Engine.ValidateItems | packages/validator/src/fields/arrayField.ts:14-21 | succeeds exactly when every element passes the item field, and then returns each element's validated value in order |
| Engine.SerializeEntries | packages/validator/src/fields/objectField.ts:30 | a successful result has each declared key with its serialized value; serializing `undefined` or `null` throws at the first key, decorated with it |
| Engine.SerializeItems | packages/validator/src/fields/arrayField.ts:22-26 | a successful result serializes each element in order |
| EngineLaws.SpecValidatesThroughItsField | packages/validator/src/interface.ts:58-67 | validating and serializing a spec are validating and serializing the field `getFieldForSpec` builds for it |
| EngineLaws.EntriesFailAtFirstFailingKey | packages/validator/src/fields/objectField.ts:24-29 | the first declared key whose value fails decides the error, decorated with that key |
| EngineLaws.ItemsFailAtFirstFailingIndex | packages/validator/src/fields/arrayField.ts:18-20 | the first failing element decides the error, decorated with its index |
| EngineLaws.ArrayFailsAtFirstFailingIndex | packages/validator/src/fields/arrayField.ts:14-21 | an array field fails with the first failing element's error under that element's index |
| EngineLaws.DeclaredKeysBeforeExtraKeys | packages/validator/src/fields/objectField.ts:24-29 | a failing declared key is reported, with a path, before any extra key; when all declared keys pass, undeclared keys fail as `extraKeys` in input order, else the object of declared keys is returned |
| EngineLaws.FailedEntriesCarryPath | packages/validator/src/core.ts:35-51 | every per-key failure carries a non-empty path starting with one of the declared keys |
| EngineLaws.SingleKeyFailure | packages/validator/src/core.ts:35-51 | a failure one level down is decorated with exactly that key |
| EngineLaws.NestedFailureHasFullPath | packages/validator/src/core.ts:35-51 | a plain failure n object levels deep is reported with exactly the n keys leading to it, and the failure itself unchanged |
| EngineLaws.OptionalDelegates | packages/validator/src/fields/optional.ts:9-17 | `undefined` validates and serializes to `undefined` without the inner field; any other value gets the inner field's result, failures included |
| EngineLaws.WithDefaultValidatesTheDefault | packages/validator/src/fields/withDefault.ts:9-17 | a missing value is replaced by the default, which the inner field validates; a present value ignores the default; serialize never substitutes it |
| EngineLaws.WithDocIsTransparent | packages/open-api-endpoint/src/withDoc.ts:21-29 | validate and serialize are exactly the inner field's |
| EngineLaws.SingletonIgnoresInput | packages/validator/src/fields/singletonField.ts:9-14 | validate and serialize return the stored choice whatever the input, and never fail |
| EngineLaws.ScalarsSerializeToThemselves | packages/validator/src/fields/stringField.ts:30-32 | string, number, boolean and choice fields serialize every value to itself |
| EngineLaws.AbsentOptionalKeysValidate | packages/validator/src/core.spec.ts:57-77 | an object of optional fields accepts an object with none of its keys, returning each key holding `undefined` |
| EngineLaws.ValidateIdempotent | packages/validator/src/interface.ts:58-62 | validating an already validated value returns it again |
| EngineLaws.SerializeOfValidated | packages/validator/src/interface.ts:64-67 | for fields whose serialize is the identity on validated values, serialize returns exactly what validate produced |
| EngineExamples.ListItemErrorExample | packages/validator/src/core.spec.ts:87-89 | the list element `{fl: 'Some random payload'}` fails at `fl` with "Not a number" |
| EngineExamples.InnerSchemaExample | packages/validator/src/core.spec.ts:59-62 | `{str: 'string', num: 12}` passes the inner schema |
| EngineExamples.SchemaFailsAtFl | packages/validator/src/core.spec.ts:79-98 | whatever non-number the list element holds under `fl`, the nested schema fails at path `innerList`, `0`, `fl` with "Not a number" |
| EngineExamples.NestedErrorExample | packages/validator/src/core.spec.ts:79-98 | the nested schema fails at path `innerList`, `0`, `fl` with "Not a number" |
| EngineExamples.ExtraKeysExample | packages/validator/src/core.spec.ts:108-127 | `{fieldOne, fieldTwo, fieldThree}` against `{fieldOne}` fails with extra keys `fieldTwo`, `fieldThree` |
| EngineExamples.ArrayIndexErrorExample | validator/src/fields/arrayField.spec.ts:16-27 | `[1, 2, false]` under `field` fails at path `field`, `2` with "Not a number" |
| EngineExamples.NotAnArrayExample | validator/src/fields/arrayField.spec.ts:29-40 | `11` under `field` fails at path `field` with "Not an array" |
| EngineExamples.TupleExample | packages/validator/src/core.spec.ts:104-106 | following interface.ts, a two-field array spec validates `[14, 'Val']` to an object keyed `"0"`, `"1"` |
| Registry.FirstDuplicate | packages/validator/src/registry.ts:64-73 | a reported duplicate is one of the tags; no report means no tag was seen before |
| Registry.NoDuplicateIffDistinct | packages/validator/src/registry.ts:64-73 | no duplicate is found exactly when the tags are pairwise distinct and none was seen before |
| Registry.WithNoDuplicates | packages/validator/src/registry.ts:64-73 | the processed-set loop fails with "Found duplicate of type declaration" naming the first repeated tag, and otherwise returns the pairs unchanged |
| Registry.Mapping | packages/validator/src/registry.ts:104-106 | the mapping has a key exactly for each registered tag |
| Registry.MappingFindsEveryPair | packages/validator/src/registry.ts:104-106 | with distinct tags, each tag maps to its own pair's representation function |
| Registry.GetValue | packages/validator/src/registry.ts:75-84 | a missing or empty type fails "Fields without type are not supported"; an unregistered type fails "Could not find field of type '...'"; a registered one is found |
| Registry.RequestFor | packages/validator/src/registry.ts:107-108 | the callback handed to a representation function is the registry's own lookup for every field held inside the field |
| Registry.CreateRegistry | packages/validator/src/registry.ts:101-110 | creation fails on the first duplicate tag, and otherwise yields the mapping of the pairs |
| Registry.GetRepresentation | packages/validator/src/registry.ts:107-108 | a field without a type fails "Fields without type are not supported"; an unregistered type fails "Could not find field of type '...'"; a registered type calls its function with the field and the lookup |
| Registry.RegisteredKindIsRepresented | packages/validator/src/registry.ts:107-109 | a field whose type was registered is represented by that kind's function, called with the field and the registry's own lookup restricted to direct sub-fields |
| Registry.ExampleMapping | packages/validator/src/registry.ts:104-106 | number, array and optional pairs register under their tags, and no string pair is present |
| Registry.OptionalNumberRepresentation | packages/validator/src/registry.ts:107-108 | an optional number is represented as `number?` |
| Registry.ArrayOfOptionalNumberRepresentation | packages/validator/src/registry.ts:107-108 | an array of optional numbers is represented as `[number?]`, by two nested requests |
| Registry.RepresentationRecursesIntoSubFields | packages/validator/src/registry.ts:101-110 | the registry created from the example pairs represents an array of optional numbers as `[number?]` |
| Registry.UnregisteredKindIsReported | packages/validator/src/registry.ts:80-82 | an array of strings fails at its item, reporting the string field's type as not found |
| Registry.DuplicateKindIsRejected | packages/validator/src/registry.ts:66-69 | registering `optional` twice fails at creation, naming `optional`'s type |
| Declarations.DeclareNumber | packages/validator/src/fields/numberField.ts:54 | `numberField()` gives a number field; a given spec's `canBeFloat` is kept |
| Declarations.DefaultNumberFieldIsIntegral | packages/validator/src/fields/numberField.ts:54 | a number field declared without a spec passes exactly integral numbers, and a fractional number fails "Not an int" |
| Declarations.SetOf | packages/validator/src/fields/choiceField.ts:18 | `new Set` of undefined or null is empty, of an array its items, of a string one item per character; other values are not iterable |
| Declarations.DeclareChoiceAsWritten | packages/validator/src/fields/choiceField.ts:69-70 | as written, `choiceField()` with no argument throws reading `choices` of undefined; any success is a choice field |
| Declarations.AsWrittenChoiceRejectsItsChoices | packages/validator/src/fields/choiceField.ts:17-19 | as written, `choiceField(c1, ...)` with primitive choices builds an empty choice set, and every value, its own choices included, fails "Invalid choice" |
| Declarations.AsWrittenChoiceCounterexample | packages/validator/src/fields/choiceField.ts:69-70 | as written, `choiceField('a', 'b')` rejects `'a'` |
| Declarations.AsWrittenChoiceHonoursParamsObject | packages/validator/src/fields/choiceField.ts:17-19 | as written, only a first argument shaped `{choices: [...]}` sets the choices |
| Declarations.DeclareChoice | packages/validator/src/fields/choiceField.ts:69-70 | as corrected, the arguments are the choices, and the field carries the choice type |
| Declarations.ChoiceAcceptsExactlyItsArguments | packages/validator/src/fields/choiceField.ts:24-29 | the corrected declaration accepts exactly its arguments, unchanged, and rejects everything else with "Invalid choice" |
| Declarations.DeclareStringAsWritten | packages/validator/src/docRegistry.ts:9-18 | as written, `stringField` is a plain object carrying only its type, so calling it throws |
| Declarations.DeclareString | packages/validator/src/fields/stringField.ts:35 | as corrected, `stringField(regex)` is a string field with that regex and the string type |
| Declarations.StringFieldAcceptsMatchingStrings | packages/validator/src/fields/stringField.ts:18-29 | the declared string field accepts exactly the strings its pattern matches whole, and returns them unchanged |
| Legacy.ValidateOrGetParams | src/core.ts:37-41 | the GET_PARAMS sentinel returns the params; any other input is passed to the declared function with the params |
| Legacy.DeclareField | src/core.ts:43-48 | the declared validator behaves as `validateOrGetParams` over its function and params for every input |
| Legacy.MapResults | src/core.ts:17-27 | succeeds exactly when every entry's transform succeeds, and then returns one result per entry, in entry order |
| Legacy.AskParams | src/core.ts:29-30 | the transform of `getParams` asks each validator with the sentinel |
| Legacy.ApplyAt | src/core.ts:32-33 | reading a key of `undefined` or `null` throws; otherwise the validator gets the value under the key |
| Legacy.ReadAndApply | src/core.ts:32-33 | the transform of `validate` applies each validator to the value read under its key |
| Legacy.OptionalValidator | src/fields/optional.ts:7-12 | `undefined` passes as `undefined` without calling the inner validator; every other input gets the inner validator's result |
| Legacy.OptionalOf | src/fields/optional.ts:5 | the placeholder is `undefined` |
| Legacy.MapSpec | src/core.ts:17-27 | succeeds exactly when every entry's transform succeeds; a success is an object, which with distinct keys pairs each key with its result, in entry order |
| Legacy.GetParams | src/core.ts:29-30 | succeeds exactly when every validator answers the sentinel |
| Legacy.LegacyValidate | src/core.ts:32-33 | validating `undefined` or `null` throws reading the first key; a success is an object |
| Legacy.ValidateKeysAndValues | src/core.ts:32-33 | with distinct spec keys, a successful result has exactly the spec's keys, each holding its validator's result for the value under that key |
| Legacy.FirstFailurePropagatesUndecorated | src/core.ts:32-33 | the first failing validator's error comes out exactly as thrown, with no path added |
| Legacy.ExtraKeysAreIgnored | src/core.ts:32-33 | appending undeclared properties to the input does not change the outcome |
| Legacy.GetParamsReturnsDeclaredParams | src/core.ts:29-30 | `getParams` returns, under each key, the params its validator was declared with |
| Segments.Piece | packages/validator/src/segmentChain.ts:61-63 | a segment without both a field and a key contributes its key, read as the empty string when absent, literally |
| Segments.Pattern | packages/validator/src/segmentChain.ts:58-67 | the chain's pattern is anchored with `^` and `$` |
| Segments.GroupNames | packages/validator/src/segmentChain.ts:61-62 | the named groups are at most the segments, and each has a non-empty name |
| Segments.FieldSpecs | packages/validator/src/segmentChain.ts:74-75 | the parameter spec has one field spec per segment that holds a field |
| Segments.ParamSpec | packages/validator/src/segmentChain.ts:75 | the parameter spec is an object spec with as many keys as specs |
| Segments.Captured | packages/validator/src/segmentChain.ts:70 | the groups object has one property per group, in group order, holding the captured text, or `undefined` when nothing was captured |
| Segments.ChainValidate | packages/validator/src/segmentChain.ts:69-77 | duplicate group names are a syntax error; a path the pattern does not match fails "Didn't match" |
| Segments.ChainValidateAsWritten | packages/validator/src/segmentChain.ts:69-77 | as written, duplicate group names are a syntax error; a path the pattern does not match fails "Didn't match"; a chain without named groups fails "Didn't match" on every path |
| Segments.LinkTextAsWritten | packages/validator/src/fields/segmentField.ts:86-90 | as written, a literal segment writes its key, and a named segment throws, since no variant defines `asString` |
| Segments.LinkText | packages/validator/src/fields/segmentField.ts:86-90 | as corrected, a literal segment writes its key, and a named segment writes the text of the parameter under its name |
| Segments.SerializeLinksAsWritten | packages/validator/src/fields/segmentField.ts:83-93 | as written, serializing succeeds exactly when no segment is named |
| Segments.SerializeLinks | packages/validator/src/fields/segmentField.ts:83-93 | as corrected, serializing succeeds exactly when every segment can write its text |
| Segments.AsWrittenSerializeAgrees | packages/validator/src/fields/segmentField.ts:83-93 | whenever the as-written serialize succeeds, the corrected one gives the same text |
| Segments.LiteralChainHasNoParams | packages/validator/src/segmentChain.ts:54-56 | a chain of literal segments has no groups and no parameter entries |
| Segments.AsWrittenLiteralChainNeverMatches | packages/validator/src/segmentChain.ts:69-73 | as written, a chain without named groups rejects every path with "Didn't match", even one its pattern matches |
| Segments.AsWrittenAgreesWithNamedGroups | packages/validator/src/segmentChain.ts:69-77 | once the chain has a named group, the as-written validation is the corrected one |
| Segments.LiteralChainMatchesWithoutParams | packages/validator/src/segmentChain.ts:69-77 | as corrected, a literal chain accepts every path its pattern matches, with an empty parameter object |
| Segments.LiteralChainSerializesToItsBody | packages/validator/src/fields/segmentField.ts:83-93 | a chain without named segments serializes, as written and as corrected, to its pattern without the anchors |
| Segments.AsWrittenSerializeFailsWithParams | packages/validator/src/fields/segmentField.ts:86-87 | as written, serializing a chain with a named segment always fails |
| Segments.NamedFieldEntries | packages/validator/src/segmentChain.ts:54-62 | when every segment holding a field has a key, the parameter entries are exactly the named groups |
| Segments.VariantReadsBackItsText | packages/validator/src/fields/segmentField.ts:5-8 | each string-input variant validates the text of a value it accepts back to that value |
| Segments.ChainReadsBackWhatItWrites | packages/validator/src/fields/segmentField.ts:73-93 | as corrected, when the match captures the written texts, serializing parameters and matching the path back validates to exactly those parameters, under their group names |
| Segments.AppendLink | packages/validator/src/segmentChain.ts:60-64 | adding a segment appends its piece to the pattern, its group to the names and its entry to the parameter spec |
| Segments.HarnessChainShape | packages/validator/src/fields/TestUtils.test.ts:33-36 | the test chain's pattern is `^/(?<field>...)/suffix$`, and `field` is its only parameter |
| Segments.HarnessValidate | packages/validator/src/fields/TestUtils.test.ts:28-61 | a matched test path gives `{field: y}` when the field accepts its text as `y`, and otherwise the field's error under path `['field']` |
| Segments.TodoChainShape | packages/validator/src/segmentChain.ts:58-67 | a chain with a string and a number parameter has the pattern with both named groups, and both as parameters |
| Segments.TodoPathExample | packages/validator/src/segmentChain.ts:69-77 | `/users/alice/todos/42` validates to `{username: 'alice', uid: 42}` |
| Segments.HealthPathExample | packages/validator/src/segmentChain.ts:69-73 | the literal chain `/health` rejects `/health` as written and accepts it with no parameters as corrected |
| Segments.Segment.constructor | packages/validator/src/segmentChain.ts:24-28 | a new segment keeps its parent and key, stores its field's string-input variant, has no pattern yet, and its chain is its parent's chain plus itself |
| Segments.Segment.Extend | packages/validator/src/segmentChain.ts:30-38 | `_` returns a fresh child segment whose chain is this chain plus the new link |
| Segments.Segment.GetSegments | packages/validator/src/segmentChain.ts:42-52 | the cursor walk and the reverse return the segments from the root down to this one |
| Segments.Segment.GetRegex | packages/validator/src/segmentChain.ts:58-67 | returns the chain's pattern and remembers it |
| Segments.Segment.Validate | packages/validator/src/segmentChain.ts:69-77 | returns the chain validation of the path as corrected, which is the as-written one whenever the chain has a named group; the pattern is remembered afterwards |
| Segments.Segment.Serialize | packages/validator/src/fields/segmentField.ts:83-93 | as corrected, the loop writes the segment texts in chain order and fails with the first segment that cannot be written; whenever the as-written serialize succeeds, the result is its text |
| Segments.Root | packages/validator/src/segmentChain.ts:90 | `$` is a fresh root segment with neither key nor field |

## Left out

- Regular-expression matching, and the parsing of a pattern, are the
  `Matcher` and `Search` parameters. The model does not decide which strings a
  pattern matches.
- `escapeRegex` comes from utils.ts, which is not part of this model. The
  model escapes the usual metacharacters with a backslash.
- Floating point: numbers are exact reals. Only integral numbers, `NaN` and
  strings have a text (`toString`), so fractional numbers and `Infinity` have
  no string form in segments or choices.
- Symbols: the number and array types are `Symbol`s in the source. They are
  modelled as their description strings. A `Symbol` type interpolated into a
  message template throws a TypeError: in the duplicate message of
  `withNoDuplicates` (registry.ts:68) and in the not-found message of
  `getValue` (registry.ts:81). The model gives the message instead.
- The choice lookup uses `Map`/`Set` key equality (SameValueZero). It is
  modelled as structural equality on values.
- Imports the files do not satisfy:
  - objectField.ts imports `field` from registry.ts, which exports no `field`;
  - objectField.ts and segmentField.ts import `validate`/`serialize` from
    core.ts, which defines neither;
  - segmentChain.ts:1 imports `getParams` and `validate` from core.ts, and
    TestUtils.test.ts:2 imports `getParams`, `serialize` and `validate` from
    it; core.ts exports none of them.

  The model binds these to the per-key object step and to interface.ts's
  `validate`/`serialize`.
- The per-key object step is the design of the library: declared keys in spec
  order, each decorated with its key, then the extra-key check. Its
  implementation is not in the files modelled.
- Tuple specs: core.spec.ts:104-106 expects `[14, 'Val']` back. Following
  interface.ts, an array spec of more than one field is an object spec keyed
  by index, so the model returns an object keyed `"0"`, `"1"`.
- interface.ts `isObjectSpec` is shallow. Nested object literals become the
  undefined field there, even though core.ts's deep check accepts them. The
  model follows interface.ts.
- The `console.log` in interface.ts `isObjectSpec` is output only.
- Declaration wrappers apply `new` to arrow functions (booleanField.ts:7,
  withDoc.ts:21). Whether that throws depends on the compile target. The model
  takes the arrow function's result.
- The per-field `spec`/`getParams` getters (segmentChain.ts:83-87,
  arrayField.ts:27-31, singletonField.ts:15-17) are not modelled.
- A `SegmentField` used as a field inside a spec is not modelled. Its
  validate and serialize are modelled through the chain.
- Registry.RequestFor: a representation function may request representations
  only of the fields held directly inside its field. The proof of termination
  needs this bound. A request for any other field fails with "Could not find
  field of type '<not a sub-field>'", a message the source never produces.
- An absent optional key comes back as a property holding `undefined`, rather
  than as an absent property. The engine's tests compare with `toEqual`, which
  treats the two alike.
- Segments.Segment.constructor: requires that the field has a
  string-input variant with a known pattern. This is stronger than the source,
  which also builds segments whose choices have no text in the model
  (fractional numbers, for instance).
- Segments.ChainReadsBackWhatItWrites: applies only to parameter values that
  have a text and are the only choice with that text. `NaN` and fractional
  numbers are excluded. It also holds only when the pattern splits the path
  as it was written, which the lemma takes as a premise about the `Matcher`.
  Two groups side by side can split it otherwise: for
  `$._('a', stringField())._('b', stringField())`, `{a: 'x', b: 'y'}` writes
  `xy`, and `^(?<a>.*)(?<b>.*)$` captures `a = 'xy'` and `b = ''`.
- Values.GetOfMissingKey: `Values.Get` reads only an object's own properties
  and an array's indices. Inherited properties (`({}).constructor`), the
  `length` of arrays and strings, and string indices read as `undefined` in
  the model. So for `validate({constructor: optional(v)}, {})`
  (src/core.ts:33) the model passes `undefined` to the optional validator,
  which returns `undefined`; the source reads `Object` and calls `v` on it.
- Scalars.ParseFloat: `Number.parseFloat` of a string is modelled only for an
  optional `-`, digits and an optional fraction, and a number parses to
  itself. Leading white space, a `+` sign, a leading `.`, exponents,
  `Infinity` and arrays (whose first element is parsed) all give `NaN` in the
  model.
- Specs.RegexSource: the choice variant's pattern is the corrected one, with
  one alternative per choice text. As written, choiceField.ts:51-57 lists the
  indices; Scalars.ChoiceRegexSourceAsWritten models that pattern (see
  "Findings").
- Segments.Segment.GetRegex: the pattern it builds and remembers uses the
  corrected choice pattern, as Specs.RegexSource does.
- Segments.Segment.Validate: returns the corrected validation. As written,
  a chain without named groups rejects every path with "Didn't match"; the
  two agree on every chain with a named group.
- Segments.Segment.Serialize: returns the corrected serialization. As written,
  every named segment throws "asString is not a function"; the two agree
  whenever the as-written one succeeds.
- `toString` (segmentChain.ts:79-81, segmentField.ts:95-97) returns the pattern,
  exactly as `Segments.Segment.GetRegex` does. It has no member of its own.
- The TestUtils harness calls `spec.match(...)`, which `Segment` does not
  define. The model reads it as `validate`.

## Findings

| source | as written | input that shows it | evidently intended | confidence | as-written member | corrected member |
|---|---|---|---|---|---|---|
| packages/validator/src/fields/choiceField.ts:69-70 | `choiceField(...choices)` forwards every argument to the constructor. The constructor reads only `params.choices` of its first argument, so the choice set is empty | `choiceField('a', 'b')` then validating `'a'` fails "Invalid choice" | the arguments are the choices | not executed | Declarations.AsWrittenChoiceRejectsItsChoices | Declarations.ChoiceAcceptsExactlyItsArguments |
| packages/validator/src/fields/choiceField.ts:51-57 | the choice variant's pattern is built from `Object.keys(choices)`, which are the indices | choices `'a'`, `'b'` give the pattern `0\|1`, which no path segment `a` matches | one alternative per choice text; the chain's patterns (Specs.RegexSource) use this corrected pattern | not executed | Scalars.ChoicePatternListsIndices | Scalars.ChoicePatternListsEveryChoice |
| packages/validator/src/segmentChain.ts:69-77 | a match without named groups has no `groups`, and is reported as "Didn't match" | `$._('/health')` validating `/health` | a matched literal path yields an empty parameter object | not executed | Segments.AsWrittenLiteralChainNeverMatches | Segments.LiteralChainMatchesWithoutParams |
| packages/validator/src/fields/segmentField.ts:86-87 | serialize calls `field.asString`, which none of the string-input variants defines | any chain with a named parameter, e.g. `._('id', numberField())` serializing `{id: 1}` | each named segment writes the text of its parameter | not executed | Segments.AsWrittenSerializeFailsWithParams | Segments.ChainReadsBackWhatItWrites |
| packages/validator/src/fields/stringField.ts:35 | the docRegistry `declareField` returns `Object.assign({type}, wrapper)`, a plain object that copies no call behaviour, so `stringField()` throws | `stringField()` | `stringField(regex)` builds a string field | not executed | Declarations.DeclareStringAsWritten | Declarations.StringFieldAcceptsMatchingStrings |
