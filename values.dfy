/** JSON-like runtime values, error payloads and the small JavaScript object
    operations the validator relies on (property read, own keys, fromEntries). */
module Values {

  /** A runtime value as the validator sees it. Object properties keep the
      order in which `Object.keys` enumerates them. `NaN` is kept apart from
      `Num` because `typeof NaN === 'number'` lets it through a number field. */
  datatype Value =
    | Undefined
    | Null
    | Bool(b: bool)
    | Num(n: real)
    | NaN
    | Str(s: string)
    | Arr(items: seq<Value>)
    | Obj(props: seq<Prop>)

  datatype Prop = Prop(key: string, val: Value)

  /** One step of an error path: an object key or an array index. */
  datatype Key = KStr(name: string) | KIdx(index: nat)

  /** What a validator throws: a bare reason string, a path-qualified error,
      the extra-keys report, or a JavaScript TypeError raised by the runtime. */
  datatype Error =
    | Reason(msg: string)
    | Path(path: seq<Key>, inner: Error)
    | ExtraKeys(keys: seq<string>)
    | Crash(what: string)

  datatype Result<+T> = Ok(value: T) | Fail(error: Error)

  datatype Option<+T> = None | Some(value: T)

  /** `typeof v === 'object' && v !== null` */
  predicate IsObjectLike(v: Value) {
    v.Arr? || v.Obj?
  }

  function Keys(props: seq<Prop>): (ks: seq<string>)
    ensures |ks| == |props|
    ensures forall i :: 0 <= i < |props| ==> ks[i] == props[i].key
  {
    if props == [] then [] else [props[0].key] + Keys(props[1..])
  }

  predicate Distinct<T(==)>(s: seq<T>) {
    forall i, j :: 0 <= i < j < |s| ==> s[i] != s[j]
  }

  /** Decimal digit for 0..9. */
  function DigitChar(d: nat): (c: char)
    requires d < 10
    ensures '0' <= c <= '9'
  {
    ['0', '1', '2', '3', '4', '5', '6', '7', '8', '9'][d]
  }

  function DigitValue(c: char): nat
    requires '0' <= c <= '9'
  {
    c as int - '0' as int
  }

  predicate IsDigit(c: char) {
    '0' <= c <= '9'
  }

  /** `String(n)` for a natural number. */
  function NatToString(n: nat): (s: string)
    ensures |s| >= 1
    ensures forall i :: 0 <= i < |s| ==> IsDigit(s[i])
    decreases n
  {
    if n < 10 then [DigitChar(n)] else NatToString(n / 10) + [DigitChar(n % 10)]
  }

  /** `String(n)` for an integer. */
  function IntToString(n: int): (s: string)
    ensures |s| >= 1
  {
    if n < 0 then "-" + NatToString(-n) else NatToString(n)
  }

  predicate IsIntegral(r: real) {
    r == r.Floor as real
  }

  /** `v.toString()` for the primitive values whose text the model knows.
      None covers the values the model does not print (fractional numbers,
      arrays, objects) and `undefined`/`null`, whose `toString` throws. */
  function ToText(v: Value): (r: Option<string>)
    ensures (v.Undefined? || v.Null? || v.Obj? || v.Arr?) ==> r.None?
    ensures v.Str? ==> r == Some(v.s)
    ensures (v.Bool? || v.NaN? || (v.Num? && IsIntegral(v.n))) ==> r.Some? && |r.value| >= 1
  {
    match v
    case Bool(b) => Some(if b then "true" else "false")
    case Num(n) => if IsIntegral(n) then Some(IntToString(n.Floor)) else None
    case NaN => Some("NaN")
    case Str(s) => Some(s)
    case _ => None
  }

  /** Index of the first prop named `key`, if any. */
  function FindProp(props: seq<Prop>, key: string): (i: nat)
    ensures i <= |props|
    ensures i < |props| ==> props[i].key == key
    ensures forall j :: 0 <= j < i ==> props[j].key != key
  {
    if props == [] then 0
    else if props[0].key == key then 0
    else 1 + FindProp(props[1..], key)
  }

  /** Smallest index below `n` whose decimal text is `key`, or `n`. */
  function FindIndex(key: string, n: nat, from: nat): (i: nat)
    requires from <= n
    ensures from <= i <= n
    ensures i < n ==> NatToString(i) == key
    decreases n - from
  {
    if from == n then n
    else if NatToString(from) == key then from
    else FindIndex(key, n, from + 1)
  }

  /** `v[key]` restricted to own properties: an object's own properties and
      an array's indices. A missing property reads as undefined; inherited
      properties, `length` and string indices are not modelled and read as
      undefined too. */
  function Get(v: Value, key: string): Value {
    match v
    case Obj(props) =>
      var i := FindProp(props, key);
      if i < |props| then props[i].val else Undefined
    case Arr(items) =>
      var i := FindIndex(key, |items|, 0);
      if i < |items| then items[i] else Undefined
    case _ => Undefined
  }

  /** A property read finds the first property with the key, as an object
      literal with a repeated key keeps one; a missing key and a value that
      is neither object nor array read as undefined. */
  lemma GetReadsFirstProperty(v: Value, key: string, i: nat)
    requires v.Obj? && i < |v.props| && v.props[i].key == key
    requires forall j :: 0 <= j < i ==> v.props[j].key != key
    ensures Get(v, key) == v.props[i].val
  {
  }

  lemma GetOfMissingKey(v: Value, key: string)
    requires !(v.Obj? || v.Arr?) || (v.Obj? && key !in Keys(v.props))
    ensures Get(v, key) == Undefined
  {
  }

  /** `v[key]` where `v` may be `undefined` or `null`: those throw a TypeError. */
  function ReadProp(v: Value, key: string): (r: Result<Value>)
    ensures r.Fail? <==> v.Undefined? || v.Null?
    ensures r.Ok? ==> r.value == Get(v, key)
  {
    if v.Undefined? || v.Null? then Fail(Crash("Cannot read properties of " + (if v.Null? then "null" else "undefined")))
    else Ok(Get(v, key))
  }

  function IndexKeys(n: nat): (ks: seq<string>)
    ensures |ks| == n
    ensures forall i :: 0 <= i < n ==> ks[i] == NatToString(i)
  {
    if n == 0 then [] else IndexKeys(n - 1) + [NatToString(n - 1)]
  }

  /** `Object.keys(v)` for an array or object. */
  function OwnKeys(v: Value): seq<string> {
    match v
    case Obj(props) => Keys(props)
    case Arr(items) => IndexKeys(|items|)
    case _ => []
  }

  /** The elements of `ks` that are not in `declared`, in the order of `ks`. */
  function Without(ks: seq<string>, declared: seq<string>): (r: seq<string>)
    ensures forall k :: k in r <==> k in ks && k !in declared
    ensures |r| <= |ks|
    ensures (forall k :: k in ks ==> k in declared) ==> r == []
  {
    if ks == [] then []
    else if ks[0] in declared then Without(ks[1..], declared)
    else [ks[0]] + Without(ks[1..], declared)
  }

  /** Overwrites the value at the first occurrence of `k`, or appends `(k, v)`. */
  function Upsert<T>(ks: seq<string>, vs: seq<T>, k: string, v: T): (r: (seq<string>, seq<T>))
    requires |ks| == |vs|
    ensures |r.0| == |r.1|
    ensures k in ks ==> r.0 == ks
    ensures k !in ks ==> r.0 == ks + [k] && r.1 == vs + [v]
  {
    if ks == [] then ([k], [v])
    else if ks[0] == k then (ks, [v] + vs[1..])
    else
      var rest := Upsert(ks[1..], vs[1..], k, v);
      ([ks[0]] + rest.0, [vs[0]] + rest.1)
  }

  /** `Object.fromEntries`: a key keeps the position of its first occurrence
      and the value of its last one. */
  function FromEntries<T>(ks: seq<string>, vs: seq<T>): (r: (seq<string>, seq<T>))
    requires |ks| == |vs|
    ensures |r.0| == |r.1|
    ensures Distinct(ks) ==> r == (ks, vs)
    decreases |ks|
  {
    if ks == [] then ([], [])
    else
      var init := FromEntries(ks[..|ks| - 1], vs[..|vs| - 1]);
      assert Distinct(ks) ==> Distinct(ks[..|ks| - 1]) && ks[|ks| - 1] !in ks[..|ks| - 1];
      assert ks[..|ks| - 1] + [ks[|ks| - 1]] == ks && vs[..|vs| - 1] + [vs[|vs| - 1]] == vs;
      Upsert(init.0, init.1, ks[|ks| - 1], vs[|vs| - 1])
  }

  function Zip(ks: seq<string>, vs: seq<Value>): (props: seq<Prop>)
    requires |ks| == |vs|
    ensures |props| == |ks|
    ensures forall i :: 0 <= i < |ks| ==> props[i] == Prop(ks[i], vs[i])
  {
    if ks == [] then [] else [Prop(ks[0], vs[0])] + Zip(ks[1..], vs[1..])
  }

  lemma {:induction false} KeysOfZip(ks: seq<string>, vs: seq<Value>)
    requires |ks| == |vs|
    ensures Keys(Zip(ks, vs)) == ks
  {
  }

  function Join(parts: seq<string>, sep: string): string {
    if parts == [] then ""
    else if |parts| == 1 then parts[0]
    else parts[0] + sep + Join(parts[1..], sep)
  }
}
