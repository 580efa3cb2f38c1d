/** The leaf field rules: string, number, boolean and choice validation, the
    coercions their string-input variants apply to a raw path segment, and the
    regex sources those variants expose. */
module Scalars {
  import opened Values

  /** `value.match(pattern) !== null` for a pattern already anchored with
      `^...$`. The JavaScript regex engine is not modelled: callers pass it in. */
  type Matcher = (string, string) -> bool

  // ---------------------------------------------------------------- string

  /** StringField.validate. */
  function ValidateString(regex: Option<string>, v: Value, m: Matcher): (r: Result<Value>)
    ensures !v.Str? ==> r == Fail(Reason("Not a string"))
    ensures v.Str? && regex.None? ==> r == Ok(v)
    ensures v.Str? && regex.Some? ==>
      r == (if m("^" + regex.value + "$", v.s) then Ok(v) else Fail(Reason("Doesn't match a regex")))
  {
    if !v.Str? then Fail(Reason("Not a string"))
    else if regex.Some? && !m("^" + regex.value + "$", v.s) then Fail(Reason("Doesn't match a regex"))
    else Ok(v)
  }

  /** The `regex` getter: the configured pattern, or `.*` when there is none. */
  function StringRegexSource(regex: Option<string>): (src: string)
    ensures regex.Some? ==> src == regex.value
    ensures regex.None? ==> src == ".*"
  {
    match regex
    case Some(p) => p
    case None => ".*"
  }

  // ---------------------------------------------------------------- number

  /** NumberField.validate with spec `{canBeFloat}`. */
  function ValidateNumber(canBeFloat: bool, v: Value): (r: Result<Value>)
    ensures r.Ok? <==> (v.Num? && (canBeFloat || IsIntegral(v.n))) || (v.NaN? && canBeFloat)
    ensures r.Ok? ==> r.value == v
    ensures !(v.Num? || v.NaN?) ==> r == Fail(Reason("Not a number"))
    ensures (v.Num? || v.NaN?) && r.Fail? ==> r == Fail(Reason("Not an int"))
  {
    if !(v.Num? || v.NaN?) then Fail(Reason("Not a number"))
    else if !canBeFloat && !(v.Num? && IsIntegral(v.n)) then Fail(Reason("Not an int"))
    else Ok(v)
  }

  /** The regex of NumberFieldWithRegExp: `-?\d+`, then `(\.\d+)?` when floats are allowed. */
  function NumberRegexSource(canBeFloat: bool): (src: string)
    ensures |src| >= 5 && src[..5] == "-?\\d+"
    ensures canBeFloat <==> |src| > 5
  {
    "-?\\d+" + (if canBeFloat then "(\\.\\d+)?" else "")
  }

  /** Number of leading decimal digits of `s`. */
  function LeadingDigits(s: string): (k: nat)
    ensures k <= |s|
    ensures forall i :: 0 <= i < k ==> IsDigit(s[i])
    ensures k < |s| ==> !IsDigit(s[k])
  {
    if s == [] || !IsDigit(s[0]) then 0 else 1 + LeadingDigits(s[1..])
  }

  /** The number spelled by a run of decimal digits. */
  function DigitsValue(s: string): nat
    requires forall i :: 0 <= i < |s| ==> IsDigit(s[i])
  {
    if s == [] then 0
    else
      assert IsDigit(s[|s| - 1]);
      DigitsValue(s[..|s| - 1]) * 10 + DigitValue(s[|s| - 1])
  }

  function Pow10(k: nat): (p: nat)
    ensures p >= 1
  {
    if k == 0 then 1 else 10 * Pow10(k - 1)
  }

  /** The decimal part of `Number.parseFloat` on a string: the longest prefix
      of the form `-?\d+(\.\d*)?`, or NaN when the string does not start
      with one. Leading white space, `+`, a leading `.`, exponents and
      `Infinity` are outside this model. */
  function ParseDecimal(s: string): (r: Value)
    ensures r.Num? || r.NaN?
    ensures (|s| == 0 || !(s[0] == '-' || IsDigit(s[0]))) ==> r == NaN
    ensures r.Num? && !(|s| > 0 && s[0] == '-') ==> r.n >= 0.0
  {
    if |s| > 0 && s[0] == '-' then
      var u := UnsignedDecimal(s[1..]);
      if u.Num? then Num(-u.n) else NaN
    else UnsignedDecimal(s)
  }

  /** ParseDecimal without the sign: the leading digit run and the fraction
      after it, or NaN when the text does not start with a digit. */
  function UnsignedDecimal(s: string): (r: Value)
    ensures r.Num? || r.NaN?
    ensures r.NaN? <==> (s == [] || !IsDigit(s[0]))
    ensures r.Num? ==> r.n >= 0.0
  {
    var k := LeadingDigits(s);
    if k == 0 then NaN
    else Num(DigitsValue(s[..k]) as real + FractionValue(s[k..]))
  }

  /** What follows the whole part: a `.` and the digits after it give a
      fraction; no `.`, or no digit after it, gives 0. */
  function FractionValue(after: string): (r: real)
    ensures r >= 0.0
    ensures (after == [] || after[0] != '.') ==> r == 0.0
  {
    var f := if |after| > 0 && after[0] == '.' then LeadingDigits(after[1..]) else 0;
    if f > 0 then DigitsValue(after[1..1 + f]) as real / Pow10(f) as real else 0.0
  }

  /** The digit run of `s` ends where its first non-digit is. */
  lemma LeadingDigitsEndAt(s: string, n: nat)
    requires n <= |s|
    requires forall i :: 0 <= i < n ==> IsDigit(s[i])
    requires n < |s| ==> !IsDigit(s[n])
    ensures LeadingDigits(s) == n
  {
  }

  /** A leading `-` in front of a digit negates what the rest parses to. */
  lemma ParseDecimalOfMinus(body: string)
    requires |body| > 0 && IsDigit(body[0])
    ensures ParseDecimal(body).Num?
    ensures ParseDecimal("-" + body) == Num(-ParseDecimal(body).n)
  {
    assert ("-" + body)[0] == '-' && ("-" + body)[1..] == body;
    assert ParseDecimal(body) == UnsignedDecimal(body);
  }

  /** An unsigned digit run `d` followed by something that is not a digit
      parses to `d`'s value plus the fraction that follows. */
  lemma ParseDecimalOfDigits(d: string, t: string)
    requires |d| >= 1
    requires forall i :: 0 <= i < |d| ==> IsDigit(d[i])
    requires t == [] || !IsDigit(t[0])
    ensures ParseDecimal(d + t) == Num(DigitsValue(d) as real + FractionValue(t))
  {
    var s := d + t;
    assert s[0] == d[0];
    assert s[..|d|] == d && s[|d|..] == t;
    assert UnsignedDecimal(s) == Num(DigitsValue(d) as real + FractionValue(t)) by {
      LeadingDigitsEndAt(s, |d|);
    }
  }

  /** `.f` followed by anything that does not continue the digit run is the
      fraction `f / 10^|f|`. */
  lemma FractionValueOfText(f: string, rest: string)
    requires forall i :: 0 <= i < |f| ==> IsDigit(f[i])
    requires rest == [] || !IsDigit(rest[0])
    ensures FractionValue("." + f + rest) == DigitsValue(f) as real / Pow10(|f|) as real
  {
    PointThenSlices(f, rest);
    LeadingDigitsEndAt(f + rest, |f|);
    FractionValueOfDigits("." + f + rest, f);
  }

  lemma FractionValueOfDigits(after: string, f: string)
    requires |after| >= 1 + |f| && after[0] == '.'
    requires after[1..1 + |f|] == f
    requires LeadingDigits(after[1..]) == |f|
    requires forall i :: 0 <= i < |f| ==> IsDigit(f[i])
    ensures FractionValue(after) == DigitsValue(f) as real / Pow10(|f|) as real
  {
    if f == [] {
      assert FractionValue(after) == 0.0;
    } else {
      assert FractionValue(after) == DigitsValue(after[1..1 + |f|]) as real / Pow10(|f|) as real;
    }
  }

  lemma PointThenSlices(f: string, rest: string)
    ensures |"." + f + rest| > 0 && ("." + f + rest)[0] == '.'
    ensures ("." + f + rest)[1..] == f + rest
    ensures ("." + f + rest)[1..1 + |f|] == f
  {
  }

  /** A decimal text with a fraction, `d.f` followed by anything that does
      not continue the fraction, parses to the number it spells. With `f`
      empty this is the `12.` case, read as the whole part alone. */
  lemma ParseDecimalOfFractionText(d: string, f: string, rest: string)
    requires |d| >= 1
    requires forall i :: 0 <= i < |d| ==> IsDigit(d[i])
    requires forall i :: 0 <= i < |f| ==> IsDigit(f[i])
    requires rest == [] || !IsDigit(rest[0])
    ensures ParseDecimal(d + ("." + f + rest))
         == Num(DigitsValue(d) as real + DigitsValue(f) as real / Pow10(|f|) as real)
  {
    var t := "." + f + rest;
    assert ParseDecimal(d + t) == Num(DigitsValue(d) as real + FractionValue(t)) by {
      ParseDecimalOfDigits(d, t);
    }
    assert FractionValue(t) == DigitsValue(f) as real / Pow10(|f|) as real by {
      FractionValueOfText(f, rest);
    }
  }

  /** The same text after a leading `-` parses to the negated number. */
  lemma ParseDecimalOfNegatedFractionText(d: string, f: string, rest: string)
    requires |d| >= 1
    requires forall i :: 0 <= i < |d| ==> IsDigit(d[i])
    requires forall i :: 0 <= i < |f| ==> IsDigit(f[i])
    requires rest == [] || !IsDigit(rest[0])
    ensures ParseDecimal("-" + (d + ("." + f + rest)))
         == Num(-(DigitsValue(d) as real + DigitsValue(f) as real / Pow10(|f|) as real))
  {
    var s := d + ("." + f + rest);
    ParseDecimalOfFractionText(d, f, rest);
    assert s[0] == d[0];
    ParseDecimalOfMinus(s);
  }

  /** A digit run followed by neither a digit nor a `.` parses to the
      integer it spells: `Number.parseFloat('12abc')` is 12. */
  lemma ParseDecimalOfDigitPrefix(d: string, rest: string)
    requires |d| >= 1
    requires forall i :: 0 <= i < |d| ==> IsDigit(d[i])
    requires rest == [] || !(IsDigit(rest[0]) || rest[0] == '.')
    ensures ParseDecimal(d + rest) == Num(DigitsValue(d) as real)
  {
    ParseDecimalOfDigits(d, rest);
  }

  /** The same digit run after a leading `-` parses to the negated integer. */
  lemma ParseDecimalOfNegatedDigitPrefix(d: string, rest: string)
    requires |d| >= 1
    requires forall i :: 0 <= i < |d| ==> IsDigit(d[i])
    requires rest == [] || !(IsDigit(rest[0]) || rest[0] == '.')
    ensures ParseDecimal("-" + (d + rest)) == Num(-(DigitsValue(d) as real))
  {
    ParseDecimalOfDigitPrefix(d, rest);
    assert (d + rest)[0] == d[0];
    ParseDecimalOfMinus(d + rest);
  }

  /** `Number.parseFloat(v)` for the values the string-input number variant
      meets: strings are parsed by ParseDecimal, a number parses back to
      itself, anything else yields NaN. */
  function ParseFloat(v: Value): (r: Value)
    ensures r.Num? || r.NaN?
    ensures v.Num? ==> r == v
    ensures !(v.Str? || v.Num?) ==> r == NaN
  {
    match v
    case Str(s) => ParseDecimal(s)
    case Num(_) => v
    case _ => NaN
  }

  lemma {:induction false} DigitsOfNatToString(n: nat)
    ensures DigitsValue(NatToString(n)) == n
    decreases n
  {
    if n >= 10 {
      var s := NatToString(n);
      assert s == NatToString(n / 10) + [DigitChar(n % 10)];
      assert s[..|s| - 1] == NatToString(n / 10);
      DigitsOfNatToString(n / 10);
    }
  }

  /** The decimal text of an integer parses back to that integer. */
  lemma ParseFloatOfIntText(n: int)
    ensures ParseFloat(Str(IntToString(n))) == Num(n as real)
  {
    var s := IntToString(n);
    var digits := NatToString(if n < 0 then -n else n);
    var rest := if n < 0 then s[1..] else s;
    assert rest == digits;
    assert LeadingDigits(rest) == |rest|;
    assert rest[..|rest|] == digits;
    DigitsOfNatToString(if n < 0 then -n else n);
  }

  // ---------------------------------------------------------------- boolean

  /** The boolean field's validate: only `true` and `false` pass. */
  function ValidateBoolean(v: Value): (r: Result<Value>)
    ensures r.Ok? <==> v.Bool?
    ensures r.Ok? ==> r.value == v
    ensures r.Fail? ==> r.error == Reason("Not a boolean")
  {
    if v.Bool? then Ok(v) else Fail(Reason("Not a boolean"))
  }

  /** The string variant's coercion: 'true'/'1' become true, 'false'/'0'
      become false, any other value is left as it is. */
  function CoerceBoolean(v: Value): (r: Value)
    ensures v == Str("true") || v == Str("1") ==> r == Bool(true)
    ensures v == Str("false") || v == Str("0") ==> r == Bool(false)
    ensures v !in {Str("true"), Str("1"), Str("false"), Str("0")} ==> r == v
  {
    if v == Str("true") || v == Str("1") then Bool(true)
    else if v == Str("false") || v == Str("0") then Bool(false)
    else v
  }

  /** The string variant's serialize, `value.toString()`. */
  function BooleanToText(v: Value): (r: Result<Value>)
    ensures v.Bool? ==> r == Ok(Str(if v.b then "true" else "false"))
  {
    match ToText(v)
    case Some(t) => Ok(Str(t))
    case None => Fail(Crash("toString"))
  }

  const BooleanRegexSource: string := "true|false|1|0"

  /** The boolean string variant accepts exactly what its own serialize
      produces, and maps it back to the original boolean. */
  lemma BooleanTextRoundTrip(b: bool)
    ensures BooleanToText(Bool(b)).Ok?
    ensures ValidateBoolean(CoerceBoolean(BooleanToText(Bool(b)).value)) == Ok(Bool(b))
  {
  }

  // ---------------------------------------------------------------- choice

  /** ChoiceField.validate: membership in the choice set. */
  function ValidateChoice(choices: seq<Value>, v: Value): (r: Result<Value>)
    ensures r.Ok? <==> v in choices
    ensures r.Ok? ==> r.value == v
    ensures r.Fail? ==> r.error == Reason("Invalid choice")
  {
    if v in choices then Ok(v) else Fail(Reason("Invalid choice"))
  }

  /** Whether choice `c` is stored under key `k` of the full choice map:
      under itself and under its `toString()` text. */
  predicate MapsTo(c: Value, k: Value) {
    k == c || (ToText(c).Some? && k == Str(ToText(c).value))
  }

  /** `fullChoiceMap.get(v)`: the LAST choice stored under `v`, since later
      `set` calls overwrite earlier ones; undefined when there is none. */
  function LookupChoice(choices: seq<Value>, v: Value): (r: Value)
    ensures r != Undefined ==> r in choices && MapsTo(r, v)
    ensures (exists c :: c in choices && MapsTo(c, v)) ==> r in choices
  {
    if choices == [] then Undefined
    else if MapsTo(choices[|choices| - 1], v) then choices[|choices| - 1]
    else
      var r := LookupChoice(choices[..|choices| - 1], v);
      assert forall c :: c in choices && c != choices[|choices| - 1] ==> c in choices[..|choices| - 1];
      r
  }

  /** When some choice is stored under `v`, the lookup finds one that is. */
  lemma {:induction false} LookupChoiceMapsTo(choices: seq<Value>, v: Value, c: Value)
    requires c in choices && MapsTo(c, v)
    ensures LookupChoice(choices, v) in choices && MapsTo(LookupChoice(choices, v), v)
    decreases |choices|
  {
    var n := |choices| - 1;
    if !MapsTo(choices[n], v) {
      assert choices == choices[..n] + [choices[n]];
      assert c in choices[..n];
      LookupChoiceMapsTo(choices[..n], v, c);
    }
  }

  /** A `null` or `undefined` choice: its `toString()` throws. */
  predicate HasNullishChoice(choices: seq<Value>) {
    Null in choices || Undefined in choices
  }

  /** The TypeError of `c.toString()` on `null` or `undefined`. */
  function ToStringCrash(c: Value): Error {
    Crash("Cannot read properties of " + (if c.Null? then "null" else "undefined") + " (reading 'toString')")
  }

  /** The first `null` or `undefined` choice, where the constructor loop stops. */
  function FirstNullish(choices: seq<Value>): (c: Value)
    requires HasNullishChoice(choices)
    ensures c in choices && (c.Null? || c.Undefined?)
  {
    if choices[0].Null? || choices[0].Undefined? then choices[0]
    else
      assert choices == [choices[0]] + choices[1..];
      FirstNullish(choices[1..])
  }

  /** The constructor loop that fills `fullChoiceMap`: every choice is stored
      under itself and under its text; the loop throws at the first `null` or
      `undefined` choice. */
  method BuildChoiceMap(choices: seq<Value>) returns (r: Result<map<Value, Value>>)
    ensures r.Fail? <==> HasNullishChoice(choices)
    ensures r.Fail? ==> exists c :: c in choices && (c.Null? || c.Undefined?) && r.error == ToStringCrash(c)
    ensures r.Ok? ==> forall k :: k in r.value <==> exists c :: c in choices && MapsTo(c, k)
    ensures r.Ok? ==> forall k :: k in r.value ==> r.value[k] == LookupChoice(choices, k)
  {
    var m := map[];
    var i := 0;
    while i < |choices|
      invariant 0 <= i <= |choices|
      invariant !HasNullishChoice(choices[..i])
      invariant forall k :: k in m <==> exists c :: c in choices[..i] && MapsTo(c, k)
      invariant forall k :: k in m ==> m[k] == LookupChoice(choices[..i], k)
    {
      var c := choices[i];
      if c.Null? || c.Undefined? {
        return Fail(ToStringCrash(c));
      }
      ghost var before := m;
      m := m[c := c];
      match ToText(c) {
        case Some(t) => m := m[Str(t) := c];
        case None =>
      }
      ChoiceMapStep(choices, i, before, m);
      i := i + 1;
    }
    assert choices[..i] == choices;
    r := Ok(m);
  }

  /** One round of the constructor loop: storing `choices[i]` under itself
      and its text extends the map of the first `i` choices to the first `i + 1`. */
  lemma ChoiceMapStep(choices: seq<Value>, i: nat, before: map<Value, Value>, m: map<Value, Value>)
    requires i < |choices| && !HasNullishChoice(choices[..i]) && !(choices[i].Null? || choices[i].Undefined?)
    requires forall k :: k in before <==> exists c :: c in choices[..i] && MapsTo(c, k)
    requires forall k :: k in before ==> before[k] == LookupChoice(choices[..i], k)
    requires m == (match ToText(choices[i])
                   case Some(t) => before[choices[i] := choices[i]][Str(t) := choices[i]]
                   case None => before[choices[i] := choices[i]])
    ensures forall k :: k in m <==> exists c :: c in choices[..i + 1] && MapsTo(c, k)
    ensures forall k :: k in m ==> m[k] == LookupChoice(choices[..i + 1], k)
    ensures !HasNullishChoice(choices[..i + 1])
  {
    var c := choices[i];
    ChoiceMapUpdate(before, c, m);
    ChoiceMapExtends(choices[..i], c, before, m);
    assert choices[..i + 1] == choices[..i] + [c];
  }

  lemma ChoiceMapUpdate(before: map<Value, Value>, c: Value, m: map<Value, Value>)
    requires m == (match ToText(c)
                   case Some(t) => before[c := c][Str(t) := c]
                   case None => before[c := c])
    ensures forall k :: k in m <==> k in before || MapsTo(c, k)
    ensures forall k :: k in m ==> m[k] == (if MapsTo(c, k) then c else before[k])
  {
  }

  /** The lookup prefers the last choice stored under a key. */
  lemma LookupAfterLast(pre: seq<Value>, c: Value, k: Value)
    ensures LookupChoice(pre + [c], k) == if MapsTo(c, k) then c else LookupChoice(pre, k)
  {
    assert (pre + [c])[..|pre|] == pre;
  }

  lemma ChoiceMapExtends(pre: seq<Value>, c: Value, before: map<Value, Value>, m: map<Value, Value>)
    requires forall k :: k in before <==> exists x :: x in pre && MapsTo(x, k)
    requires forall k :: k in before ==> before[k] == LookupChoice(pre, k)
    requires forall k :: k in m <==> k in before || MapsTo(c, k)
    requires forall k :: k in m ==> m[k] == (if MapsTo(c, k) then c else before[k])
    ensures forall k :: k in m <==> exists x :: x in pre + [c] && MapsTo(x, k)
    ensures forall k :: k in m ==> m[k] == LookupChoice(pre + [c], k)
  {
    forall k
      ensures k in m <==> exists x :: x in pre + [c] && MapsTo(x, k)
    {
      if k in before {
        var x :| x in pre && MapsTo(x, k);
        assert x in pre + [c];
      }
      if MapsTo(c, k) {
        assert c in pre + [c];
      }
    }
    forall k | k in m
      ensures m[k] == LookupChoice(pre + [c], k)
    {
      LookupAfterLast(pre, c, k);
    }
  }

  /** ChoiceFieldWithRegExp.validate: look the input up, then check
      membership. A choice set holding `null` or `undefined` never yields a
      variant, since its constructor throws; using it fails with that error. */
  function ValidateChoiceText(choices: seq<Value>, v: Value): (r: Result<Value>)
    ensures HasNullishChoice(choices) ==> r == Fail(ToStringCrash(FirstNullish(choices)))
    ensures r.Ok? ==> r.value in choices && MapsTo(r.value, v)
    ensures !HasNullishChoice(choices) ==> (r.Ok? <==> exists c :: c in choices && MapsTo(c, v))
    ensures !HasNullishChoice(choices) && r.Fail? ==> r == Fail(Reason("Invalid choice"))
  {
    if HasNullishChoice(choices) then Fail(ToStringCrash(FirstNullish(choices)))
    else ValidateChoice(choices, LookupChoice(choices, v))
  }

  /** `escapeRegex`: a backslash before every regex metacharacter. */
  function EscapeRegex(s: string): (r: string)
    ensures |r| >= |s|
  {
    if s == [] then []
    else (if s[0] in RegexMetachars then ['\\', s[0]] else [s[0]]) + EscapeRegex(s[1..])
  }

  /** A text without metacharacters is its own escape. */
  lemma {:induction false} EscapeRegexKeepsPlainText(s: string)
    requires forall i :: 0 <= i < |s| ==> s[i] !in RegexMetachars
    ensures EscapeRegex(s) == s
  {
    if s != [] {
      EscapeRegexKeepsPlainText(s[1..]);
    }
  }

  /** The characters `escapeRegex` puts a backslash before. */
  const RegexMetachars: string := ".*+?^${}()|[]\\/"

  function MapEscape(parts: seq<string>): (r: seq<string>)
    ensures |r| == |parts|
    ensures forall i :: 0 <= i < |parts| ==> r[i] == EscapeRegex(parts[i])
  {
    if parts == [] then [] else [EscapeRegex(parts[0])] + MapEscape(parts[1..])
  }

  /** The text an escaped pattern stands for: each backslash-escaped
      character read as itself. */
  function Unescape(r: string): string
    decreases |r|
  {
    if r == [] then []
    else if r[0] == '\\' && |r| >= 2 then [r[1]] + Unescape(r[2..])
    else [r[0]] + Unescape(r[1..])
  }

  /** Escaping loses nothing: the escaped text reads back as the original. */
  lemma {:induction false} UnescapeEscapeRegex(s: string)
    ensures Unescape(EscapeRegex(s)) == s
    decreases |s|
  {
    if s != [] {
      UnescapeEscapeRegex(s[1..]);
      var head := if s[0] in RegexMetachars then ['\\', s[0]] else [s[0]];
      var e := head + EscapeRegex(s[1..]);
      if s[0] in RegexMetachars {
        assert e[0] == '\\' && e[1] == s[0] && e[2..] == EscapeRegex(s[1..]);
      } else {
        assert s[0] != '\\';
        assert e[0] == s[0] && e[1..] == EscapeRegex(s[1..]);
      }
    }
  }

  /** The alternatives of a pattern: split at every `|` that is not escaped. */
  function Alternatives(src: string): (alts: seq<string>)
    ensures |alts| >= 1
    decreases |src|
  {
    if src == [] then [""]
    else if src[0] == '\\' && |src| >= 2 then
      var rest := Alternatives(src[2..]);
      [src[..2] + rest[0]] + rest[1..]
    else if src[0] == '|' then [""] + Alternatives(src[1..])
    else
      var rest := Alternatives(src[1..]);
      [[src[0]] + rest[0]] + rest[1..]
  }

  /** A character that is neither `\\` nor `|` joins the first alternative. */
  lemma PlainCharJoinsFirstAlternative(c: char, x: string)
    requires c != '\\' && c != '|'
    ensures Alternatives([c] + x) == [[c] + Alternatives(x)[0]] + Alternatives(x)[1..]
  {
    assert ([c] + x)[0] == c && ([c] + x)[1..] == x;
  }

  /** An escaped character joins the first alternative, even an escaped `|`. */
  lemma EscapedCharJoinsFirstAlternative(c: char, x: string)
    ensures Alternatives(['\\', c] + x) == [['\\', c] + Alternatives(x)[0]] + Alternatives(x)[1..]
  {
    var src := ['\\', c] + x;
    assert src[0] == '\\' && src[..2] == ['\\', c] && src[2..] == x;
  }

  /** An escaped text never ends an alternative: whatever follows it continues
      the same alternative. */
  lemma {:induction false} EscapedTextStaysInOneAlternative(s: string, tail: string)
    ensures var rest := Alternatives(tail);
      Alternatives(EscapeRegex(s) + tail) == [EscapeRegex(s) + rest[0]] + rest[1..]
    decreases |s|
  {
    var rest := Alternatives(tail);
    if s != [] {
      var e := EscapeRegex(s[1..]);
      var inner := Alternatives(e + tail);
      assert inner[0] == e + rest[0] && inner[1..] == rest[1..] by {
        EscapedTextStaysInOneAlternative(s[1..], tail);
      }
      var head := if s[0] in RegexMetachars then ['\\', s[0]] else [s[0]];
      assert Alternatives(head + (e + tail)) == [head + inner[0]] + inner[1..] by {
        if s[0] in RegexMetachars {
          EscapedCharJoinsFirstAlternative(s[0], e + tail);
        } else {
          PlainCharJoinsFirstAlternative(s[0], e + tail);
        }
      }
      assert EscapeRegex(s) + tail == head + (e + tail) by {
        assert EscapeRegex(s) == head + e;
      }
      assert head + inner[0] == EscapeRegex(s) + rest[0] by {
        assert EscapeRegex(s) == head + e;
      }
    } else {
      assert EscapeRegex(s) + tail == tail;
      assert EscapeRegex(s) + rest[0] == rest[0];
      assert [rest[0]] + rest[1..] == rest;
    }
  }

  /** Joining escaped texts with `|` gives a pattern whose alternatives are
      exactly those escaped texts. */
  lemma {:induction false} AlternativesOfEscapedJoin(texts: seq<string>)
    requires |texts| >= 1
    ensures Alternatives(Join(MapEscape(texts), "|")) == MapEscape(texts)
    decreases |texts|
  {
    var es := MapEscape(texts);
    if |texts| == 1 {
      EscapedTextStaysInOneAlternative(texts[0], "");
      assert EscapeRegex(texts[0]) + "" == EscapeRegex(texts[0]);
      assert es == [EscapeRegex(texts[0])];
    } else {
      var j := Join(es[1..], "|");
      assert Alternatives(j) == es[1..] by {
        assert es[1..] == MapEscape(texts[1..]);
        AlternativesOfEscapedJoin(texts[1..]);
      }
      assert Alternatives("|" + j) == [""] + es[1..] by {
        assert ("|" + j)[0] == '|' && ("|" + j)[1..] == j;
      }
      assert Alternatives(Join(es, "|")) == [es[0] + ""] + es[1..] by {
        assert Join(es, "|") == es[0] + ("|" + j);
        assert es[0] == EscapeRegex(texts[0]);
        EscapedTextStaysInOneAlternative(texts[0], "|" + j);
      }
      assert [es[0] + ""] + es[1..] == es by {
        assert es[0] + "" == es[0];
      }
    }
  }

  /** `new RegExp('').source`: the empty pattern reads back as an empty group. */
  const EmptyRegexSource: string := "(?:)"

  /** ChoiceFieldWithRegExp's `regex` as written: `Object.keys(choices)` of an
      array are its indices, so the pattern lists "0".."n-1". */
  function ChoiceRegexSourceAsWritten(choices: seq<Value>): (src: string)
    ensures choices == [] ==> src == EmptyRegexSource
    ensures choices != [] ==> |Alternatives(src)| == |choices|
  {
    if choices == [] then EmptyRegexSource
    else
      AlternativesOfEscapedJoin(IndexKeys(|choices|));
      Join(MapEscape(IndexKeys(|choices|)), "|")
  }

  /** The as-written pattern's alternatives read as the choice indices, not
      as the choices. */
  lemma ChoicePatternListsIndices(choices: seq<Value>)
    requires |choices| >= 1
    ensures var alts := Alternatives(ChoiceRegexSourceAsWritten(choices));
      |alts| == |choices| && forall i :: 0 <= i < |choices| ==> Unescape(alts[i]) == NatToString(i)
  {
    AlternativesOfEscapedJoin(IndexKeys(|choices|));
    forall i | 0 <= i < |choices| ensures Unescape(MapEscape(IndexKeys(|choices|))[i]) == NatToString(i) {
      UnescapeEscapeRegex(IndexKeys(|choices|)[i]);
    }
  }

  /** For the choices `'a'` and `'b'` the as-written pattern is `0|1`. */
  lemma ChoicePatternCounterexample()
    ensures ChoiceRegexSourceAsWritten([Str("a"), Str("b")]) == "0|1"
  {
    assert IndexKeys(2) == ["0", "1"];
    assert EscapeRegex("0") == "0" && EscapeRegex("1") == "1";
    assert MapEscape(["0", "1"]) == ["0", "1"];
  }

  /** The `toString()` texts of the choices, when the model knows all of them. */
  function ChoiceTexts(choices: seq<Value>): (r: Option<seq<string>>)
    ensures r.Some? <==> forall i :: 0 <= i < |choices| ==> ToText(choices[i]).Some?
    ensures r.Some? ==> |r.value| == |choices|
    ensures r.Some? ==> forall i :: 0 <= i < |choices| ==> r.value[i] == ToText(choices[i]).value
  {
    if choices == [] then Some([])
    else
      match (ToText(choices[0]), ChoiceTexts(choices[1..]))
      case (Some(t), Some(ts)) =>
        assert forall i :: 1 <= i < |choices| ==> choices[i] == choices[1..][i - 1];
        Some([t] + ts)
      case (None, _) => None
      case (_, None) =>
        assert forall i :: 0 <= i < |choices[1..]| ==> choices[1..][i] == choices[i + 1];
        None
  }

  /** The choice variant's pattern as evidently intended: the escaped texts of
      the choices as alternatives. None when some choice's text is outside
      the model. */
  function ChoiceRegexSource(choices: seq<Value>): (r: Option<string>)
    ensures r.Some? <==> forall i :: 0 <= i < |choices| ==> ToText(choices[i]).Some?
    ensures r.Some? && choices != [] ==> |Alternatives(r.value)| == |choices|
  {
    match ChoiceTexts(choices)
    case Some(texts) =>
      if texts == [] then Some(EmptyRegexSource)
      else
        AlternativesOfEscapedJoin(texts);
        Some(Join(MapEscape(texts), "|"))
    case None => None
  }

  /** The intended pattern has one alternative per choice, and each
      alternative reads as that choice's text. */
  lemma ChoicePatternListsEveryChoice(choices: seq<Value>)
    requires |choices| >= 1
    requires forall i :: 0 <= i < |choices| ==> ToText(choices[i]).Some?
    ensures ChoiceRegexSource(choices).Some?
    ensures var alts := Alternatives(ChoiceRegexSource(choices).value);
      |alts| == |choices| && forall i :: 0 <= i < |choices| ==> Unescape(alts[i]) == ToText(choices[i]).value
  {
    var texts := ChoiceTexts(choices).value;
    AlternativesOfEscapedJoin(texts);
    forall i | 0 <= i < |choices| ensures Unescape(MapEscape(texts)[i]) == ToText(choices[i]).value {
      UnescapeEscapeRegex(texts[i]);
    }
  }
}
