/** Typed configuration values of `axconfig-gen`
    (vendor/axconfig-gen/src/value.rs): which TOML values are accepted,
    which types a value matches, the type inferred for an untyped value and
    how a value is replaced by a newer one. */
module ConfigValues {

  import opened Common
  import opened ConfigTypes

  /** The TOML values the crate distinguishes; `VOther` stands for the ones
      it refuses (floats, dates, inline tables). Integers are TOML's i64. */
  datatype Value = VBool(b: bool) | VInt(i: i64) | VStr(s: string)
                 | VArray(items: seq<Value>) | VOther

  // ---------------------------------------------------------------------
  // `is_num`

  /** The largest `usize` plus one (64-bit host). */
  const USIZE_LIMIT: nat := 0x1_0000_0000_0000_0000

  function LowerChar(c: char): char
  {
    if 'A' <= c <= 'Z' then (c as int + 32) as char else c
  }

  /** `str::to_lowercase` on the characters that can become digits or radix
      prefixes. */
  function Lower(s: string): (r: string)
    ensures |r| == |s|
  {
    seq(|s|, i requires 0 <= i < |s| => LowerChar(s[i]))
  }

  /** `replace('_', "")`. */
  function RemoveUnderscores(s: string): (r: string)
    ensures '_' !in r && |r| <= |s|
  {
    if s == [] then [] else (if s[0] == '_' then [] else [s[0]]) + RemoveUnderscores(s[1..])
  }

  /** `char::to_digit(radix)`: both letter cases are digits above 9. */
  function Digit(c: char, radix: nat): (r: Option<nat>)
    requires 2 <= radix <= 36
    ensures r.Some? ==> r.value < radix
  {
    var d := if '0' <= c <= '9' then c as int - '0' as int
             else if 'a' <= c <= 'z' then c as int - 'a' as int + 10
             else if 'A' <= c <= 'Z' then c as int - 'A' as int + 10
             else 36;
    if d < radix then Some(d) else None
  }

  predicate AllDigits(ds: string, radix: nat)
    requires 2 <= radix <= 36
  {
    forall i :: 0 <= i < |ds| ==> Digit(ds[i], radix).Some?
  }

  /** The number a digit string denotes, most significant digit first. */
  function DigitsValue(ds: string, radix: nat): nat
    requires 2 <= radix <= 36 && AllDigits(ds, radix)
  {
    if ds == [] then 0
    else DigitsValue(ds[..|ds| - 1], radix) * radix + Digit(ds[|ds| - 1], radix).value
  }

  /** `usize::from_str_radix`: an optional '+', then at least one digit, and
      a value that fits in 64 bits. */
  function FromStrRadix(s: string, radix: nat): (r: Option<nat>)
    requires 2 <= radix <= 36
    ensures r.Some? ==> r.value < USIZE_LIMIT
  {
    if s == [] then None
    else
      var ds := if s[0] == '+' then s[1..] else s;
      if ds == [] || !AllDigits(ds, radix) then None
      else if DigitsValue(ds, radix) < USIZE_LIMIT then Some(DigitsValue(ds, radix))
      else None
  }

  /** The text `is_num` reads: lower case, underscores removed. */
  function Normal(s: string): string
  {
    RemoveUnderscores(Lower(s))
  }

  /** `is_num`. */
  predicate IsNum(s: string)
  {
    NumText(Normal(s))
  }

  /** The radix-prefix dispatch of `is_num` on normalised text. */
  predicate NumText(t: string)
  {
    if StartsWith(t, "0x") then FromStrRadix(t[2..], 16).Some?
    else if StartsWith(t, "0b") then FromStrRadix(t[2..], 2).Some?
    else if StartsWith(t, "0o") then FromStrRadix(t[2..], 8).Some?
    else FromStrRadix(t, 10).Some?
  }

  /** The digits of `n` in `radix`, lower-case letters above 9. */
  function DigitChar(d: nat): char
    requires d < 36
  {
    if d < 10 then ('0' as int + d) as char else ('a' as int + d - 10) as char
  }

  function ToDigits(n: nat, radix: nat): (r: string)
    requires 2 <= radix <= 36
    ensures r != []
    decreases n
  {
    if n < radix then [DigitChar(n)] else ToDigits(n / radix, radix) + [DigitChar(n % radix)]
  }

  lemma DigitCharValue(d: nat, radix: nat)
    requires 2 <= radix <= 36 && d < radix
    ensures Digit(DigitChar(d), radix) == Some(d)
  {
  }

  /** Dividing by a radix shrinks every positive number. */
  lemma DivShrinks(n: nat, radix: nat)
    requires radix >= 2 && n > 0
    ensures n / radix < n
  {
    DivBounds(n, radix);
    if n / radix >= n {
      MulMono(2, radix, n / radix);
      assert false;
    }
  }

  lemma {:induction false} ToDigitsValue(n: nat, radix: nat)
    requires 2 <= radix <= 36
    ensures AllDigits(ToDigits(n, radix), radix)
    ensures DigitsValue(ToDigits(n, radix), radix) == n
    decreases n
  {
    if n < radix {
      DigitCharValue(n, radix);
      DigitsValueSnoc([], DigitChar(n), radix);
    } else {
      var q, m := n / radix, n % radix;
      assert n == q * radix + m;
      DivShrinks(n, radix);
      ToDigitsValue(q, radix);
      DigitCharValue(m, radix);
      assert ToDigits(n, radix) == ToDigits(q, radix) + [DigitChar(m)];
      DigitsValueSnoc(ToDigits(q, radix), DigitChar(m), radix);
    }
  }

  /** Appending a digit multiplies the value by the radix and adds the digit. */
  lemma DigitsValueSnoc(ds: string, c: char, radix: nat)
    requires 2 <= radix <= 36 && AllDigits(ds, radix) && Digit(c, radix).Some?
    ensures AllDigits(ds + [c], radix)
    ensures DigitsValue(ds + [c], radix) == DigitsValue(ds, radix) * radix + Digit(c, radix).value
  {
    assert (ds + [c])[..|ds|] == ds;
  }

  lemma DigitsPlain(ds: string, radix: nat)
    requires 2 <= radix <= 36 && AllDigits(ds, radix)
    ensures '_' !in ds && '+' !in ds
  {
    forall i | 0 <= i < |ds|
      ensures ds[i] != '_' && ds[i] != '+'
    {
      assert Digit(ds[i], radix).Some?;
    }
  }

  lemma ToDigitsLower(n: nat, radix: nat)
    requires 2 <= radix <= 36
    ensures Lower(ToDigits(n, radix)) == ToDigits(n, radix)
  {
    var ds := ToDigits(n, radix);
    forall i | 0 <= i < |ds|
      ensures LowerChar(ds[i]) == ds[i]
    {
      ToDigitsNoUpper(n, radix, i);
    }
  }

  /** No character of a digit string is an upper-case letter. */
  lemma {:induction false} ToDigitsNoUpper(n: nat, radix: nat, i: nat)
    requires 2 <= radix <= 36 && i < |ToDigits(n, radix)|
    ensures !('A' <= ToDigits(n, radix)[i] <= 'Z')
    decreases n
  {
    if n >= radix && i < |ToDigits(n, radix)| - 1 {
      DivShrinks(n, radix);
      ToDigitsNoUpper(n / radix, radix, i);
    }
  }

  lemma {:induction false} RemoveUnderscoresFree(s: string)
    requires '_' !in s
    ensures RemoveUnderscores(s) == s
  {
    if s != [] {
      RemoveUnderscoresFree(s[1..]);
      assert s == [s[0]] + s[1..];
    }
  }

  /** The digits of any number fit for `usize` are read back exactly. */
  lemma FromStrRadixDigits(n: nat, radix: nat)
    requires 2 <= radix <= 36
    ensures FromStrRadix(ToDigits(n, radix), radix) == (if n < USIZE_LIMIT then Some(n) else None)
  {
    ToDigitsValue(n, radix);
    DigitsPlain(ToDigits(n, radix), radix);
    assert ToDigits(n, radix)[0] in ToDigits(n, radix);
  }

  lemma NumTextDecimal(ds: string)
    requires AllDigits(ds, 10)
    ensures NumText(ds) == FromStrRadix(ds, 10).Some?
  {
    if |ds| >= 2 {
      assert Digit(ds[1], 10).Some?;
      assert ds[..2][1] == ds[1];
    }
  }

  /** A decimal numeral is a number exactly when its value fits `usize`. */
  lemma IsNumDecimal(n: nat)
    ensures IsNum(ToDigits(n, 10)) <==> n < USIZE_LIMIT
  {
    var ds := ToDigits(n, 10);
    ToDigitsValue(n, 10);
    DigitsPlain(ds, 10);
    ToDigitsLower(n, 10);
    RemoveUnderscoresFree(ds);
    assert Normal(ds) == ds;
    NumTextDecimal(ds);
    FromStrRadixDigits(n, 10);
  }

  /** "0x" followed by the hexadecimal digits of any `usize` is a number. */
  lemma IsNumHex(n: nat)
    requires n < USIZE_LIMIT
    ensures IsNum("0x" + ToDigits(n, 16))
  {
    var ds := ToDigits(n, 16);
    var s := "0x" + ds;
    ToDigitsValue(n, 16);
    DigitsPlain(ds, 16);
    ToDigitsLower(n, 16);
    LowerAppend("0x", ds);
    assert Lower(s) == s;
    assert '_' !in s;
    RemoveUnderscoresFree(s);
    FromStrRadixDigits(n, 16);
    assert s[2..] == ds;
  }

  lemma {:induction false} RemoveUnderscoresAppend(a: string, b: string)
    ensures RemoveUnderscores(a + b) == RemoveUnderscores(a) + RemoveUnderscores(b)
  {
    if a != [] {
      RemoveUnderscoresAppend(a[1..], b);
      assert (a + b)[1..] == a[1..] + b;
    } else {
      assert a + b == b;
    }
  }

  lemma LowerAppend(a: string, b: string)
    ensures Lower(a + b) == Lower(a) + Lower(b)
  {
  }

  /** Underscores are digit separators: removing one never changes whether
      a text is a number. */
  lemma IsNumUnderscore(a: string, b: string)
    ensures IsNum(a + "_" + b) <==> IsNum(a + b)
  {
    NormalUnderscore(a, b);
  }

  lemma NormalUnderscore(a: string, b: string)
    ensures Normal(a + "_" + b) == Normal(a + b)
  {
    NormalDrop(a, "_", b);
  }

  lemma NormalDrop(a: string, u: string, b: string)
    requires u == ['_']
    ensures Normal(a + u + b) == Normal(a + b)
  {
    assert Lower(a + u + b) == Lower(a) + u + Lower(b) by {
      LowerAppend(a + u, b);
      LowerAppend(a, u);
    }
    LowerAppend(a, b);
    RemoveDrop(Lower(a), u, Lower(b));
  }

  lemma RemoveDrop(x: string, u: string, y: string)
    requires u == ['_']
    ensures RemoveUnderscores(x + u + y) == RemoveUnderscores(x + y)
  {
    var rx, ry := RemoveUnderscores(x), RemoveUnderscores(y);
    assert RemoveUnderscores(x + u) == rx by {
      RemoveUnderscoresAppend(x, u);
      assert RemoveUnderscores(u) == [];
      assert rx + [] == rx;
    }
    assert RemoveUnderscores(x + u + y) == rx + ry by {
      RemoveUnderscoresAppend(x + u, y);
    }
    RemoveUnderscoresAppend(x, y);
  }

  /** Letter case never changes whether a text is a number. */
  lemma IsNumUpper(s: string)
    ensures IsNum(Lower(s)) <==> IsNum(s)
  {
    assert Lower(Lower(s)) == Lower(s);
  }

  // ---------------------------------------------------------------------
  // `value_is_valid`, `value_type_matches`

  /** `value_is_valid`: booleans, integers, strings and arrays of these. */
  predicate ValueIsValid(v: Value)
  {
    match v
    case VArray(items) => forall i :: 0 <= i < |items| ==> ValueIsValid(items[i])
    case VOther => false
    case _ => true
  }

  /** `value_type_matches`. */
  predicate TypeMatches(v: Value, t: ConfigType)
  {
    match v
    case VBool(_) => t == Bool
    case VInt(_) => t == Int || t == Uint
    case VStr(s) => if IsNum(s) then t == Int || t == Uint || t == Str else t == Str
    case VArray(items) =>
      (match t
       case Tuple(ts) => |items| == |ts| && forall i :: 0 <= i < |items| ==> TypeMatches(items[i], ts[i])
       case Array(e) => forall i :: 0 <= i < |items| ==> TypeMatches(items[i], e)
       case _ => false)
    case VOther => false
  }

  /** Only valid values match a type. */
  lemma {:induction false} MatchesValid(v: Value, t: ConfigType)
    requires TypeMatches(v, t)
    ensures ValueIsValid(v)
    decreases v
  {
    match v
    case VArray(items) =>
      match t {
        case Tuple(ts) =>
          forall i | 0 <= i < |items|
            ensures ValueIsValid(items[i])
          {
            MatchesValid(items[i], ts[i]);
          }
        case Array(e) =>
          forall i | 0 <= i < |items|
            ensures ValueIsValid(items[i])
          {
            MatchesValid(items[i], e);
          }
        case _ =>
      }
    case _ =>
  }

  /** A string matches exactly `str`, or also `int` and `uint` when it is a
      number. */
  lemma StringMatches(s: string, t: ConfigType)
    ensures TypeMatches(VStr(s), t) <==> (t == Str || (IsNum(s) && (t == Int || t == Uint)))
  {
  }

  /** A tuple type needs as many elements as it has items. */
  lemma TupleMatchLength(items: seq<Value>, ts: seq<ConfigType>)
    requires |items| != |ts|
    ensures !TypeMatches(VArray(items), Tuple(ts))
  {
  }

  // ---------------------------------------------------------------------
  // `inferred_type`

  /** The loop of `inferred_type` from index `i`: it stops at the first
      `Unknown` or at the first type that differs from the first one. */
  function ClassifyFrom(types: seq<ConfigType>, i: nat): ConfigType
    requires 0 < |types| && i <= |types|
    decreases |types| - i
  {
    if i == |types| then Array(types[0])
    else if types[i] == Unknown then Unknown
    else if types[i] != types[0] then Tuple(types)
    else ClassifyFrom(types, i + 1)
  }

  /** The type of an array whose elements have the types `types`, as
      `inferred_type` computes it. */
  function Classify(types: seq<ConfigType>): ConfigType
  {
    if types == [] then Unknown else ClassifyFrom(types, 0)
  }

  /** The same with every element type looked at before deciding: an
      `Unknown` anywhere makes the array's type unknown. */
  function ClassifyChecked(types: seq<ConfigType>): ConfigType
  {
    if types == [] || Unknown in types then Unknown
    else if forall i :: 0 <= i < |types| ==> types[i] == types[0] then Array(types[0])
    else Tuple(types)
  }

  /** The loop of `inferred_type` over the element types. */
  method ClassifyTypes(types: seq<ConfigType>) returns (r: ConfigType)
    ensures r == Classify(types)
  {
    if |types| == 0 {
      return Unknown;
    }
    var allSame := true;
    var i := 0;
    while i < |types|
      invariant 0 <= i <= |types|
      invariant allSame
      invariant ClassifyFrom(types, 0) == ClassifyFrom(types, i)
    {
      if types[i] == Unknown {
        return Unknown;
      }
      if types[i] != types[0] {
        allSame := false;
        break;
      }
      i := i + 1;
    }
    if allSame {
      r := Array(types[0]);
    } else {
      r := Tuple(types);
    }
  }

  lemma {:induction false} ClassifyFromArray(types: seq<ConfigType>, i: nat)
    requires 0 < |types| && i <= |types|
    requires forall j :: 0 <= j < i ==> types[j] == types[0]
    requires types[0] != Unknown
    ensures ClassifyFrom(types, i).Array? <==> forall j :: i <= j < |types| ==> types[j] == types[0]
    ensures ClassifyFrom(types, i).Array? ==> ClassifyFrom(types, i).elem == types[0]
    ensures ClassifyFrom(types, i).Tuple? ==> ClassifyFrom(types, i).items == types
    ensures ClassifyFrom(types, i) == Unknown ==> Unknown in types[i..]
    ensures ClassifyFrom(types, i) == Unknown || ClassifyFrom(types, i).Array? || ClassifyFrom(types, i).Tuple?
    decreases |types| - i
  {
    if i < |types| && types[i] == types[0] {
      ClassifyFromArray(types, i + 1);
      if ClassifyFrom(types, i) == Unknown {
        assert types[i + 1..] == types[i..][1..];
      }
    } else if i < |types| {
      assert types[i] == types[i..][0];
    }
  }

  /** The inferred array type: `[t]` exactly when every element has the
      first element's known type; otherwise a tuple of the element types or
      unknown. */
  lemma ClassifyCases(types: seq<ConfigType>)
    ensures Classify(types).Array? <==>
      (types != [] && types[0] != Unknown && forall j :: 0 <= j < |types| ==> types[j] == types[0])
    ensures Classify(types).Array? ==> Classify(types).elem == types[0]
    ensures Classify(types).Tuple? ==> Classify(types).items == types
    ensures Classify(types) == Unknown || Classify(types).Array? || Classify(types).Tuple?
  {
    if types != [] && types[0] != Unknown {
      ClassifyFromArray(types, 0);
    }
  }

  /** An `Unknown` after the first differing element type goes unseen. */
  lemma ClassifyMissesUnknown()
    ensures Classify([Uint, Str, Unknown]) == Tuple([Uint, Str, Unknown])
  {
  }

  /** The corrected classification agrees with the loop whenever no element
      type is unknown. */
  lemma {:induction false} ClassifyAgrees(types: seq<ConfigType>)
    requires Unknown !in types
    ensures Classify(types) == ClassifyChecked(types)
  {
    if types != [] {
      ClassifyFromArray(types, 0);
      assert types[0..] == types;
    }
  }

  /** `collect::<ConfigResult<Vec<_>>>()`: the first error, or all values. */
  function Collect(rs: seq<Result<ConfigType, ConfigErr>>): (r: Result<seq<ConfigType>, ConfigErr>)
    ensures r.Ok? <==> forall i :: 0 <= i < |rs| ==> rs[i].Ok?
    ensures r.Ok? ==> |r.value| == |rs| && forall i :: 0 <= i < |rs| ==> r.value[i] == rs[i].value
    ensures r.Err? ==> exists i :: 0 <= i < |rs| && rs[i] == Err(r.error)
  {
    if rs == [] then Ok([])
    else if rs[0].Err? then Err(rs[0].error)
    else
      match Collect(rs[1..])
      case Err(e) => Err(e)
      case Ok(vs) => Ok([rs[0].value] + vs)
  }

  /** `inferred_type`, with the array classification as written
      (`checked == false`) or corrected (`checked == true`). */
  function Infer(v: Value, checked: bool): (r: Result<ConfigType, ConfigErr>)
    ensures r.Err? ==> r.error == InvalidValue
  {
    match v
    case VBool(_) => Ok(Bool)
    case VInt(i) => Ok(if i < 0 then Int else Uint)
    case VStr(s) => Ok(if IsNum(s) then Uint else Str)
    case VArray(items) =>
      var rs := seq(|items|, i requires 0 <= i < |items| => Infer(items[i], checked));
      (match Collect(rs)
       case Err(e) => Err(e)
       case Ok(types) => Ok(if checked then ClassifyChecked(types) else Classify(types)))
    case VOther => Err(InvalidValue)
  }

  /** `inferred_type` as written. */
  function InferredType(v: Value): Result<ConfigType, ConfigErr>
  {
    Infer(v, false)
  }

  /** `inferred_type` with the corrected classification. */
  function InferredTypeChecked(v: Value): Result<ConfigType, ConfigErr>
  {
    Infer(v, true)
  }

  /** Inference fails exactly on the values `value_is_valid` refuses. */
  lemma {:induction false} InferOk(v: Value, checked: bool)
    ensures Infer(v, checked).Ok? <==> ValueIsValid(v)
    decreases v
  {
    match v
    case VArray(items) =>
      var rs := seq(|items|, i requires 0 <= i < |items| => Infer(items[i], checked));
      forall i | 0 <= i < |items|
        ensures rs[i].Ok? <==> ValueIsValid(items[i])
      {
        InferOk(items[i], checked);
      }
    case _ =>
  }

  /** The element types of a valid array. */
  function ElementTypes(items: seq<Value>, checked: bool): (r: seq<ConfigType>)
    requires forall i :: 0 <= i < |items| ==> ValueIsValid(items[i])
    ensures |r| == |items|
  {
    seq(|items|, i requires 0 <= i < |items| =>
      InferOk(items[i], checked); Infer(items[i], checked).value)
  }

  lemma InferArray(items: seq<Value>, checked: bool)
    requires forall i :: 0 <= i < |items| ==> ValueIsValid(items[i])
    ensures Infer(VArray(items), checked) ==
      Ok(if checked then ClassifyChecked(ElementTypes(items, checked))
         else Classify(ElementTypes(items, checked)))
  {
    var rs := seq(|items|, i requires 0 <= i < |items| => Infer(items[i], checked));
    forall i | 0 <= i < |items|
      ensures rs[i].Ok?
    {
      InferOk(items[i], checked);
    }
    assert Collect(rs).value == ElementTypes(items, checked);
  }

  /** Integers infer `int` when negative and `uint` otherwise; strings infer
      `uint` when they are numbers and `str` otherwise. */
  lemma InferScalars(i: i64, s: string)
    ensures InferredType(VInt(i)) == Ok(if i < 0 then Int else Uint)
    ensures InferredType(VStr(s)) == Ok(if IsNum(s) then Uint else Str)
    ensures InferredType(VBool(true)) == Ok(Bool) && InferredType(VOther) == Err(InvalidValue)
  {
  }

  /** An empty array has no inferable type. */
  lemma InferEmpty()
    ensures InferredType(VArray([])) == Ok(Unknown)
    ensures InferredTypeChecked(VArray([])) == Ok(Unknown)
  {
    assert Collect([]) == Ok([]);
  }

  /** With the corrected classification every inferred type is either
      unknown or a known type that the value matches. */
  lemma {:induction false} InferredCheckedSound(v: Value)
    requires ValueIsValid(v)
    ensures InferredTypeChecked(v).Ok?
    ensures InferredTypeChecked(v).value == Unknown ||
      (Known(InferredTypeChecked(v).value) && TypeMatches(v, InferredTypeChecked(v).value))
    decreases v
  {
    InferOk(v, true);
    match v
    case VStr(s) =>
    case VArray(items) =>
      var types := ElementTypes(items, true);
      InferArray(items, true);
      forall i | 0 <= i < |items|
        ensures types[i] == Unknown || (Known(types[i]) && TypeMatches(items[i], types[i]))
      {
        InferredCheckedSound(items[i]);
      }
      if types != [] && Unknown !in types {
        forall i | 0 <= i < |types|
          ensures Known(types[i]) && TypeMatches(items[i], types[i])
        {
          assert types[i] in types;
        }
      }
    case _ =>
  }

  // ---------------------------------------------------------------------
  // `ConfigValue`

  /** `ConfigValue`: a value and the type it was declared with, if any. */
  datatype ConfigValue = ConfigValue(value: Value, ty: Option<ConfigType>)

  /** What every constructor establishes and `update` keeps: a declared type
      is matched by the value. */
  predicate Consistent(cv: ConfigValue)
  {
    ValueIsValid(cv.value) && (cv.ty.Some? ==> TypeMatches(cv.value, cv.ty.value))
  }

  /** `from_raw_value`. */
  function FromRawValue(v: Value): (r: Result<ConfigValue, ConfigErr>)
    ensures r.Ok? <==> ValueIsValid(v)
    ensures r.Ok? ==> r.value.value == v && r.value.ty.None? && Consistent(r.value)
    ensures r.Err? ==> r.error == InvalidValue
  {
    if !ValueIsValid(v) then Err(InvalidValue) else Ok(ConfigValue(v, None))
  }

  /** `from_raw_value_type`. */
  function FromRawValueType(v: Value, t: ConfigType): (r: Result<ConfigValue, ConfigErr>)
    ensures r.Ok? <==> ValueIsValid(v) && TypeMatches(v, t)
    ensures r.Ok? ==> r.value == ConfigValue(v, Some(t)) && Consistent(r.value)
    ensures r.Err? ==> r.error == (if ValueIsValid(v) then ValueTypeMismatch else InvalidValue)
  {
    if !ValueIsValid(v) then Err(InvalidValue)
    else if TypeMatches(v, t) then Ok(ConfigValue(v, Some(t)))
    else Err(ValueTypeMismatch)
  }

  /** `new_with_type`: `parsed` is the TOML parser's reading of the value
      text (`None` when it is not TOML). */
  function NewWithType(parsed: Option<Value>, ty: string): (r: Result<ConfigValue, ConfigErr>)
    ensures parsed.None? ==> r == Err(Parse)
    ensures r.Ok? ==> parsed.Some? && New(ty).Ok? && r.value == ConfigValue(parsed.value, Some(New(ty).value))
    ensures r.Ok? ==> Consistent(r.value)
  {
    if parsed.None? then Err(Parse)
    else match New(ty)
      case Err(e) => Err(e)
      case Ok(t) => FromRawValueType(parsed.value, t)
  }

  /** `update`: `Ok` with the new state, or the error that leaves the old
      one in place. */
  function Update(cur: ConfigValue, nv: ConfigValue): (r: Result<ConfigValue, ConfigErr>)
    ensures r.Err? ==> r.error == ValueTypeMismatch
    ensures r.Ok? ==> r.value.value == nv.value
  {
    match (cur.ty, nv.ty)
    case (Some(t), Some(nt)) =>
      if t != nt then Err(ValueTypeMismatch) else Ok(ConfigValue(nv.value, cur.ty))
    case (Some(t), None) =>
      if !TypeMatches(nv.value, t) then Err(ValueTypeMismatch) else Ok(ConfigValue(nv.value, cur.ty))
    case (None, Some(nt)) =>
      if !TypeMatches(cur.value, nt) then Err(ValueTypeMismatch) else Ok(ConfigValue(nv.value, nv.ty))
    case (None, None) => Ok(ConfigValue(nv.value, None))
  }

  /** `update` refuses exactly a clash of declared types, a new value that
      does not match the declared type, or a declared new type the old value
      does not match. */
  lemma UpdateRejects(cur: ConfigValue, nv: ConfigValue)
    ensures Update(cur, nv).Err? <==>
      (cur.ty.Some? && nv.ty.Some? && cur.ty != nv.ty) ||
      (cur.ty.Some? && nv.ty.None? && !TypeMatches(nv.value, cur.ty.value)) ||
      (cur.ty.None? && nv.ty.Some? && !TypeMatches(cur.value, nv.ty.value))
  {
  }

  /** A declared type is never lost or changed, and a successful update of
      consistent values is consistent. */
  lemma UpdateKeepsType(cur: ConfigValue, nv: ConfigValue)
    requires Consistent(cur) && Consistent(nv) && Update(cur, nv).Ok?
    ensures cur.ty.Some? ==> Update(cur, nv).value.ty == cur.ty
    ensures cur.ty.None? ==> Update(cur, nv).value.ty == nv.ty
    ensures Consistent(Update(cur, nv).value)
  {
  }

  // ---------------------------------------------------------------------
  // Cases from the crate's tests (vendor/axconfig-gen/src/tests.rs)

  lemma ZeroIsNum()
    ensures IsNum("0")
  {
    assert ToDigits(0, 10) == "0";
    IsNumDecimal(0);
  }

  lemma LetterIsNotNum()
    ensures !IsNum("a")
  {
    assert Normal("a") == "a" by {
      assert Lower("a") == "a";
      assert RemoveUnderscores("a") == "a";
    }
    assert Digit('a', 10).None?;
  }

  lemma InferMixed()
    ensures InferredType(VArray([VStr("0"), VStr("a"), VBool(true), VInt(-2)]))
         == Ok(Tuple([Uint, Str, Bool, Int]))
  {
    var items := [VStr("0"), VStr("a"), VBool(true), VInt(-2)];
    MixedElements(items);
    InferArray(items, false);
    MixedClassify();
  }

  lemma MixedElements(items: seq<Value>)
    requires items == [VStr("0"), VStr("a"), VBool(true), VInt(-2)]
    ensures forall i :: 0 <= i < |items| ==> ValueIsValid(items[i])
    ensures ElementTypes(items, false) == [Uint, Str, Bool, Int]
  {
    ZeroIsNum();
    LetterIsNotNum();
    InferScalars(-2, "0");
    InferScalars(-2, "a");
  }

  lemma MixedClassify()
    ensures Classify([Uint, Str, Bool, Int]) == Tuple([Uint, Str, Bool, Int])
  {
  }

  lemma InferNestedEmpty()
    ensures InferredType(VArray([VArray([])])) == Ok(Unknown)
  {
    InferEmpty();
    InferArray([VArray([])], false);
    assert ElementTypes([VArray([])], false) == [Unknown];
  }

  lemma InferNested()
    ensures InferredType(VArray([VArray([VInt(1)]), VArray([VInt(2), VInt(3)])])) == Ok(Array(Array(Uint)))
  {
    var a := VArray([VInt(1)]);
    var b := VArray([VInt(2), VInt(3)]);
    InferArray([VInt(1)], false);
    assert ElementTypes([VInt(1)], false) == [Uint];
    assert Classify([Uint]) == Array(Uint);
    InferArray([VInt(2), VInt(3)], false);
    assert ElementTypes([VInt(2), VInt(3)], false) == [Uint, Uint];
    assert ClassifyFrom([Uint, Uint], 1) == Array(Uint);
    assert Classify([Uint, Uint]) == Array(Uint);
    InferArray([a, b], false);
    assert ElementTypes([a, b], false) == [Array(Uint), Array(Uint)];
    assert ClassifyFrom([Array(Uint), Array(Uint)], 1) == Array(Array(Uint));
  }

  lemma MatchExamples()
    ensures TypeMatches(VArray([]), Array(Int))
    ensures TypeMatches(VArray([VArray([])]), Array(Tuple([])))
    ensures !TypeMatches(VBool(true), Int)
    ensures TypeMatches(VInt(-2333), Uint)
  {
  }

  lemma LetterMismatch()
    ensures !TypeMatches(VArray([VStr("a")]), Array(Uint))
  {
    LetterIsNotNum();
    assert !TypeMatches(VStr("a"), Uint);
    assert [VStr("a")][0] == VStr("a");
  }

  /** The inference mistake: an `Unknown` element type after a differing one
      ends up inside a tuple type. */
  lemma InferUnknownInTuple()
    ensures InferredType(VArray([VInt(1), VStr("a"), VArray([])])) == Ok(Tuple([Uint, Str, Unknown]))
  {
    var items := [VInt(1), VStr("a"), VArray([])];
    var types := [Uint, Str, Unknown];
    LetterIsNotNum();
    InferEmpty();
    InferArray(items, false);
    assert ElementTypes(items, false) == types;
    assert ClassifyFrom(types, 1) == Tuple(types);
  }

  /** That tuple type has no Rust spelling (`to_rust_type` panics on it), and
      the value it was inferred from does not match it. */
  lemma UnknownTupleUnusable()
    ensures ToRustType(Tuple([Uint, Str, Unknown])).None?
    ensures !TypeMatches(VArray([VInt(1), VStr("a"), VArray([])]), Tuple([Uint, Str, Unknown]))
  {
    var items := [VInt(1), VStr("a"), VArray([])];
    assert [Uint, Str, Unknown][2] == Unknown;
    assert !Known(Tuple([Uint, Str, Unknown]));
    assert !TypeMatches(items[2], Unknown);
  }

  /** The corrected inference reports the same array as unknown. */
  lemma InferUnknownInTupleChecked()
    ensures InferredTypeChecked(VArray([VInt(1), VStr("a"), VArray([])])) == Ok(Unknown)
  {
    var items := [VInt(1), VStr("a"), VArray([])];
    var types := [Uint, Str, Unknown];
    LetterIsNotNum();
    InferEmpty();
    InferArray(items, true);
    assert ElementTypes(items, true) == types;
    assert types[2] in types;
  }
}
