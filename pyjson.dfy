/** The Python operations the data pipeline applies to decoded JSON, with
    the exceptions they raise on values of the wrong shape: `d.get(k, default)`,
    `d[k]`, `xs[i]`, `len`, iteration, `in`, `str.lower`, `str.startswith`,
    `int(str)` and the `>` used to compare scores. */
module PyJson {
  import opened Wrappers
  import opened Json
  import opened Text
  import Sorting

  datatype Exc = KeyError | IndexError | TypeError | AttributeError | AssertionError | ValueError

  /** `o.get(key, default)`: only a dict has `get`. */
  function Get(o: Json, key: string, default: Json): Result<Json, Exc>
  {
    match o
    case JObject(f) => Ok(if key in f then f[key] else default)
    case _ => Err(AttributeError)
  }

  /** `o[key]` with a string key. */
  function Item(o: Json, key: string): Result<Json, Exc>
  {
    match o
    case JObject(f) => if key in f then Ok(f[key]) else Err(KeyError)
    case _ => Err(TypeError)
  }

  /** `o[i]` with a non-negative integer index; a JSON object's keys are
      strings, so an integer key is never found. */
  function Index(o: Json, i: nat): Result<Json, Exc>
  {
    match o
    case JArray(xs) => if i < |xs| then Ok(xs[i]) else Err(IndexError)
    case JString(s) => if i < |s| then Ok(JString([s[i]])) else Err(IndexError)
    case JObject(_) => Err(KeyError)
    case _ => Err(TypeError)
  }

  function Len(o: Json): Result<nat, Exc>
  {
    match o
    case JArray(xs) => Ok(|xs|)
    case JString(s) => Ok(|s|)
    case JObject(f) => Ok(|f|)
    case _ => Err(TypeError)
  }

  /** `for x in o`: the items of a list, the characters of a string, the
      keys of a dict (here in code-point order). */
  function Iter(o: Json): Result<seq<Json>, Exc>
  {
    match o
    case JArray(xs) => Ok(xs)
    case JString(s) => Ok(seq(|s|, i requires 0 <= i < |s| => JString([s[i]])))
    case JObject(f) =>
      StrOrder();
      var keys := Sorting.SortedSet(f.Keys, StrLe);
      Ok(seq(|keys|, i requires 0 <= i < |keys| => JString(keys[i])))
    case _ => Err(TypeError)
  }

  /** `key in o` for a string `key`. */
  function In(key: string, o: Json): Result<bool, Exc>
  {
    match o
    case JObject(f) => Ok(key in f)
    case JArray(xs) => Ok(JString(key) in xs)
    case JString(s) => Ok(Contains(s, key))
    case _ => Err(TypeError)
  }

  function Lower(o: Json): Result<string, Exc>
  {
    match o
    case JString(s) => Ok(ToLower(s))
    case _ => Err(AttributeError)
  }

  function PyStartsWith(o: Json, prefix: string): Result<bool, Exc>
  {
    match o
    case JString(s) => Ok(StartsWith(s, prefix))
    case _ => Err(AttributeError)
  }

  // ---------------------------------------------------------------- int()

  /** The digits of an integer literal as `int()` accepts them: at least one
      digit, single underscores allowed between digits. */
  predicate IntDigits(s: string)
  {
    |s| > 0 && IsDigit(s[0]) && IsDigit(s[|s| - 1])
    && (forall i :: 0 <= i < |s| ==> IsDigit(s[i]) || s[i] == '_')
    && (forall i :: 0 < i < |s| && s[i] == '_' ==> s[i - 1] != '_')
  }

  function RemoveUnderscores(s: string): (r: string)
    ensures (forall i :: 0 <= i < |s| ==> IsDigit(s[i]) || s[i] == '_') ==> AllDigits(r)
  {
    if |s| == 0 then ""
    else (if s[0] == '_' then "" else [s[0]]) + RemoveUnderscores(s[1..])
  }

  /** `int(s)` on a string: surrounding white space, an optional sign, and
      decimal digits with optional single underscores; ValueError otherwise. */
  function PyInt(s: string): Result<int, Exc>
  {
    SignedInt(TrimEndWith(TrimStartWith(s, IsPySpace), IsPySpace))
  }

  /** An optional sign, then the magnitude. */
  function SignedInt(t: string): Result<int, Exc>
  {
    if |t| > 0 && t[0] == '-' then
      var magnitude :- UnsignedInt(t[1..]);
      Ok(-(magnitude as int))
    else if |t| > 0 && t[0] == '+' then
      UnsignedInt(t[1..])
    else
      UnsignedInt(t)
  }

  function UnsignedInt(body: string): Result<nat, Exc>
  {
    if IntDigits(body) then Ok(DigitsValue(RemoveUnderscores(body))) else Err(ValueError)
  }

  lemma DecimalIntDigits(s: string)
    requires IsDecimal(s)
    ensures IntDigits(s)
  {
  }

  /** Nothing to strip when neither end is white space. */
  lemma PyIntUntrimmed(s: string)
    requires |s| > 0 && !IsPySpace(s[0]) && !IsPySpace(s[|s| - 1])
    ensures PyInt(s) == SignedInt(s)
  {
    assert TrimStartWith(s, IsPySpace) == s;
    assert TrimEndWith(s, IsPySpace) == s;
  }

  /** A digit string's value, as `UnsignedInt` reads it. */
  lemma UnsignedDecimal(s: string)
    requires IsDecimal(s)
    ensures UnsignedInt(s) == Ok(DigitsValue(s))
  {
    DecimalIntDigits(s);
    RemoveUnderscoresOfDigits(s);
  }

  lemma {:induction false} RemoveUnderscoresOfDigits(s: string)
    requires AllDigits(s)
    ensures RemoveUnderscores(s) == s
    decreases |s|
  {
    if |s| > 0 {
      RemoveUnderscoresOfDigits(s[1..]);
      assert [s[0]] + s[1..] == s;
    }
  }

  /** `int` reads a plain run of decimal digits as its value. */
  lemma PyIntOfDecimal(s: string)
    requires IsDecimal(s)
    ensures PyInt(s) == Ok(DigitsValue(s))
  {
    assert IsDigit(s[0]) && IsDigit(s[|s| - 1]);
    PyIntUntrimmed(s);
    UnsignedDecimal(s);
  }

  /** `int(str(n))` is `n`. */
  lemma PyIntOfNatString(n: nat)
    ensures PyInt(NatToString(n)) == Ok(n)
  {
    NatToStringValue(n);
    PyIntOfDecimal(NatToString(n));
  }

  /** A string without any digit is not an integer. */
  lemma PyIntNeedsDigit(s: string)
    requires forall i :: 0 <= i < |s| ==> !IsDigit(s[i])
    ensures PyInt(s).Err?
  {
    var u := TrimStartWith(s, IsPySpace);
    var t := TrimEndWith(u, IsPySpace);
    assert PyInt(s) == SignedInt(t);
    var body := if |t| > 0 && (t[0] == '-' || t[0] == '+') then t[1..] else t;
    assert forall i :: 0 <= i < |u| ==> u[i] == s[|s| - |u| + i];
    assert forall i :: 0 <= i < |t| ==> t[i] == u[i];
    assert forall i :: 0 <= i < |body| ==> !IsDigit(body[i]) by {
      forall i | 0 <= i < |body| ensures !IsDigit(body[i]) {
        if |t| > 0 && (t[0] == '-' || t[0] == '+') {
          assert body[i] == t[i + 1];
        } else {
          assert body[i] == t[i];
        }
      }
    }
    assert !IntDigits(body);
    assert UnsignedInt(body).Err?;
  }

  // ---------------------------------------------------------------- >

  /** Python's `a > b` on two decoded JSON values: numbers (and booleans, as
      0 and 1) compare numerically, strings by code points; other mixtures
      raise TypeError. */
  function Greater(a: Json, b: Json): Result<bool, Exc>
  {
    match (a, b)
    case (JString(x), JString(y)) => Ok(!StrLe(x, y))
    case _ =>
      match (NumericValue(a), NumericValue(b))
      case (Some(x), Some(y)) => Ok(x > y)
      case _ => Err(TypeError)
  }

  function NumericValue(j: Json): Option<real>
  {
    match j
    case JNumber(n) => Some(n)
    case JBool(b) => Some(if b then 1.0 else 0.0)
    case _ => None
  }

  /** `>` between two comparable values is a strict order: never both ways. */
  lemma GreaterAsymmetric(a: Json, b: Json)
    requires Greater(a, b) == Ok(true)
    ensures Greater(b, a) == Ok(false)
  {
    if a.JString? && b.JString? {
      StrLeTotal(a.s, b.s);
    }
  }

  /** Nothing is greater than itself. */
  lemma GreaterIrreflexive(a: Json)
    ensures Greater(a, a) != Ok(true)
  {
    if a.JString? {
      StrLeTotal(a.s, a.s);
    }
  }

  /** `>` is transitive wherever it answers. */
  lemma GreaterTransitive(a: Json, b: Json, c: Json)
    requires Greater(a, b) == Ok(true) && Greater(b, c) == Ok(true)
    ensures Greater(a, c) == Ok(true)
  {
    if a.JString? && b.JString? && c.JString? {
      StrLeTotal(a.s, b.s);
      StrLeTotal(b.s, c.s);
      StrLeTransitive(c.s, b.s, a.s);
      if StrLe(a.s, c.s) {
        StrLeAntisymmetric(a.s, c.s);
      }
    }
  }

  /** The only failure of `>` is TypeError. */
  lemma GreaterFailsWithTypeError(a: Json, b: Json)
    requires Greater(a, b).Err?
    ensures Greater(a, b).error == TypeError
  {
  }
}
