/** The JavaScript values the engine passes around (parsed directives,
    inputs, option objects) and the few language rules it depends on:
    truthiness, property reads and writes in sloppy mode, and `Object.keys`. */
module JsValues {
  import opened Wrappers
  import opened Errors

  /** Numbers are integers here; objects are values, not references. */
  datatype JsValue =
    | Undefined
    | Null
    | Bool(b: bool)
    | Num(n: int)
    | Str(s: string)
    | Arr(items: seq<JsValue>)
    | Obj(props: map<string, JsValue>)

  predicate Truthy(v: JsValue) {
    match v
    case Undefined => false
    case Null => false
    case Bool(b) => b
    case Num(n) => n != 0
    case Str(s) => s != ""
    case _ => true
  }

  /** `v == null` (loose equality) */
  predicate IsNullish(v: JsValue) {
    v.Undefined? || v.Null?
  }

  // ----- array indices as property names -----

  predicate IsDigit(c: char) {
    '0' <= c <= '9'
  }

  predicate AllDigits(s: string) {
    forall i :: 0 <= i < |s| ==> IsDigit(s[i])
  }

  function DigitChar(d: nat): char
    requires d < 10
  {
    (48 + d) as char
  }

  function DigitValue(c: char): nat
    requires IsDigit(c)
  {
    c as int - 48
  }

  /** The decimal numeral of `n`, as `String(n)` writes it. */
  function Decimal(n: nat): (r: string)
    ensures |r| >= 1 && AllDigits(r)
  {
    if n < 10 then [DigitChar(n)] else Decimal(n / 10) + [DigitChar(n % 10)]
  }

  function DigitsValue(s: string): nat
    requires AllDigits(s)
  {
    if s == [] then 0 else DigitsValue(s[..|s| - 1]) * 10 + DigitValue(s[|s| - 1])
  }

  /** The array index a property name denotes: a canonical numeral. */
  function ParseIndex(k: string): Option<nat> {
    if k != [] && AllDigits(k) && (k[0] != '0' || |k| == 1) then Some(DigitsValue(k)) else None
  }

  lemma {:induction false} DecimalValue(n: nat)
    ensures DigitsValue(Decimal(n)) == n
  {
    if n >= 10 {
      DecimalValue(n / 10);
      var r := Decimal(n);
      assert r[..|r| - 1] == Decimal(n / 10);
    }
  }

  lemma {:induction false} DecimalLeading(n: nat)
    requires n >= 1
    ensures Decimal(n)[0] != '0'
  {
    if n >= 10 {
      DecimalLeading(n / 10);
    }
  }

  /** Parsing the numeral of an index gives the index back. */
  lemma DecimalRoundTrip(n: nat)
    ensures ParseIndex(Decimal(n)) == Some(n)
  {
    DecimalValue(n);
    if n >= 1 {
      DecimalLeading(n);
    }
  }

  /** The property names of the indices below `n`. */
  function IndexKeys(n: nat): set<string> {
    set i | 0 <= i < n :: Decimal(i)
  }

  lemma IndexKeyParses(n: nat, k: string)
    requires k in IndexKeys(n)
    ensures ParseIndex(k).Some? && ParseIndex(k).value < n
  {
    var i :| 0 <= i < n && Decimal(i) == k;
    DecimalRoundTrip(i);
  }

  // ----- properties -----

  /** `Object.keys(v)` for a value that is not null or undefined. */
  function OwnKeys(v: JsValue): set<string> {
    match v
    case Obj(p) => p.Keys
    case Arr(items) => IndexKeys(|items|)
    case Str(s) => IndexKeys(|s|)
    case _ => {}
  }

  /** `v[k]` for one of `v`'s own keys. */
  function OwnProp(v: JsValue, k: string): JsValue
    requires k in OwnKeys(v)
  {
    match v
    case Obj(p) => p[k]
    case Arr(items) => IndexKeyParses(|items|, k); items[ParseIndex(k).value]
    case Str(s) => IndexKeyParses(|s|, k); Str([s[ParseIndex(k).value]])
    case _ => Undefined
  }

  /** An own property that is an object is part of its owner. */
  lemma OwnPropSmaller(v: JsValue, k: string)
    requires k in OwnKeys(v) && (OwnProp(v, k).Obj? || OwnProp(v, k).Arr?)
    ensures OwnProp(v, k) < v
  {
    match v
    case Obj(p) =>
    case Arr(items) =>
      IndexKeyParses(|items|, k);
      assert items[ParseIndex(k).value] in items;
    case Str(s) =>
  }

  /** `v[k]`: a TypeError on null and undefined, `undefined` for a missing
      property. Only own properties are modelled (no prototype chain). */
  function Prop(v: JsValue, k: string): Result<JsValue, Failure> {
    match v
    case Undefined => Failure(TypeError)
    case Null => Failure(TypeError)
    case Obj(p) => Success(if k in p then p[k] else Undefined)
    case Arr(items) =>
      Success(if k == "length" then Num(|items|)
              else match ParseIndex(k)
                case Some(i) => if i < |items| then items[i] else Undefined
                case None => Undefined)
    case Str(s) =>
      Success(if k == "length" then Num(|s|)
              else match ParseIndex(k)
                case Some(i) => if i < |s| then Str([s[i]]) else Undefined
                case None => Undefined)
    case _ => Success(Undefined)
  }

  /** `Object.keys` and property reads agree. */
  lemma PropOfOwnKey(v: JsValue, k: string)
    requires k in OwnKeys(v)
    ensures Prop(v, k) == Success(OwnProp(v, k))
  {
    if v.Arr? || v.Str? {
      var n := if v.Arr? then |v.items| else |v.s|;
      var i :| 0 <= i < n && Decimal(i) == k;
      DecimalRoundTrip(i);
      assert k != "length" by {
        assert AllDigits(k);
        assert !IsDigit('l');
      }
    }
  }

  /** `v[k] = x` in sloppy mode: a TypeError on null and undefined, ignored
      on every other primitive. */
  function SetProp(v: JsValue, k: string, x: JsValue): (r: Result<JsValue, Failure>)
    ensures r.Success? <==> !IsNullish(v)
    ensures r.Success? && v.Obj? ==> Prop(r.value, k) == Success(x)
  {
    match v
    case Undefined => Failure(TypeError)
    case Null => Failure(TypeError)
    case Obj(p) => Success(Obj(p[k := x]))
    case _ => Success(v)
  }

  /** `util.isObjectLike`: typeof "object" and not null. */
  predicate IsObjectLike(v: JsValue) {
    v.Obj? || v.Arr?
  }

  /** `util.isObject`: object-like and without a non-null `length`, so
      arrays and array-like objects are not objects. */
  predicate IsObject(v: JsValue) {
    IsObjectLike(v) && IsNullish(Prop(v, "length").value)
  }

  lemma IsObjectMeansPlainObject(v: JsValue)
    ensures IsObject(v) <==> v.Obj? && ("length" !in v.props || IsNullish(v.props["length"]))
  {
  }
}
