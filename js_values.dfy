/** The JavaScript values that the definition-record decoder and
    `JSON.parse` hand to the engine, and the few language operations the
    engine applies to them: property access, truthiness, `||` and string
    conversion. */
module JsValues {
  import opened JsStrings

  /** A JavaScript value. Numbers are integers; `Obj` is a plain object whose
      own properties are data. */
  datatype JsValue =
    | Undefined
    | Null
    | Bool(b: bool)
    | Num(n: int)
    | Str(s: string)
    | Arr(items: seq<JsValue>)
    | Obj(props: map<string, JsValue>)

  /** Property access `v?.key`: only an object has the property names the
      engine reads, so anything else yields `undefined`. */
  function Get(v: JsValue, key: string): (r: JsValue)
    ensures !v.Obj? ==> r == Undefined
    ensures v.Obj? ==> r == if key in v.props then v.props[key] else Undefined
  {
    if v.Obj? && key in v.props then v.props[key] else Undefined
  }

  /** JavaScript truthiness: `undefined`, `null`, `false`, `0` and `""` are
      falsy, every other value is truthy. */
  predicate Truthy(v: JsValue) {
    match v
    case Undefined => false
    case Null => false
    case Bool(b) => b
    case Num(n) => n != 0
    case Str(s) => s != ""
    case Arr(_) => true
    case Obj(_) => true
  }

  /** `a || b`: the first operand when it is truthy, else the second. */
  function Or(a: JsValue, b: JsValue): (r: JsValue)
    ensures r == a || r == b
    ensures Truthy(r) <==> Truthy(a) || Truthy(b)
    ensures Truthy(a) ==> r == a
    ensures !Truthy(a) ==> r == b
  {
    if Truthy(a) then a else b
  }

  /** The decimal digits of a natural number, most significant first. */
  function NatToDecimal(n: nat): (r: string)
    ensures |r| >= 1
    ensures forall i :: 0 <= i < |r| ==> '0' <= r[i] <= '9'
    ensures n >= 10 ==> r[0] != '0'
    decreases n
  {
    var d := ['0' + (n % 10) as char];
    if n < 10 then d else NatToDecimal(n / 10) + d
  }

  /** The value a digit string denotes, read most significant first. */
  function DecimalValue(r: string): int
    requires forall i :: 0 <= i < |r| ==> '0' <= r[i] <= '9'
    decreases |r|
  {
    if r == [] then 0 else 10 * DecimalValue(r[..|r| - 1]) + (r[|r| - 1] - '0') as int
  }

  /** Reading back the digits of `n` yields `n`. */
  lemma {:induction false} NatToDecimalValue(n: nat)
    ensures DecimalValue(NatToDecimal(n)) == n
    decreases n
  {
    var r := NatToDecimal(n);
    if n >= 10 {
      NatToDecimalValue(n / 10);
      assert r[..|r| - 1] == NatToDecimal(n / 10);
    }
  }

  /** `String(n)` for an integer. */
  function IntToDecimal(n: int): string {
    if n < 0 then "-" + NatToDecimal(-n) else NatToDecimal(n)
  }

  /** The string JavaScript's `+` produces from a non-string operand
      (`'/' + v`): arrays join their elements with `,` (writing `null` and
      `undefined` elements as nothing), plain objects become
      `[object Object]`. */
  function ToJsString(v: JsValue): string
    decreases v
  {
    match v
    case Undefined => "undefined"
    case Null => "null"
    case Bool(b) => if b then "true" else "false"
    case Num(n) => IntToDecimal(n)
    case Str(s) => s
    case Arr(items) =>
      Join(seq(|items|, i requires 0 <= i < |items| =>
        if items[i].Null? || items[i].Undefined? then "" else ToJsString(items[i])), ',')
    case Obj(_) => "[object Object]"
  }

  /** What the string conversion gives for the operands a declared path can
      be: a string is itself; a non-negative number is its decimal digits,
      which read back to it, and a negative one is `-` before them; an empty
      array is `""`; a one-element array is that element's form, or `""` for
      `null` and `undefined`. */
  lemma StringForms(v: JsValue)
    ensures v.Str? ==> ToJsString(v) == v.s
    ensures v.Num? && v.n >= 0 ==>
      (forall i :: 0 <= i < |ToJsString(v)| ==> '0' <= ToJsString(v)[i] <= '9') &&
      DecimalValue(ToJsString(v)) == v.n
    ensures v.Num? && v.n < 0 ==> ToJsString(v) == "-" + ToJsString(Num(-v.n))
    ensures v.Arr? && v.items == [] ==> ToJsString(v) == ""
    ensures v.Arr? && |v.items| == 1 ==>
      ToJsString(v) == if v.items[0].Null? || v.items[0].Undefined? then "" else ToJsString(v.items[0])
  {
    if v.Num? && v.n >= 0 {
      NatToDecimalValue(v.n);
    }
  }

  /** Concatenating two non-empty arrays joins their string forms with a
      comma. */
  lemma ArrayStringAppend(a: seq<JsValue>, b: seq<JsValue>)
    requires |a| >= 1 && |b| >= 1
    ensures ToJsString(Arr(a + b)) == ToJsString(Arr(a)) + "," + ToJsString(Arr(b))
  {
    var pa := seq(|a|, i requires 0 <= i < |a| =>
      if a[i].Null? || a[i].Undefined? then "" else ToJsString(a[i]));
    var pb := seq(|b|, i requires 0 <= i < |b| =>
      if b[i].Null? || b[i].Undefined? then "" else ToJsString(b[i]));
    var ab := a + b;
    var pab := seq(|ab|, i requires 0 <= i < |ab| =>
      if ab[i].Null? || ab[i].Undefined? then "" else ToJsString(ab[i]));
    assert pab == pa + pb;
    JoinAppend(pa, pb, ',');
  }
}
