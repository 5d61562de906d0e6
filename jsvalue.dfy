/** The JavaScript values a filter criterion can carry, and the three
    conversions the filters apply to them: `Number(...)`, truthiness, and
    interpolation into a template literal. */
module JsValue {
  import opened Wrappers
  import opened Decimal

  /** A user-supplied filter value. Numbers are integers in this model. */
  datatype Value = Num(n: int) | Str(s: string) | Bool(b: bool)

  /** A JavaScript number as far as this model needs one: an integer or NaN. */
  datatype Number = NaN | Integer(i: int)

  /** `Number(v)`: a boolean becomes 1 or 0, the empty string 0, a signed
      decimal string its value, and every other string NaN. */
  function ToNumber(v: Value): (r: Number)
    ensures v.Num? ==> r == Integer(v.n)
    ensures v.Bool? ==> r.Integer? && 0 <= r.i <= 1 && (r.i == 1 <==> v.b)
    ensures v.Str? && r.Integer? ==> v.s == [] || ParseInteger(v.s) == Some(r.i)
    ensures v.Str? && v.s == [] ==> r == Integer(0)
    ensures v.Str? && ParseInteger(v.s).Some? ==> r == Integer(ParseInteger(v.s).value)
  {
    match v
    case Num(n) => Integer(n)
    case Bool(b) => Integer(if b then 1 else 0)
    case Str(s) =>
      if s == [] then Integer(0)
      else match ParseInteger(s)
        case Some(i) => Integer(i)
        case None => NaN
  }

  /** JavaScript's `a > b`: false whenever either side is NaN. */
  predicate GreaterThan(a: Number, b: Number): (r: bool)
    ensures a.NaN? || b.NaN? ==> !r
    ensures a.Integer? && b.Integer? ==> (r <==> a.i > b.i)
    ensures r ==> a != b
  {
    a.Integer? && b.Integer? && a.i > b.i
  }

  /** JavaScript truthiness: 0, the empty string and false are falsy. */
  predicate Truthy(v: Value): (r: bool)
    ensures !r <==> v == Num(0) || v == Str([]) || v == Bool(false)
    ensures !v.Str? ==> (r <==> ToNumber(v) != Integer(0))
  {
    match v
    case Num(n) => n != 0
    case Str(s) => s != []
    case Bool(b) => b
  }

  /** The text `${v}` puts into a template literal. */
  function ToText(v: Value): (t: string)
    ensures v.Str? ==> t == v.s
  {
    match v
    case Num(n) => IntToString(n)
    case Str(s) => s
    case Bool(b) => if b then "true" else "false"
  }

  /** `Number(String(v))` gives back a number `v`: the text a number is
      written as reads back as that number. */
  lemma NumberOfText(n: int)
    ensures ToNumber(Str(ToText(Num(n)))) == Integer(n)
  {
    IntegerRoundTrip(n);
  }
}
