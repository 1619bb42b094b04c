/** The JSON expression tree and the shape that JSON_Expression::Validate accepts. */
module JsonTree {
  import opened Decimal

  /** The characters of a C string: everything before its terminating NUL. */
  type CString = s: string | forall i :: 0 <= i < |s| ==> s[i] != '\0' witness ""

  /** A C long, the type of int_val. */
  type Long = x: int | -0x8000_0000_0000_0000 <= x <= 0x7FFF_FFFF_FFFF_FFFF

  /** One constructor per j_type, holding only the fields that type uses; a node
      with stray sub-content (which Validate aborts on) cannot be written down. */
  datatype Json =
    | Seq(items: seq<Json>)
    | List(items: seq<Json>)
    | Str(text: CString)
    | Int(value: Long)
    | Bool(truth: bool)
    | Float(number: real)
    | Null
    | Assign(variable: CString, expression: Json)
    | Empty

  /** JSON_Expression::Validate: true where the source returns, false where it aborts. */
  predicate Valid(t: Json)
  {
    match t
    case Seq(items) => forall i :: 0 <= i < |items| ==> items[i].Assign? && Valid(items[i])
    case List(items) => forall i :: 0 <= i < |items| ==> !items[i].Assign? && !items[i].Empty? && Valid(items[i])
    case Assign(_, e) => !e.Empty? && !e.Assign? && Valid(e)
    case _ => true
  }

  predicate QuoteFree(s: string) { forall i :: 0 <= i < |s| ==> s[i] != '"' }

  /** No string and no assignment variable of the tree holds a double quote. */
  predicate QuoteFreeTree(t: Json)
  {
    match t
    case Seq(items) => forall i :: 0 <= i < |items| ==> QuoteFreeTree(items[i])
    case List(items) => forall i :: 0 <= i < |items| ==> QuoteFreeTree(items[i])
    case Str(s) => QuoteFree(s)
    case Assign(v, e) => QuoteFree(v) && QuoteFreeTree(e)
    case _ => true
  }

  /** Every float of the tree is a whole number of millionths. */
  predicate SixDecimalTree(t: Json)
  {
    match t
    case Seq(items) => forall i :: 0 <= i < |items| ==> SixDecimalTree(items[i])
    case List(items) => forall i :: 0 <= i < |items| ==> SixDecimalTree(items[i])
    case Float(x) => IsSixDecimal(x)
    case Assign(_, e) => SixDecimalTree(e)
    case _ => true
  }

  /** The tree with every float rounded to six decimals. */
  function Rounded(t: Json): (r: Json)
  {
    match t
    case Seq(items) => Seq(seq(|items|, i requires 0 <= i < |items| => Rounded(items[i])))
    case List(items) => List(seq(|items|, i requires 0 <= i < |items| => Rounded(items[i])))
    case Float(x) => Float(SixDecimals(x))
    case Assign(v, e) => Assign(v, Rounded(e))
    case _ => t
  }

  /** Rounding changes nothing exactly on trees whose floats have six decimals. */
  lemma {:induction false} RoundedFixed(t: Json)
    ensures Rounded(t) == t <==> SixDecimalTree(t)
  {
    match t
    case Seq(items) =>
      forall i | 0 <= i < |items| ensures Rounded(items[i]) == items[i] <==> SixDecimalTree(items[i]) {
        RoundedFixed(items[i]);
      }
      if Rounded(t) == t {
        assert forall i :: 0 <= i < |items| ==> Rounded(t).items[i] == items[i];
      }
    case List(items) =>
      forall i | 0 <= i < |items| ensures Rounded(items[i]) == items[i] <==> SixDecimalTree(items[i]) {
        RoundedFixed(items[i]);
      }
      if Rounded(t) == t {
        assert forall i :: 0 <= i < |items| ==> Rounded(t).items[i] == items[i];
      }
    case Float(x) => SixDecimalsExact(x);
    case Assign(_, e) => RoundedFixed(e);
    case _ =>
  }
}
