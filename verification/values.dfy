/**
 * The values a route handler receives in a JSON body or a spreadsheet row,
 * JavaScript truthiness, and the conversions the SQL store applies when such
 * a value is bound to a TEXT or an INTEGER column.
 */
module Values {

  datatype Option<+T> = None | Some(value: T)

  /**
   * A field of a request body or of a decoded spreadsheet row.
   * `Null` stands for both `undefined` (a missing key) and `null`: every
   * handler tests them alike and the store binds both as SQL NULL.
   */
  datatype Value = Null | Str(s: string) | Num(n: int)

  /** JavaScript truthiness: `undefined`, `null`, `""` and `0` are falsy. */
  predicate Truthy(v: Value)
    ensures !Truthy(v) <==> v == Null || v == Str("") || v == Num(0)
  {
    match v
    case Null => false
    case Str(s) => s != ""
    case Num(n) => n != 0
  }

  /** The JavaScript expression `a || b`. */
  function Or(a: Value, b: Value): (r: Value)
    ensures Truthy(r) <==> Truthy(a) || Truthy(b)
    ensures r == a || r == b
    ensures Truthy(a) ==> r == a
    ensures !Truthy(a) ==> r == b
  {
    if Truthy(a) then a else b
  }

  /** A record (a JSON object or a spreadsheet row); a missing key reads as `undefined`. */
  type Record = map<string, Value>

  function Field(rec: Record, key: string): (v: Value)
    ensures key !in rec ==> v == Null
  {
    if key in rec then rec[key] else Null
  }

  predicate IsDigit(c: char) { '0' <= c <= '9' }

  function DigitChar(d: nat): (c: char)
    requires d < 10
    ensures IsDigit(c)
  {
    "0123456789"[d]
  }

  function DigitValue(c: char): (d: nat)
    requires IsDigit(c)
    ensures d < 10
  {
    (c as int - '0' as int) as nat
  }

  /** Decimal digits of a natural number, without leading zeros. */
  function NatText(n: nat): (s: string)
    ensures |s| >= 1
    ensures forall i :: 0 <= i < |s| ==> IsDigit(s[i])
    ensures |s| > 1 ==> s[0] != '0'
    decreases n
  {
    if n < 10 then [DigitChar(n)] else NatText(n / 10) + [DigitChar(n % 10)]
  }

  /** `String(n)` for an integer: what a TEXT column stores when given a number. */
  function DecimalText(n: int): (s: string)
    ensures s != ""
  {
    if n < 0 then "-" + NatText(-n) else NatText(n)
  }

  /** The number a string of decimal digits denotes. */
  function DigitsValue(s: string): nat
    requires forall i :: 0 <= i < |s| ==> IsDigit(s[i])
  {
    if s == [] then 0 else DigitsValue(s[..|s| - 1]) * 10 + DigitValue(s[|s| - 1])
  }

  /**
   * The integer a text denotes when it is bound to an INTEGER column or
   * compared with one: a non-empty run of decimal digits. Any other text
   * stays text and never equals an integer id.
   */
  function ParseNat(s: string): (r: Option<nat>)
    ensures r.Some? <==> s != "" && forall i :: 0 <= i < |s| ==> IsDigit(s[i])
  {
    if s != "" && forall i :: 0 <= i < |s| ==> IsDigit(s[i]) then Some(DigitsValue(s)) else None
  }

  lemma {:induction false} DigitsValueOfNatText(n: nat)
    ensures DigitsValue(NatText(n)) == n
    decreases n
  {
    if n >= 10 {
      var s := NatText(n);
      DigitsValueOfNatText(n / 10);
      assert s[..|s| - 1] == NatText(n / 10);
    }
  }

  /** Rendering an id as text and reading it back gives the id again. */
  lemma ParseNatText(n: nat)
    ensures ParseNat(NatText(n)) == Some(n)
  {
    DigitsValueOfNatText(n);
  }

  /**
   * What a TEXT column holds when the value is bound to it: NULL for
   * `undefined`/`null`, the string itself, or a number's decimal text.
   */
  function BindText(v: Value): (r: Option<string>)
    ensures r.None? <==> v.Null?
    ensures v.Str? ==> r == Some(v.s)
  {
    match v
    case Null => None
    case Str(s) => Some(s)
    case Num(n) => Some(DecimalText(n))
  }

  /**
   * What an INTEGER column (`marked_by`) holds when the value is bound to
   * it, as far as joins on user ids can see: a number, or text made of
   * decimal digits. The model reads no other text as an integer, which is
   * narrower than SQLite's INTEGER affinity.
   */
  function BindInteger(v: Value): (r: Option<int>)
    ensures v.Num? ==> r == Some(v.n)
    ensures v.Null? ==> r.None?
    ensures v.Str? ==> (r.Some? <==> v.s != "" && forall i :: 0 <= i < |v.s| ==> IsDigit(v.s[i]))
  {
    match v
    case Null => None
    case Num(n) => Some(n)
    case Str(s) => match ParseNat(s) { case Some(k) => Some(k) case None => None }
  }

  /** A user id bound as its decimal text reads back as that id in an INTEGER column. */
  lemma BindIntegerOfText(n: nat)
    ensures BindInteger(Str(NatText(n))) == Some(n)
  {
    ParseNatText(n);
  }
}
