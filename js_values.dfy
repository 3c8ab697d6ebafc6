// JavaScript cell values as the application sees them after parsing a file
// or a query result, with the coercions the source relies on: `String(v)`,
// truthiness (`v || d`), `Number(v)` and `parseInt(s, 10)`.
//
// Numbers are modelled as integers: the decimal text of an integer is what
// `String` produces for it, and every comparison and key in the core goes
// through that text. Fractions, exponents, NaN-valued cells and infinities
// are not part of this model.

module JsValues {

  import opened Strings

  datatype Option<T> = None | Some(value: T)

  datatype Value =
    | Str(s: string)
    | Num(n: int)
    | Bool(b: bool)
    | Null
    | Undef

  /** The decimal digit character for 0 <= d < 10. */
  function Digit(d: nat): (c: char)
    requires d < 10
    ensures '0' <= c <= '9' && c as int - '0' as int == d
  {
    (('0' as int) + d) as char
  }

  predicate IsDigit(c: char) {
    '0' <= c <= '9'
  }

  /** Decimal text of a natural number, without leading zeros. */
  function NatToDec(n: nat): (s: string)
    ensures |s| > 0
    ensures forall i :: 0 <= i < |s| ==> IsDigit(s[i])
    ensures n >= 10 ==> |s| >= 2
    decreases n
  {
    if n < 10 then [Digit(n)] else NatToDec(n / 10) + [Digit(n % 10)]
  }

  /** `String(n)` for an integer number. */
  function IntToStr(n: int): string {
    if n < 0 then "-" + NatToDec(-n) else NatToDec(n)
  }

  /** The value of a string of decimal digits. */
  function DigitsValue(s: string): nat
    requires forall i :: 0 <= i < |s| ==> IsDigit(s[i])
  {
    if s == [] then 0
    else
      assert IsDigit(s[|s| - 1]);
      var d: nat := s[|s| - 1] as int - '0' as int;
      DigitsValue(s[..|s| - 1]) * 10 + d
  }

  /** Reading back the decimal text of a number gives the number. */
  lemma {:induction false} DigitsValueOfNatToDec(n: nat)
    ensures DigitsValue(NatToDec(n)) == n
    decreases n
  {
    var s := NatToDec(n);
    if n >= 10 {
      DigitsValueOfNatToDec(n / 10);
      assert s[..|s| - 1] == NatToDec(n / 10);
    } else {
      assert s[..|s| - 1] == [];
    }
  }

  /** Distinct numbers have distinct decimal texts. */
  lemma NatToDecInjective(a: nat, b: nat)
    requires NatToDec(a) == NatToDec(b)
    ensures a == b
  {
    DigitsValueOfNatToDec(a);
    DigitsValueOfNatToDec(b);
  }

  /** `String(v)` for every kind of cell value. */
  function ToStr(v: Value): string {
    match v
    case Str(s) => s
    case Num(n) => IntToStr(n)
    case Bool(b) => if b then "true" else "false"
    case Null => "null"
    case Undef => "undefined"
  }

  /** JavaScript truthiness: what `v || d` tests. */
  predicate Truthy(v: Value) {
    match v
    case Str(s) => s != ""
    case Num(n) => n != 0
    case Bool(b) => b
    case Null => false
    case Undef => false
  }

  /** `v || d`. */
  function Or(v: Value, d: Value): (r: Value)
    ensures Truthy(v) ==> r == v
    ensures !Truthy(v) ==> r == d
  {
    if Truthy(v) then v else d
  }

  /** `String(v || '')`: falsy cells become the empty string. */
  function ToStrOrEmpty(v: Value): (s: string)
    ensures !Truthy(v) ==> s == ""
    ensures Truthy(v) ==> s == ToStr(v) && s != ""
  {
    ToStr(Or(v, Str("")))
  }

  /** Value of an optionally signed run of decimal digits, as `Number` reads it. */
  function ParseSignedDigits(s: string): Option<int> {
    if |s| > 0 && (s[0] == '-' || s[0] == '+') then
      var rest := s[1..];
      if rest != [] && forall i :: 0 <= i < |rest| ==> IsDigit(rest[i]) then
        var m: int := DigitsValue(rest);
        Some(if s[0] == '-' then -m else m)
      else None
    else if s != [] && forall i :: 0 <= i < |s| ==> IsDigit(s[i]) then
      Some(DigitsValue(s))
    else None
  }

  /** `Number(v)`; None stands for NaN. Only integer texts are read. */
  function ToNumber(v: Value): Option<int> {
    match v
    case Str(s) =>
      var t := Trim(s);
      if t == "" then Some(0) else ParseSignedDigits(t)
    case Num(n) => Some(n)
    case Bool(b) => Some(if b then 1 else 0)
    case Null => Some(0)
    case Undef => None
  }

  /** The longest prefix of s made of decimal digits. */
  function LeadingDigits(s: string): (r: string)
    ensures |r| <= |s| && r == s[..|r|]
    ensures forall i :: 0 <= i < |r| ==> IsDigit(r[i])
    ensures |r| < |s| ==> !IsDigit(s[|r|])
  {
    if s != [] && IsDigit(s[0]) then [s[0]] + LeadingDigits(s[1..]) else []
  }

  /** `parseInt(s, 10)`: leading white space, an optional sign, then as many
      digits as there are; None (NaN) when there is no digit. */
  function ParseInt(s: string): Option<int> {
    var t := TrimStart(s);
    var neg := |t| > 0 && t[0] == '-';
    var body := if |t| > 0 && (t[0] == '-' || t[0] == '+') then t[1..] else t;
    var ds := LeadingDigits(body);
    if ds == [] then None
    else
      var m: int := DigitsValue(ds);
      Some(if neg then -m else m)
  }

  lemma LeadingDigitsOfDigits(s: string)
    requires forall i :: 0 <= i < |s| ==> IsDigit(s[i])
    ensures LeadingDigits(s) == s
  {
    if s != [] {
      LeadingDigitsOfDigits(s[1..]);
    }
  }

  /** parseInt reads back the text `String` gives an integer. */
  lemma ParseIntOfIntToStr(n: int)
    ensures ParseInt(IntToStr(n)) == Some(n)
  {
    var s := IntToStr(n);
    var m: nat := if n < 0 then -n else n;
    var d := NatToDec(m);
    assert TrimStart(s) == s by {
      assert !IsWhitespace(s[0]);
    }
    var body := if n < 0 then s[1..] else s;
    assert body == d;
    LeadingDigitsOfDigits(d);
    DigitsValueOfNatToDec(m);
  }

  /** A string with no white space at either end is its own trim. */
  lemma TrimOfUnpadded(s: string)
    requires s != [] && !IsWhitespace(s[0]) && !IsWhitespace(s[|s| - 1])
    ensures Trim(s) == s
  {
    assert TrimStart(s) == s;
  }

  /** Number reads back the text `String` gives an integer. */
  lemma ToNumberOfIntToStr(n: int)
    ensures ToNumber(Str(IntToStr(n))) == Some(n)
  {
    var s := IntToStr(n);
    var m: nat := if n < 0 then -n else n;
    var d := NatToDec(m);
    DigitsValueOfNatToDec(m);
    assert IsDigit(s[|s| - 1]);
    if n < 0 {
      assert s[1..] == d;
      TrimOfUnpadded(s);
      assert ParseSignedDigits(s) == Some(n);
    } else {
      assert IsDigit(s[0]);
      TrimOfUnpadded(s);
      assert ParseSignedDigits(s) == Some(n);
    }
  }

  /** `a < b`: two strings compare by their characters, anything else
      compares as numbers, and a comparison with NaN is false. */
  predicate LessThan(a: Value, b: Value) {
    if a.Str? && b.Str? then StrLess(a.s, b.s)
    else
      var x := ToNumber(a);
      var y := ToNumber(b);
      x.Some? && y.Some? && x.value < y.value
  }
}
