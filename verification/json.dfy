/** Decoded JSON values as the Python code sees them after `json.load`. */
module Json {

  /** A decoded JSON value. Floating-point numbers are not modelled. */
  datatype Value =
    | Null
    | Bool(b: bool)
    | Int(i: int)
    | Str(s: string)
    | Arr(items: seq<Value>)
    | Obj(fields: map<string, Value>)

  predicate IsScalar(v: Value) {
    !v.Arr? && !v.Obj?
  }

  /** A JSON value that is neither a list nor an object (a key component, an ID). */
  type Scalar = v: Value | IsScalar(v) witness Null

  /** Python truthiness of a decoded value: `None`, `False`, `0` and empty containers are false. */
  predicate Truthy(v: Value) {
    match v
    case Null => false
    case Bool(b) => b
    case Int(i) => i != 0
    case Str(s) => |s| > 0
    case Arr(xs) => |xs| > 0
    case Obj(fs) => |fs| > 0
  }

  /** The zero of a value's kind: the one value of that kind Python's `bool` maps to False. */
  function ZeroOf(v: Value): (z: Value)
    ensures z.Null? == v.Null? && z.Bool? == v.Bool? && z.Int? == v.Int?
    ensures z.Str? == v.Str? && z.Arr? == v.Arr? && z.Obj? == v.Obj?
  {
    match v
    case Null => Null
    case Bool(_) => Bool(false)
    case Int(_) => Int(0)
    case Str(_) => Str("")
    case Arr(_) => Arr([])
    case Obj(_) => Obj(map[])
  }

  /** A value is truthy exactly when it differs from the zero of its kind. */
  lemma TruthyIffNotZero(v: Value)
    ensures Truthy(v) <==> v != ZeroOf(v)
  {
    match v
    case Str(s) => assert |s| == 0 ==> s == "";
    case Arr(xs) => assert |xs| == 0 ==> xs == [];
    case Obj(fs) => assert |fs| == 0 ==> fs == map[];
    case _ =>
  }

  function Digit(d: nat): (c: char)
    requires d < 10
    ensures '0' <= c <= '9'
    ensures DigitValue(c) == d
  {
    "0123456789"[d]
  }

  /** The value of a decimal digit character. */
  function DigitValue(c: char): nat
    requires '0' <= c <= '9'
  {
    (c - '0') as nat
  }

  /** Every character of `s` is a decimal digit. */
  predicate AllDigits(s: string) {
    forall k :: 0 <= k < |s| ==> '0' <= s[k] <= '9'
  }

  /** The number a string of decimal digits denotes (`int(s)` for such a string). */
  function ParseNat(s: string): nat
    requires AllDigits(s)
  {
    if |s| == 0 then 0 else ParseNat(s[..|s| - 1]) * 10 + DigitValue(s[|s| - 1])
  }

  /** A decimal numeral with an optional leading minus sign. */
  predicate IsNumeral(s: string) {
    |s| > 0 && (if s[0] == '-' then AllDigits(s[1..]) else AllDigits(s))
  }

  /** `int(s)` for a numeral. */
  function ParseDecimal(s: string): int
    requires IsNumeral(s)
  {
    if s[0] == '-' then 0 - ParseNat(s[1..]) else ParseNat(s)
  }

  /** Decimal rendering of a natural number, without leading zeros. */
  function NatDecimal(n: nat): (r: string)
    ensures |r| > 0
    ensures AllDigits(r)
    ensures r[0] == '0' ==> r == "0" && n == 0
  {
    if n < 10 then [Digit(n)] else NatDecimal(n / 10) + [Digit(n % 10)]
  }

  /** Reading back the digits of a natural number gives the number. */
  lemma {:induction false} NatDecimalRoundTrip(n: nat)
    ensures ParseNat(NatDecimal(n)) == n
  {
    var r := NatDecimal(n);
    if n < 10 {
      assert r[..0] == [];
    } else {
      NatDecimalRoundTrip(n / 10);
      assert r[..|r| - 1] == NatDecimal(n / 10);
    }
  }

  /** The form `str(n)` takes: a numeral whose digits have no leading zero (save "0" itself) and
      that is not "-0". */
  predicate Canonical(s: string) {
    IsNumeral(s) && (if s[0] == '-' then |s| > 1 && s[1] != '0' else (s[0] == '0' ==> |s| == 1))
  }

  /** Python's `str(n)` for an integer: a minus sign exactly for negative numbers, then the digits
      of the magnitude without leading zeros. */
  function Decimal(n: int): (r: string)
    ensures |r| > 0
    ensures r[0] == '-' <==> n < 0
    ensures Canonical(r)
  {
    if n < 0 then "-" + NatDecimal(-n) else NatDecimal(n)
  }

  /** The digit character of a digit's value is that digit. */
  lemma DigitOfValue(c: char)
    requires '0' <= c <= '9'
    ensures Digit(DigitValue(c)) == c
  {
    var d := Digit(DigitValue(c));
    assert DigitValue(d) == DigitValue(c);
  }

  /** Digits that do not start with zero denote a positive number. */
  lemma {:induction false} ParsePositive(d: string)
    requires |d| > 0 && AllDigits(d) && d[0] != '0'
    ensures ParseNat(d) >= 1
    decreases |d|
  {
    if |d| > 1 {
      ParsePositive(d[..|d| - 1]);
    }
  }

  /** Rendering the number a digit string without leading zeros denotes gives the string back. */
  lemma {:induction false} ParseNatDecimal(d: string)
    requires |d| > 0 && AllDigits(d) && (d[0] == '0' ==> |d| == 1)
    ensures NatDecimal(ParseNat(d)) == d
    decreases |d|
  {
    var n := |d| - 1;
    var p := d[..n];
    var c := d[n];
    DigitOfValue(c);
    if n == 0 {
      assert p == [];
      assert d == [c];
    } else {
      ParseNatDecimal(p);
      ParsePositive(p);
      var v := ParseNat(d);
      assert v == ParseNat(p) * 10 + DigitValue(c);
      assert v / 10 == ParseNat(p) && v % 10 == DigitValue(c);
      assert d == p + [c];
    }
  }

  /** A canonical numeral is `str` of the integer it denotes. */
  lemma CanonicalRoundTrip(s: string)
    requires Canonical(s)
    ensures Decimal(ParseDecimal(s)) == s
  {
    if s[0] == '-' {
      NegativeCanonical(s);
    } else {
      var n := ParseNat(s);
      assert ParseDecimal(s) == n;
      ParseNatDecimal(s);
      assert Decimal(n) == NatDecimal(n);
    }
  }

  /** A canonical numeral with a minus sign is `str` of the negative integer it denotes. */
  lemma NegativeCanonical(s: string)
    requires Canonical(s) && s[0] == '-'
    ensures Decimal(ParseDecimal(s)) == s
  {
    var d := s[1..];
    var n: int := ParseNat(d);
    assert ParseDecimal(s) == -n;
    ParsePositive(d);
    ParseNatDecimal(d);
    assert Decimal(-n) == "-" + NatDecimal(n);
    assert s == "-" + d;
  }

  /** Two canonical numerals that denote the same integer are the same string. */
  lemma CanonicalUnique(s: string, t: string)
    requires Canonical(s) && Canonical(t)
    requires ParseDecimal(s) == ParseDecimal(t)
    ensures s == t
  {
    CanonicalRoundTrip(s);
    CanonicalRoundTrip(t);
  }

  /** `int(str(n)) == n`. */
  lemma DecimalRoundTrip(n: int)
    ensures ParseDecimal(Decimal(n)) == n
  {
    NatDecimalRoundTrip(if n < 0 then -n else n);
    if n < 0 {
      NegativeNumeral(NatDecimal(-n));
    }
  }

  /** A minus sign in front of digits negates their value. */
  lemma NegativeNumeral(d: string)
    requires |d| > 0 && AllDigits(d)
    ensures IsNumeral("-" + d) && ParseDecimal("-" + d) == 0 - ParseNat(d)
  {
    assert ("-" + d)[1..] == d;
  }

  /** Different integers have different decimal renderings. */
  lemma DecimalInjective(a: int, b: int)
    requires Decimal(a) == Decimal(b)
    ensures a == b
  {
    DecimalRoundTrip(a);
    DecimalRoundTrip(b);
  }

  /** Python's `str(v)` for a scalar: a string is itself, an integer the one canonical numeral
      that denotes it (see `CanonicalUnique`), and the constants their Python names. */
  function PyStr(v: Scalar): (r: string)
    ensures v.Str? ==> r == v.s
    ensures v.Int? ==> Canonical(r) && ParseDecimal(r) == v.i
    ensures v.Null? ==> r == "None"
    ensures v.Bool? ==> r == (if v.b then "True" else "False")
  {
    match v
    case Null => "None"
    case Bool(b) => if b then "True" else "False"
    case Int(i) => DecimalRoundTrip(i); Decimal(i)
    case Str(s) => s
  }
}
