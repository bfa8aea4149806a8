// PHP value semantics the plugin relies on: empty() and truthiness,
// intval()/absint(), is_numeric() and string conversion.

module Php {
  import opened Wrappers
  import opened Text

  /** A scalar PHP value as it arrives from a request, an option or post meta. */
  datatype Value = Null | Bool(b: bool) | Int(i: int) | Str(s: string)

  /** empty() on a string: only "" and "0". */
  predicate EmptyString(s: string) { s == "" || s == "0" }

  /** empty() on a scalar; a value is truthy exactly when it is not empty. */
  predicate Empty(v: Value) {
    match v
    case Null => true
    case Bool(b) => !b
    case Int(i) => i == 0
    case Str(s) => EmptyString(s)
  }

  predicate Truthy(v: Value) { !Empty(v) }

  /** The suffix of s after its leading white space. */
  function SkipSpace(s: string): (r: string)
    ensures |r| <= |s| && r == s[|s| - |r|..]
    ensures r == [] || !IsSpace(r[0])
    decreases |s|
  {
    if s != [] && IsSpace(s[0]) then SkipSpace(s[1..]) else s
  }

  /** 10 to the power k. */
  function Pow10(k: nat): (r: nat)
    ensures r >= 1
  {
    if k == 0 then 1 else 10 * Pow10(k - 1)
  }

  /**
   * m times 10 to the power e, truncated toward zero when e is negative:
   * dropping one digit at a time truncates the exact quotient.
   */
  function Scale(m: nat, e: int): nat
    decreases if e >= 0 then e else -e
  {
    if e == 0 then m else if e > 0 then Scale(10 * m, e - 1) else Scale(m / 10, e + 1)
  }

  lemma {:induction false} ScaleUp(m: nat, k: nat)
    ensures Scale(m, k) == m * Pow10(k)
    decreases k
  {
    if k > 0 {
      ScaleUp(10 * m, k - 1);
      assert (10 * m) * Pow10(k - 1) == m * (10 * Pow10(k - 1));
    }
  }

  /**
   * An exponent `[eE][+-]?digits` at the start of s: its value and how many
   * characters it spans; None when there is none.
   */
  function ExponentPart(s: string): (r: Option<(int, nat)>)
    ensures r.Some? ==> 2 <= r.value.1 <= |s| && (s[0] == 'e' || s[0] == 'E')
    ensures s == [] || (s[0] != 'e' && s[0] != 'E') ==> r.None?
  {
    if s == [] || (s[0] != 'e' && s[0] != 'E') then None
    else
      var signed := |s| > 1 && (s[1] == '-' || s[1] == '+');
      var skip := if signed then 2 else 1;
      var ds := LeadingDigits(s[skip..]);
      if ds == [] then None
      else Some((if signed && s[1] == '-' then -(DecimalValue(ds) as int) else DecimalValue(ds), skip + |ds|))
  }

  /** A numeric literal: its integer digits, its fraction digits, its exponent and its length in characters. */
  datatype Numeral = Numeral(whole: string, frac: string, exponent: int, length: nat)

  /**
   * The numeric literal at the start of u (after any sign), as PHP reads one:
   * digits, an optional `.` and fraction digits, at least one digit in all,
   * then an optional exponent. None when u does not start with one.
   */
  function NumeralAt(u: string): (r: Option<Numeral>)
    ensures r.Some? ==>
      AllDigits(r.value.whole) && AllDigits(r.value.frac) && |r.value.whole| + |r.value.frac| >= 1 && r.value.length <= |u|
  {
    var whole := LeadingDigits(u);
    var after := u[|whole|..];
    var dot := after != [] && after[0] == '.';
    var frac := if dot then LeadingDigits(after[1..]) else [];
    var end := |whole| + (if dot then 1 + |frac| else 0);
    if |whole| + |frac| == 0 then None
    else match ExponentPart(u[end..])
      case None => Some(Numeral(whole, frac, 0, end))
      case Some(e) => Some(Numeral(whole, frac, e.0, end + e.1))
  }

  /** The value of a numeral, truncated toward zero as the conversion of a float to int does. */
  function NumeralValue(n: Numeral): nat
    requires AllDigits(n.whole) && AllDigits(n.frac)
  {
    assert AllDigits(n.whole + n.frac) by {
      forall i | 0 <= i < |n.whole + n.frac| ensures IsDigit((n.whole + n.frac)[i]) {
        if i >= |n.whole| { assert (n.whole + n.frac)[i] == n.frac[i - |n.whole|]; }
      }
    }
    Scale(DecimalValue(n.whole + n.frac), n.exponent - |n.frac|)
  }

  /** The string after leading white space and the sign, and whether the sign is a minus. */
  function Unsigned(s: string): (r: (bool, string))
    ensures |r.1| <= |s|
  {
    var t := SkipSpace(s);
    if t != [] && (t[0] == '-' || t[0] == '+') then (t[0] == '-', t[1..]) else (false, t)
  }

  /**
   * intval() of a string: leading white space, an optional sign, then the
   * longest numeric literal, an exponent included, truncated toward zero; no
   * literal gives 0.
   */
  function IntVal(s: string): int {
    var (negative, u) := Unsigned(s);
    match NumeralAt(u)
    case None => 0
    case Some(n) => if negative then -(NumeralValue(n) as int) else NumeralValue(n)
  }

  /** A run of digits followed by anything that cannot continue a numeral reads as those digits. */
  lemma IntValOfDigits(digits: string, rest: string)
    requires AllDigits(digits) && digits != []
    requires rest == [] || !(IsDigit(rest[0]) || rest[0] == '.' || rest[0] == 'e' || rest[0] == 'E')
    ensures IntVal(digits + rest) == DecimalValue(digits)
  {
    var t := digits + rest;
    assert t[0] == digits[0];
    IntValAtDigit(t);
    NumeralOfDigits(digits, rest);
    WholeValue(Numeral(digits, [], 0, |digits|));
  }

  /** A run of digits with an exponent reads as the digits times that power of ten. */
  lemma IntValOfExponent(digits: string, power: string, rest: string)
    requires AllDigits(digits) && digits != [] && AllDigits(power) && power != []
    requires rest == [] || !IsDigit(rest[0])
    ensures IntVal(digits + ("e" + (power + rest))) == DecimalValue(digits) * Pow10(DecimalValue(power))
  {
    var tail := "e" + (power + rest);
    var t := digits + tail;
    assert t[0] == digits[0];
    IntValAtDigit(t);
    ExponentOfDigits(power, rest);
    var e := (DecimalValue(power) as int, 1 + |power|);
    NumeralWithExponent(digits, tail, e);
    var n := Numeral(digits, [], e.0, |digits| + e.1);
    var m, k := DecimalValue(digits), DecimalValue(power);
    assert IntVal(t) == NumeralValue(n);
    assert NumeralValue(n) == Scale(m, k) by { WholeValue(n); }
    assert Scale(m, k) == m * Pow10(k) by { ScaleUp(m, k); }
  }

  /** The numeral at the start of digits followed by anything but a digit or a point: no fraction, and the exponent rest starts with. */
  lemma NumeralOfDigits(digits: string, rest: string)
    requires AllDigits(digits) && digits != []
    requires rest == [] || !(IsDigit(rest[0]) || rest[0] == '.')
    ensures NumeralAt(digits + rest) == match ExponentPart(rest)
      case None => Some(Numeral(digits, [], 0, |digits|))
      case Some(e) => Some(Numeral(digits, [], e.0, |digits| + e.1))
  {
    LeadingDigitsOfDigits(digits, rest);
    assert (digits + rest)[|digits|..] == rest;
  }

  lemma NumeralWithExponent(digits: string, tail: string, e: (int, nat))
    requires AllDigits(digits) && digits != [] && tail != [] && tail[0] == 'e'
    requires ExponentPart(tail) == Some(e)
    ensures NumeralAt(digits + tail) == Some(Numeral(digits, [], e.0, |digits| + e.1))
  {
    assert !(IsDigit(tail[0]) || tail[0] == '.');
    NumeralOfDigits(digits, tail);
  }

  /** A numeral without a fraction is worth its digits scaled by its exponent. */
  lemma WholeValue(n: Numeral)
    requires AllDigits(n.whole) && n.frac == []
    ensures NumeralValue(n) == Scale(DecimalValue(n.whole), n.exponent)
  {
    assert n.whole + n.frac == n.whole;
  }

  /** `e` and a run of digits, followed by no further digit, is an exponent of that value. */
  lemma ExponentOfDigits(power: string, rest: string)
    requires AllDigits(power) && power != []
    requires rest == [] || !IsDigit(rest[0])
    ensures ExponentPart("e" + (power + rest)) == Some((DecimalValue(power) as int, 1 + |power|))
  {
    var u := power + rest;
    var s := "e" + u;
    assert s[0] == 'e' && s[1..] == u;
    assert s[1] != '-' && s[1] != '+' by { assert s[1] == power[0] && IsDigit(power[0]); }
    assert LeadingDigits(u) == power by { LeadingDigitsOfDigits(power, rest); }
    UnsignedExponent(s, power);
  }

  lemma UnsignedExponent(s: string, ds: string)
    requires |s| >= 2 && s[0] == 'e' && s[1] != '-' && s[1] != '+'
    requires ds != [] && LeadingDigits(s[1..]) == ds
    ensures ExponentPart(s) == Some((DecimalValue(ds) as int, 1 + |ds|))
  {
  }

  /** The exponent forms PHP accepts since version 7.1. */
  lemma ExponentExamples()
    ensures IntVal("1e3") == 1000 && IntVal("12e3x") == 12000 && IsNumeric("1e3")
  {
    assert Pow10(3) == 1000;
    assert DecimalValue("1") == 1 && DecimalValue("3") == 3 && DecimalValue("12") == 12 by {
      assert "12"[..1] == "1";
    }
    assert "1" + ("e" + ("3" + "")) == "1e3";
    assert "12" + ("e" + ("3" + "x")) == "12e3x";
    IntValOfExponent("1", "3", "");
    IntValOfExponent("12", "3", "x");
    IsNumericOfExponent("1", "3");
  }

  /** A string starting with a digit has no white space or sign to skip. */
  lemma IntValAtDigit(t: string)
    requires t != [] && IsDigit(t[0])
    ensures Unsigned(t) == (false, t)
  {
    assert !IsSpace(t[0]) && t[0] != '-' && t[0] != '+';
    assert SkipSpace(t) == t;
  }

  lemma IntValOfDigitString(digits: string)
    requires AllDigits(digits)
    ensures IntVal(digits) == DecimalValue(digits)
  {
    assert digits + "" == digits;
    if digits != [] { IntValOfDigits(digits, ""); }
  }

  lemma IntValOfNatToString(n: nat)
    ensures IntVal(NatToString(n)) == n
  {
    assert NatToString(n) + "" == NatToString(n);
    IntValOfDigits(NatToString(n), "");
    DecimalValueOfNatToString(n);
  }

  /** An intval() of a string that does not start with white space, a sign, a digit or a point is 0. */
  lemma IntValOfNonNumeric(s: string)
    requires s != [] && !IsSpace(s[0]) && !IsDigit(s[0]) && s[0] != '-' && s[0] != '+' && s[0] != '.'
    ensures IntVal(s) == 0
  {
    assert SkipSpace(s) == s;
  }

  lemma {:induction false} IntValNonNegative(s: string)
    requires forall i | 0 <= i < |s| :: s[i] != '-'
    ensures IntVal(s) >= 0
  {
    var t := SkipSpace(s);
    assert t == s[|s| - |t|..];
    if t != [] {
      assert t[0] == s[|s| - |t|];
    }
    assert !Unsigned(s).0;
  }

  /** intval() of any scalar. */
  function IntValue(v: Value): int {
    match v
    case Null => 0
    case Bool(b) => if b then 1 else 0
    case Int(i) => i
    case Str(s) => IntVal(s)
  }

  /** WordPress absint(): the absolute value of intval(). */
  function AbsInt(v: Value): (r: nat)
    ensures r == IntValue(v) || r == -IntValue(v)
  {
    var i := IntValue(v);
    if i < 0 then -i else i
  }

  /** PHP's string conversion of a scalar. */
  function ToStr(v: Value): string {
    match v
    case Null => ""
    case Bool(b) => if b then "1" else ""
    case Int(i) => if i < 0 then "-" + NatToString(-i) else NatToString(i)
    case Str(s) => s
  }

  /** A key of an options array; a missing key reads as null. */
  function Lookup(m: map<string, Value>, key: string): Value { if key in m then m[key] else Null }

  /** True when s is all white space. */
  predicate Blank(s: string) { forall i | 0 <= i < |s| :: IsSpace(s[i]) }

  /**
   * is_numeric() on a string: optional surrounding white space, an optional
   * sign and a numeric literal, exponent included, with nothing else.
   */
  predicate IsNumeric(s: string) {
    var u := Unsigned(s).1;
    match NumeralAt(u)
    case None => false
    case Some(n) => Blank(u[n.length..])
  }

  lemma IsNumericOfDigits(s: string)
    requires AllDigits(s) && s != []
    ensures IsNumeric(s)
  {
    assert s + "" == s;
    LeadingDigitsOfDigits(s, "");
    assert SkipSpace(s) == s;
    assert s[|s|..] == [];
  }

  lemma IsNumericOfExponent(digits: string, power: string)
    requires AllDigits(digits) && digits != [] && AllDigits(power) && power != []
    ensures IsNumeric(digits + ("e" + (power + "")))
  {
    var tail := "e" + (power + "");
    var t := digits + tail;
    assert t[0] == digits[0];
    IntValAtDigit(t);
    ExponentOfDigits(power, "");
    NumeralOfDigits(digits, tail);
    assert t[|digits| + 1 + |power|..] == [];
  }
}
