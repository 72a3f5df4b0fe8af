/**
 * JavaScript numbers as the dashboard meets them: the result of `Number(s)` on
 * a string (StringToNumber, section 7.1.4.1.1 of ECMA-262), the comparisons
 * `<` and `>` against an integer, and the sign of `Number(a) - Number(b)` that
 * sorting by numeric code uses. A finite number is kept as the exact real
 * value of its literal (no rounding to a double).
 */
module JsNumber {
  import opened Wrappers
  import opened JsString

  datatype Num = Finite(value: real) | NaN | PosInfinity | NegInfinity

  predicate IsDigit(c: char) { '0' <= c <= '9' }

  predicate AllDigits(s: string) { forall i :: 0 <= i < |s| ==> IsDigit(s[i]) }

  function Pow10(n: nat): (p: nat)
    ensures p >= 1
  {
    if n == 0 then 1 else 10 * Pow10(n - 1)
  }

  function DigitValue(c: char, radix: nat): int {
    if '0' <= c <= '9' then c as int - '0' as int
    else if 'a' <= c <= 'f' then c as int - 'a' as int + 10
    else if 'A' <= c <= 'F' then c as int - 'A' as int + 10
    else radix
  }

  predicate IsRadixDigit(c: char, radix: nat) {
    0 <= DigitValue(c, radix) < radix
  }

  lemma MulNonNegative(a: nat, b: nat)
    ensures a * b >= 0
  {
  }

  /** The value of a digit string in base `radix`, most significant digit first. */
  function RadixValue(s: string, radix: nat): (v: nat)
    requires forall i :: 0 <= i < |s| ==> IsRadixDigit(s[i], radix)
  {
    if s == [] then 0
    else
      var init := s[..|s| - 1];
      assert forall i :: 0 <= i < |init| ==> init[i] == s[i];
      var prev := RadixValue(init, radix);
      var d := DigitValue(s[|s| - 1], radix);
      MulNonNegative(prev, radix);
      prev * radix + d
  }

  function DigitsValue(s: string): nat
    requires AllDigits(s)
  {
    RadixValue(s, 10)
  }

  /** `m * 10^e` for an integer exponent `e`. */
  function Scale(m: nat, e: int): real {
    if e >= 0 then (m * Pow10(e)) as real else m as real / Pow10(-e) as real
  }

  /** SignedInteger of an ExponentPart: optional sign, then at least one digit. */
  function ParseSignedInteger(t: string): Option<int> {
    if t != [] && (t[0] == '+' || t[0] == '-') then
      var d := t[1..];
      if d != [] && AllDigits(d) then Some(if t[0] == '-' then 0 - DigitsValue(d) else DigitsValue(d)) else None
    else if t != [] && AllDigits(t) then Some(DigitsValue(t))
    else None
  }

  /** Index of the first `e` or `E`, or `|t|`. */
  function ExponentIndex(t: string): (k: nat)
    ensures k <= |t|
    ensures k < |t| ==> t[k] == 'e' || t[k] == 'E'
    ensures forall i :: 0 <= i < k ==> t[i] != 'e' && t[i] != 'E'
  {
    if t == [] then 0 else if t[0] == 'e' || t[0] == 'E' then 0 else 1 + ExponentIndex(t[1..])
  }

  /**
   * StrUnsignedDecimalLiteral other than `Infinity`: `D.D?E?`, `.DE?` or `DE?`,
   * with D a non-empty digit run and E an exponent part.
   */
  function ParseUnsignedDecimal(t: string): Option<real> {
    var e := ExponentIndex(t);
    var mantissa := t[..e];
    var exponent := if e == |t| then Some(0) else ParseSignedInteger(t[e + 1..]);
    var d := IndexOf(mantissa, '.');
    var whole := mantissa[..d];
    var fraction := if d < |mantissa| then mantissa[d + 1..] else "";
    if exponent.None? || !AllDigits(whole) || !AllDigits(fraction) || (whole == [] && fraction == []) then None
    else Some(Scale(DigitsValue(whole + fraction), exponent.value - |fraction|))
  }

  function RadixOf(c: char): nat {
    if c == 'x' || c == 'X' then 16 else if c == 'o' || c == 'O' then 8 else if c == 'b' || c == 'B' then 2 else 0
  }

  /** `Number(s)` for a string `s`. */
  function ToNumber(s: string): Num {
    var t := Trim(s);
    if t == [] then Finite(0.0)
    else if t == "Infinity" || t == "+Infinity" then PosInfinity
    else if t == "-Infinity" then NegInfinity
    else if |t| >= 2 && t[0] == '0' && RadixOf(t[1]) != 0 then
      var digits := t[2..];
      if digits != [] && forall i :: 0 <= i < |digits| ==> IsRadixDigit(digits[i], RadixOf(t[1]))
      then Finite(RadixValue(digits, RadixOf(t[1])) as real)
      else NaN
    else if t[0] == '+' || t[0] == '-' then
      match ParseUnsignedDecimal(t[1..])
      case Some(v) => Finite(if t[0] == '-' then -v else v)
      case None => NaN
    else
      match ParseUnsignedDecimal(t)
      case Some(v) => Finite(v)
      case None => NaN
  }

  /** `Number(x)` where `x` is a string or `undefined` (a missing CSV column). */
  function ToNumberOf(o: Option<string>): Num {
    match o
    case Some(s) => ToNumber(s)
    case None => NaN
  }

  /** `n < k`: false whenever `n` is NaN. */
  predicate LessThan(n: Num, k: int) {
    match n
    case Finite(r) => r < k as real
    case NegInfinity => true
    case _ => false
  }

  /** `n > k`: false whenever `n` is NaN. */
  predicate GreaterThan(n: Num, k: int) {
    match n
    case Finite(r) => r > k as real
    case PosInfinity => true
    case _ => false
  }

  /** `a - b` on JavaScript numbers (infinities included). */
  function Subtract(a: Num, b: Num): Num {
    match (a, b)
    case (Finite(x), Finite(y)) => Finite(x - y)
    case (PosInfinity, Finite(_)) => PosInfinity
    case (NegInfinity, Finite(_)) => NegInfinity
    case (Finite(_), PosInfinity) => NegInfinity
    case (Finite(_), NegInfinity) => PosInfinity
    case (PosInfinity, NegInfinity) => PosInfinity
    case (NegInfinity, PosInfinity) => NegInfinity
    case _ => NaN
  }

  /** How `Array.prototype.sort` reads a comparator result: its sign, with NaN read as 0. */
  function ComparatorSign(n: Num): int {
    match n
    case Finite(r) => if r < 0.0 then -1 else if r > 0.0 then 1 else 0
    case PosInfinity => 1
    case NegInfinity => -1
    case NaN => 0
  }

  /** Order of the extended reals on numbers that are not NaN. */
  predicate NumLe(a: Num, b: Num) {
    match (a, b)
    case (NegInfinity, _) => true
    case (_, PosInfinity) => true
    case (Finite(x), Finite(y)) => x <= y
    case _ => false
  }

  /** The comparator sign of `a - b` agrees with the order of the extended reals. */
  lemma ComparatorSignOrder(a: Num, b: Num)
    requires !a.NaN? && !b.NaN?
    ensures ComparatorSign(Subtract(a, b)) <= 0 <==> NumLe(a, b)
    ensures ComparatorSign(Subtract(a, b)) >= 0 <==> NumLe(b, a)
  {
  }

  lemma NumLeTotal(a: Num, b: Num)
    requires !a.NaN? && !b.NaN?
    ensures NumLe(a, b) || NumLe(b, a)
  {
  }

  lemma NumLeTransitive(a: Num, b: Num, c: Num)
    requires !a.NaN? && !b.NaN? && !c.NaN?
    requires NumLe(a, b) && NumLe(b, c)
    ensures NumLe(a, c)
  {
  }

  lemma Distribute(x: int, p: int, y: int, d: int)
    ensures (x * p + y) * 10 + d == x * (p * 10) + (y * 10 + d)
  {
  }

  /** The value of digits `a` then digits `b` is `value(a) * 10^|b| + value(b)`. */
  lemma {:induction false} DigitsValueAppend(a: string, b: string)
    requires AllDigits(a) && AllDigits(b)
    ensures AllDigits(a + b)
    ensures DigitsValue(a + b) == DigitsValue(a) * Pow10(|b|) + DigitsValue(b)
  {
    assert AllDigits(a + b);
    if b != [] {
      var b' := b[..|b| - 1];
      assert (a + b)[..|a + b| - 1] == a + b';
      DigitsValueAppend(a, b');
      var d := DigitValue(b[|b| - 1], 10);
      assert DigitsValue(a + b) == DigitsValue(a + b') * 10 + d;
      assert DigitsValue(b) == DigitsValue(b') * 10 + d;
      assert Pow10(|b|) == Pow10(|b'|) * 10;
      Distribute(DigitsValue(a), Pow10(|b'|), DigitsValue(b'), d);
    } else {
      assert a + b == a;
    }
  }

  /** A trimmed decimal literal that starts with a digit and has no radix prefix is read by ParseUnsignedDecimal. */
  lemma ToNumberOfPlainDecimal(t: string)
    requires t != [] && IsTrimmed(t) && IsDigit(t[0])
    requires |t| >= 2 ==> RadixOf(t[1]) == 0
    ensures ToNumber(t) == match ParseUnsignedDecimal(t) case Some(v) => Finite(v) case None => NaN
  {
    TrimOfTrimmed(t);
  }

  lemma TrimOfTrimmed(t: string)
    requires IsTrimmed(t)
    ensures Trim(t) == t
  {
  }

  /** Digits, a point and digits, without exponent: the mantissa splits at the point. */
  lemma {:induction false} ParsePointed(w: string, fraction: string)
    requires w != [] && AllDigits(w) && AllDigits(fraction)
    ensures ParseUnsignedDecimal(w + "." + fraction)
         == Some(Scale(DigitsValue(w + fraction), 0 - |fraction|))
  {
    var t := w + "." + fraction;
    forall i | 0 <= i < |t| ensures t[i] != 'e' && t[i] != 'E' {
      if i < |w| { assert t[i] == w[i]; } else if i > |w| { assert t[i] == fraction[i - |w| - 1]; }
    }
    ExponentIndexAbsent(t);
    assert '.' !in w by { forall i | 0 <= i < |w| ensures w[i] != '.' { assert IsDigit(w[i]); } }
    assert t == w + ("." + fraction);
    IndexOfAfterPrefix(w, "." + fraction, '.');
    assert t[..|t|] == t;
    assert t[..|w|] == w;
    assert t[|w| + 1..] == fraction;
    DigitsValueAppend(w, fraction);
  }

  /**
   * Round trip with the decimal form: `Number` reads digits `w`, a point and
   * digits `fraction` as the integer spelled by all the digits divided by
   * 10 to the number of fraction digits.
   */
  lemma PointedNumber(w: string, fraction: string)
    requires w != [] && AllDigits(w) && AllDigits(fraction)
    ensures AllDigits(w + fraction)
    ensures ToNumber(w + "." + fraction) == Finite(Scale(DigitsValue(w + fraction), 0 - |fraction|))
  {
    PointedText(w, fraction);
    ParsePointed(w, fraction);
    ToNumberOfPlainDecimal(w + "." + fraction);
  }

  lemma PointedText(w: string, fraction: string)
    requires w != [] && AllDigits(w) && AllDigits(fraction)
    ensures var t := w + "." + fraction; t != [] && IsTrimmed(t) && IsDigit(t[0]) && (|t| >= 2 ==> RadixOf(t[1]) == 0)
  {
    var t := w + "." + fraction;
    assert IsDigit(t[0]);
    if |w| >= 2 { assert IsDigit(t[1]); } else { assert t[1] == '.'; }
    if fraction == [] { assert t[|t| - 1] == '.'; } else { assert t[|t| - 1] == fraction[|fraction| - 1]; }
  }

  lemma ExponentIndexAbsent(t: string)
    requires forall i :: 0 <= i < |t| ==> t[i] != 'e' && t[i] != 'E'
    ensures ExponentIndex(t) == |t|
  {
    if t != [] { ExponentIndexAbsent(t[1..]); }
  }

  lemma IndexOfAfterPrefix(a: string, b: string, c: char)
    requires c !in a && b != [] && b[0] == c
    ensures IndexOf(a + b, c) == |a|
  {
    if a != [] {
      assert (a + b)[1..] == a[1..] + b;
      IndexOfAfterPrefix(a[1..], b, c);
    } else {
      assert a + b == b;
    }
  }

  /** A signed integer with a character other than a sign or a digit is not one. */
  lemma SignedIntegerRejects(t: string, k: nat)
    requires k < |t| && !IsDigit(t[k]) && t[k] != '+' && t[k] != '-'
    ensures ParseSignedInteger(t) == None
  {
    if t != [] && (t[0] == '+' || t[0] == '-') {
      assert t[1..][k - 1] == t[k];
    }
  }

  /** A decimal literal with a comma in it is not one. */
  lemma UnsignedDecimalRejectsComma(t: string, k: nat)
    requires k < |t| && t[k] == ','
    ensures ParseUnsignedDecimal(t) == None
  {
    var e := ExponentIndex(t);
    var mantissa := t[..e];
    if k < e {
      var d := IndexOf(mantissa, '.');
      assert mantissa[k] == ',';
      if k < d {
        assert mantissa[..d][k] == ',';
      } else {
        assert k > d;
        assert mantissa[d + 1..][k - d - 1] == ',';
      }
    } else {
      assert k > e;
      SignedIntegerRejects(t[e + 1..], k - e - 1);
    }
  }

  /** `Number` of a string holding a comma is NaN: the comma is neither trimmed nor part of any literal. */
  lemma CommaIsNotANumber(s: string, k: nat)
    requires k < |s| && s[k] == ','
    ensures ToNumber(s) == NaN
  {
    TrimKeeps(s, k);
    var t := Trim(s);
    var j :| 0 <= j < |t| && t[j] == ',';
    assert ',' !in "Infinity" && ',' !in "+Infinity" && ',' !in "-Infinity";
    if |t| >= 2 && t[0] == '0' && RadixOf(t[1]) != 0 {
      assert j >= 2;
      assert t[2..][j - 2] == ',';
      assert !IsRadixDigit(t[2..][j - 2], RadixOf(t[1]));
    } else if t[0] == '+' || t[0] == '-' {
      UnsignedDecimalRejectsComma(t[1..], j - 1);
    } else {
      UnsignedDecimalRejectsComma(t, j);
    }
  }
}
