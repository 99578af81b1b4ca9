/** Which numbers the parser accepts and what they mean: the digits before and after the point, read as one natural
    number, times a power of ten. */
module JsonNumerals {
  import opened JsonParser
  import opened JsonText

  // ---------- what a numeral means ----------

  predicate AllDigits(s: string) {
    forall i :: 0 <= i < |s| ==> IsDigit(s[i])
  }

  /** Each digit counts for its place. */
  function DecimalValue(s: string): int
    requires AllDigits(s)
  {
    if s == [] then 0 else (s[0] as int - 48) * TenTo(|s| - 1) + DecimalValue(s[1..])
  }

  /** The part from the letter on; the digits may be missing. */
  datatype Exponent = NoExponent | Exponent(mark: char, sign: string, digits: string)

  /** A leading zero may be followed by further digits, and a sign need not be followed by any. No digits after the
      point means that there is no point. */
  datatype Numeral = Numeral(negative: bool, zero: bool, whole: string, fraction: string, exponent: Exponent)

  predicate IsExponent(e: Exponent) {
    match e
    case NoExponent => true
    case Exponent(mark, sign, digits) =>
      (mark == 'e' || mark == 'E') && (sign == "" || sign == "+" || sign == "-") && AllDigits(digits)
  }

  predicate IsNumeral(n: Numeral) {
    && AllDigits(n.whole) && (n.whole != [] ==> n.whole[0] != '0') && AllDigits(n.fraction) && IsExponent(n.exponent)
    && (n.negative || n.zero || n.whole != [])
  }

  function SpellExponent(e: Exponent): string {
    match e
    case NoExponent => ""
    case Exponent(mark, sign, digits) => [mark] + sign + digits
  }

  function SpellFraction(digits: string): string {
    if digits == [] then "" else "." + digits
  }

  function SpellUnsigned(n: Numeral): string {
    If(n.zero, "0") + n.whole + SpellFraction(n.fraction) + SpellExponent(n.exponent)
  }

  function SpellNumeral(n: Numeral): string {
    If(n.negative, "-") + SpellUnsigned(n)
  }

  /** The power of ten that the exponent names. */
  function PowerOf(e: Exponent): int
    requires IsExponent(e)
  {
    if e.NoExponent? then 0 else
      var k := DecimalValue(e.digits);
      if e.sign == "-" then -k else k
  }

  /** `v` is `d` times ten to the `e`. */
  predicate IsScaled(d: int, e: int, v: real) {
    if e >= 0 then v == (d * TenTo(e)) as real else
      var t := TenTo(-e) as real;
      v * t == d as real
  }

  /** The value of a numeral, as one fraction. */
  predicate IsValueOf(n: Numeral, v: real)
    requires IsNumeral(n)
  {
    var d := DecimalValue(n.whole + n.fraction);
    IsScaled(if n.negative then -d else d, PowerOf(n.exponent) - |n.fraction|, v)
  }

  lemma ScaledOnce(d: int, e: int, v: real, w: real)
    requires IsScaled(d, e, v) && IsScaled(d, e, w)
    ensures v == w
  {
    hide TenTo;
    if e < 0 {
      var t := TenTo(-e) as real;
      Cancel(v, w, t, d as real);
    }
  }

  lemma Cancel(v: real, w: real, t: real, x: real)
    requires t > 0.0 && v * t == x && w * t == x
    ensures v == w
  {
    assert (v - w) * t == v * t - w * t;
  }

  // ---------- runs of digits ----------

  predicate NoDigit(s: string) {
    s == [] || !IsDigit(s[0])
  }

  /** `d` with `k` more digits, worth `v`, appended. */
  function Shifted(d: int, k: nat, v: int): int {
    d * TenTo(k) + v
  }

  lemma {:induction false} PlacesAdd(a: string, b: string)
    requires AllDigits(a) && AllDigits(b)
    ensures DecimalValue(a + b) == Shifted(DecimalValue(a), |b|, DecimalValue(b))
  {
    hide TenTo;
    if a == [] {
      assert a + b == b;
    } else {
      assert (a + b)[1..] == a[1..] + b;
      PlacesAdd(a[1..], b);
      TensAdd(|a| - 1, |b|);
      Distribute(a[0] as int - 48, TenTo(|a| - 1), TenTo(|b|), DecimalValue(a[1..]));
    }
  }

  lemma Distribute(c: int, p: int, q: int, v: int)
    ensures (c * p + v) * q == c * (p * q) + v * q
  {
  }

  lemma {:induction false} TensAdd(m: nat, n: nat)
    ensures TenTo(m + n) == TenTo(m) * TenTo(n)
  {
    if m > 0 {
      TensAdd(m - 1, n);
      assert 10 * (TenTo(m - 1) * TenTo(n)) == 10 * TenTo(m - 1) * TenTo(n);
    }
  }

  lemma ShiftOne(d: int, c: int, k: nat, v: int)
    ensures Shifted(d * 10 + c, k, v) == Shifted(d, k + 1, c * TenTo(k) + v)
  {
    var t := TenTo(k);
    Distribute(d, 10, t, c);
    assert d * (10 * t) + c * t == (d * 10 + c) * t;
  }

  lemma ShiftNothing(d: int)
    ensures Shifted(d, 0, 0) == d && DecimalValue([]) == 0
  {
  }

  lemma ShiftZero(k: nat, v: int)
    ensures Shifted(0, k, v) == v
  {
  }

  /** A run of digits ends where the next character is none. */
  lemma {:induction false} RunOfDigits(s: string) returns (run: string)
    ensures AllDigits(run) && run <= s && NoDigit(s[|run|..])
  {
    if NoDigit(s) {
      run := [];
      assert s[0..] == s;
    } else {
      var more := RunOfDigits(s[1..]);
      run := [s[0]] + more;
      assert s[|run|..] == s[1..][|more|..];
    }
  }

  /** `acc` with `k` more digits, worth `v`, appended. */
  function Appended(acc: real, k: nat, v: int): real {
    acc * TenTo(k) as real + v as real
  }

  lemma AppendNothing(acc: real)
    ensures Appended(acc, 0, 0) == acc
  {
  }

  lemma AppendToZero(k: nat, v: int)
    ensures Appended(0.0, k, v) == v as real
  {
  }

  lemma AppendOne(acc: real, c: int, k: nat, v: int)
    ensures Appended(acc * 10.0 + c as real, k, v) == Appended(acc, k + 1, c * TenTo(k) + v)
  {
    Shift(acc, c, TenTo(k), v);
  }

  lemma Shift(acc: real, c: int, p: int, v: int)
    ensures (acc * 10.0 + c as real) * p as real + v as real == acc * (10 * p) as real + (c * p + v) as real
  {
    assert acc * (10 * p) as real == acc * 10.0 * p as real;
    assert (c * p) as real == c as real * p as real;
  }

  lemma AppendToNat(d: int, k: nat, v: int)
    ensures Appended(d as real, k, v) == Shifted(d, k, v) as real
  {
    var t := TenTo(k);
    assert (d * t) as real == d as real * t as real;
  }

  lemma {:induction false} DigitsAreTaken(run: string, rest: string, acc: real)
    requires AllDigits(run) && NoDigit(rest)
    ensures TakeDigits(run + rest, acc) == (Appended(acc, |run|, DecimalValue(run)), rest)
  {
    hide Appended, TenTo;
    if run == [] {
      assert run + rest == rest;
      AppendNothing(acc);
    } else {
      assert (run + rest)[1..] == run[1..] + rest && (run + rest)[0] == run[0];
      var c := run[0] as int - 48;
      DigitsAreTaken(run[1..], rest, acc * 10.0 + c as real);
      AppendOne(acc, c, |run| - 1, DecimalValue(run[1..]));
    }
  }

  lemma {:induction false} IntIsTaken(run: string, rest: string, acc: int)
    requires AllDigits(run) && NoDigit(rest)
    ensures TakeInt(run + rest, acc) == (Shifted(acc, |run|, DecimalValue(run)), rest)
  {
    hide Shifted, TenTo;
    if run == [] {
      assert run + rest == rest;
      ShiftNothing(acc);
    } else {
      assert (run + rest)[1..] == run[1..] + rest && (run + rest)[0] == run[0];
      var c := run[0] as int - 48;
      IntIsTaken(run[1..], rest, acc * 10 + c);
      ShiftOne(acc, c, |run| - 1, DecimalValue(run[1..]));
    }
  }

  // ---------- powers of ten ----------

  lemma {:induction false} PowersAreTens(k: int)
    requires k >= 0
    ensures Pow10(k) == TenTo(k) as real && Pow10(-k) * TenTo(k) as real == 1.0
    decreases k
  {
    if k > 0 {
      PowersAreTens(k - 1);
      assert -k + 1 == -(k - 1);
      Tenth(Pow10(-k + 1), TenTo(k - 1));
    }
  }

  lemma Tenth(p: real, t: int)
    requires p * t as real == 1.0
    ensures p / 10.0 * (10 * t) as real == 1.0
  {
    assert (10 * t) as real == 10.0 * t as real;
  }

  /** What the parser computes. */
  function Product(d: int, e: int): real {
    d as real * Pow10(e)
  }

  lemma ScaledUp(d: int, e: int, t: int)
    requires e >= 0 && t == TenTo(e) && Pow10(e) == t as real
    ensures IsScaled(d, e, Product(d, e))
  {
    hide Pow10, TenTo;
    assert (d * t) as real == d as real * t as real;
  }

  lemma Regroup(d: real, p: real, t: real)
    requires p * t == 1.0
    ensures d * p * t == d
  {
    assert d * p * t == d * (p * t);
  }

  lemma ScaledDown(d: int, e: int, p: real, t: real)
    requires e < 0 && t == TenTo(-e) as real && Pow10(e) == p && p * t == 1.0
    ensures IsScaled(d, e, Product(d, e))
  {
    hide Pow10, TenTo;
    Regroup(d as real, p, t);
    var v := d as real * p;
    assert Product(d, e) == v;
  }

  lemma Scaled(d: int, e: int)
    ensures IsScaled(d, e, Product(d, e))
  {
    hide Pow10, TenTo, IsScaled, Product;
    if e >= 0 {
      PowersAreTens(e);
      ScaledUp(d, e, TenTo(e));
    } else {
      PowersAreTens(-e);
      assert -(-e) == e;
      var (p, t) := (Pow10(e), TenTo(-e) as real);
      assert p * t == 1.0;
      ScaledDown(d, e, p, t);
    }
  }

  lemma Negated(d: int, e: int)
    ensures -1.0 * Product(d, e) == Product(-d, e)
  {
  }

  // ---------- numerals are accepted ----------

  /** A character that may be part of a number. */
  predicate InNumber(c: char) {
    IsDigit(c) || c == '.' || c == 'e' || c == 'E' || c == '+' || c == '-'
  }

  /** Nothing at the front of `rest` could be taken for more of a number, however that one ended. */
  predicate Stops(rest: string) {
    !InNumber(At(rest, 0))
  }

  lemma FractionIs(digits: string, rest: string, n: real, m: real)
    requires AllDigits(digits) && digits != [] && TakeDigits(digits + rest, n) == (m, rest)
    ensures ParseFraction("." + digits + rest, n) == (m, -|digits|, rest)
  {
    hide TakeDigits;
    var s := "." + digits + rest;
    assert s[1..] == digits + rest && s[1] == digits[0];
  }

  lemma TakesFraction(digits: string, rest: string, d: int)
    requires AllDigits(digits) && NoDigit(rest) && (digits == [] ==> At(rest, 0) != '.')
    ensures ParseFraction(SpellFraction(digits) + rest, d as real)
      == (Shifted(d, |digits|, DecimalValue(digits)) as real, -|digits|, rest)
  {
    hide TakeDigits, Shifted, Appended, DecimalValue;
    if digits == [] {
      assert SpellFraction(digits) + rest == rest;
      ShiftNothing(d);
    } else {
      DigitsAreTaken(digits, rest, d as real);
      AppendToNat(d, |digits|, DecimalValue(digits));
      FractionIs(digits, rest, d as real, Shifted(d, |digits|, DecimalValue(digits)) as real);
    }
  }

  lemma TakesExponent(e: Exponent, rest: string)
    requires IsExponent(e) && (if e.NoExponent? then At(rest, 0) != 'e' && At(rest, 0) != 'E' else NoDigit(rest))
    requires e.Exponent? && e.sign == "" && e.digits == [] ==> At(rest, 0) != '+' && At(rest, 0) != '-'
    ensures ParseExponent(SpellExponent(e) + rest) == (PowerOf(e), rest)
  {
    hide TakeInt, Shifted, DecimalValue;
    var s := SpellExponent(e) + rest;
    if e.NoExponent? {
      assert s == rest;
    } else {
      IntIsTaken(e.digits, rest, 0);
      ShiftZero(|e.digits|, DecimalValue(e.digits));
      var more := e.digits + rest;
      if e.sign == "" {
        assert s == [e.mark] + more;
        assert At(s, 1) == At(more, 0);
      } else {
        assert s == [e.mark, e.sign[0]] + more;
      }
    }
  }

  /** The first part of a number: an optional zero and digits. */
  function WholePart(s: string): (real, string) {
    var s1 := if At(s, 0) == '0' then s[1..] else s;
    if '1' <= At(s1, 0) <= '9' then TakeDigits(s1, 0.0) else (0.0, s1)
  }

  lemma LeavesZero(zero: bool, t: string)
    requires At(t, 0) == '0' ==> zero
    ensures var s := If(zero, "0") + t; (if At(s, 0) == '0' then s[1..] else s) == t
  {
    if !zero {
      assert [] + t == t;
    }
  }

  lemma NoneIsZero(s: string)
    requires s == []
    ensures DecimalValue(s) == 0
  {
  }

  lemma WholeIs(s: string, t: string, v: real, rest: string)
    requires (if At(s, 0) == '0' then s[1..] else s) == t
    requires if '1' <= At(t, 0) <= '9' then TakeDigits(t, 0.0) == (v, rest) else v == 0.0 && t == rest
    ensures WholePart(s) == (v, rest)
  {
    hide TakeDigits;
  }

  lemma TakesWhole(zero: bool, whole: string, rest: string)
    requires AllDigits(whole) && (whole != [] ==> whole[0] != '0' && NoDigit(rest))
    requires whole == [] ==> !('1' <= At(rest, 0) <= '9') && (At(rest, 0) == '0' ==> zero)
    ensures WholePart(If(zero, "0") + whole + rest) == (DecimalValue(whole) as real, rest)
  {
    hide TakeDigits, Appended, DecimalValue, If, WholePart;
    var t := whole + rest;
    LeavesZero(zero, t);
    Regrouped(If(zero, "0"), whole, rest);
    var v := DecimalValue(whole) as real;
    if whole == [] {
      assert t == rest;
      NoneIsZero(whole);
    } else {
      assert t[0] == whole[0];
      DigitsAreTaken(whole, rest, 0.0);
      AppendToZero(|whole|, DecimalValue(whole));
    }
    WholeIs(If(zero, "0") + whole + rest, t, v, rest);
  }

  /** How the parts of a number put together give it. */
  lemma UnsignedIs(s: string, s2: string, s3: string, s4: string, n: real, m: int, scale: int, subscale: int)
    requires WholePart(s) == (n, s2) && ParseFraction(s2, n) == (m as real, scale, s3)
    requires ParseExponent(s3) == (subscale, s4)
    ensures ParseUnsigned(s) == (Product(m, scale + subscale), s4)
  {
    hide TakeDigits, ParseFraction, ParseExponent, Pow10;
    var value := m as real * Pow10(scale + subscale);
    assert ParseUnsigned(s).0 == value;
  }

  lemma UnsignedIsTaken(n: Numeral, rest: string)
    requires IsNumeral(n) && Stops(rest)
    ensures ParseUnsigned(SpellUnsigned(n) + rest)
      == (Product(DecimalValue(n.whole + n.fraction), PowerOf(n.exponent) - |n.fraction|), rest)
  {
    hide Product, DecimalValue, ParseUnsigned, ParseFraction, ParseExponent, WholePart;
    var s3 := SpellExponent(n.exponent) + rest;
    var s2 := SpellFraction(n.fraction) + s3;
    var s := SpellUnsigned(n) + rest;
    assert s == If(n.zero, "0") + n.whole + s2;
    TakesWhole(n.zero, n.whole, s2);
    TakesFraction(n.fraction, s3, DecimalValue(n.whole));
    TakesExponent(n.exponent, rest);
    PlacesAdd(n.whole, n.fraction);
    UnsignedIs(s, s2, s3, rest, DecimalValue(n.whole) as real, DecimalValue(n.whole + n.fraction),
               -|n.fraction|, PowerOf(n.exponent));
    assert -|n.fraction| + PowerOf(n.exponent) == PowerOf(n.exponent) - |n.fraction|;
  }

  lemma SignIsRead(t: string, v: real, w: real, rest: string)
    requires ParseUnsigned(t) == (v, rest) && w == -1.0 * v
    ensures ParseNumber("-" + t) == (w, rest)
    ensures At(t, 0) != '-' ==> ParseNumber(t) == (v, rest)
  {
    hide ParseUnsigned;
    assert ("-" + t)[1..] == t;
  }

  /** Every numeral is read as its value, and exactly to its end. */
  lemma NumeralIsRead(n: Numeral, rest: string)
    requires IsNumeral(n) && Stops(rest)
    ensures ParseNumber(SpellNumeral(n) + rest).1 == rest && IsValueOf(n, ParseNumber(SpellNumeral(n) + rest).0)
  {
    hide ParseUnsigned, ParseNumber, Product, DecimalValue, IsScaled, SpellUnsigned, PowerOf, IsExponent, Stops, AllDigits;
    UnsignedIsTaken(n, rest);
    var t := SpellUnsigned(n) + rest;
    BothDigits(n.whole, n.fraction);
    var d, e := DecimalValue(n.whole + n.fraction), PowerOf(n.exponent) - |n.fraction|;
    Negated(d, e);
    SignIsRead(t, Product(d, e), Product(-d, e), rest);
    if n.negative {
      Regrouped("-", SpellUnsigned(n), rest);
      Scaled(-d, e);
    } else {
      assert [] + SpellUnsigned(n) == SpellUnsigned(n);
      Scaled(d, e);
      StartsUnsigned(n, rest);
    }
  }

  lemma StartsUnsigned(n: Numeral, rest: string)
    requires IsNumeral(n) && !n.negative
    ensures IsDigit(At(SpellUnsigned(n) + rest, 0))
  {
  }

  // ---------- nothing else is ----------

  lemma ExponentAt(s: string) returns (e: Exponent, rest: string)
    ensures IsExponent(e) && s == SpellExponent(e) + rest && ParseExponent(s) == (PowerOf(e), rest)
  {
    hide DecimalValue, ParseExponent;
    if At(s, 0) == 'e' || At(s, 0) == 'E' {
      var sign := if At(s, 1) == '+' then "+" else if At(s, 1) == '-' then "-" else "";
      assert s == [s[0]] + sign + s[1 + |sign|..];
      var digits := RunOfDigits(s[1 + |sign|..]);
      rest := s[1 + |sign|..][|digits|..];
      e := Exponent(s[0], sign, digits);
      Regrouped([s[0]] + sign, digits, rest);
      assert s == SpellExponent(e) + rest;
    } else {
      e, rest := NoExponent, s;
      assert [] + s == s;
    }
    TakesExponent(e, rest);
  }

  lemma Regrouped(a: string, b: string, c: string)
    ensures a + (b + c) == a + b + c
  {
  }

  lemma NoFraction(s: string, n: real)
    requires At(s, 0) != '.' || !IsDigit(At(s, 1))
    ensures ParseFraction(s, n) == (n, 0, s)
  {
  }

  lemma FractionAt(s: string, d: int) returns (digits: string, rest: string)
    requires NoDigit(s)
    ensures AllDigits(digits) && s == SpellFraction(digits) + rest
    ensures ParseFraction(s, d as real) == (Shifted(d, |digits|, DecimalValue(digits)) as real, -|digits|, rest)
  {
    hide DecimalValue, Shifted, ParseFraction;
    if At(s, 0) == '.' && IsDigit(At(s, 1)) {
      digits := RunOfDigits(s[1..]);
      rest := s[1..][|digits|..];
      assert s == "." + digits + rest;
      TakesFraction(digits, rest, d);
    } else {
      digits, rest := [], s;
      assert [] + s == s;
      ShiftNothing(d);
      NoFraction(s, d as real);
    }
  }

  lemma WholeAt(s: string) returns (zero: bool, whole: string, rest: string)
    ensures AllDigits(whole) && (whole != [] ==> whole[0] != '0' && NoDigit(rest)) && s == If(zero, "0") + whole + rest
    ensures s != [] && IsDigit(s[0]) ==> zero || whole != []
    ensures WholePart(s) == (DecimalValue(whole) as real, rest)
  {
    hide WholePart, DecimalValue;
    zero := At(s, 0) == '0';
    var s1 := if zero then s[1..] else s;
    if '1' <= At(s1, 0) <= '9' {
      whole := RunOfDigits(s1);
      rest := s1[|whole|..];
      assert s1 == whole + rest;
    } else {
      whole, rest := [], s1;
    }
    assert s == If(zero, "0") + whole + rest;
    TakesWhole(zero, whole, rest);
  }

  lemma FractionAfter(s: string, whole: string) returns (digits: string, rest: string)
    requires AllDigits(whole) && (whole != [] ==> NoDigit(s))
    ensures AllDigits(digits) && s == SpellFraction(digits) + rest
    ensures ParseFraction(s, DecimalValue(whole) as real) == (DecimalValue(whole + digits) as real, -|digits|, rest)
  {
    hide DecimalValue, Shifted, TakeDigits;
    if NoDigit(s) {
      digits, rest := FractionAt(s, DecimalValue(whole));
      PlacesAdd(whole, digits);
    } else {
      digits, rest := [], s;
      assert [] + s == s && whole + [] == whole;
    }
  }

  lemma FourParts(a: string, b: string, c: string, d: string, rest: string)
    ensures a + b + (c + (d + rest)) == a + b + c + d + rest
  {
  }

  /** What is read as a number is a numeral, read as its value. */
  lemma ReadIsNumeral(s: string) returns (n: Numeral)
    requires s != [] && (s[0] == '-' || IsDigit(s[0]))
    ensures IsNumeral(n) && s == SpellNumeral(n) + ParseNumber(s).1 && IsValueOf(n, ParseNumber(s).0)
  {
    hide Product, DecimalValue, IsScaled, WholePart, ParseFraction, ParseExponent, ParseUnsigned, SpellFraction,
      SpellExponent, IsExponent, AllDigits, PowerOf;
    var negative := s[0] == '-';
    var t := if negative then s[1..] else s;
    var zero, whole, s2 := WholeAt(t);
    var fraction, s3 := FractionAfter(s2, whole);
    var exponent, rest := ExponentAt(s3);
    n := Numeral(negative, zero, whole, fraction, exponent);
    BothDigits(whole, fraction);
    var d, e := DecimalValue(whole + fraction), PowerOf(exponent) - |fraction|;
    UnsignedIs(t, s2, s3, rest, DecimalValue(whole) as real, d, -|fraction|, PowerOf(exponent));
    assert -|fraction| + PowerOf(exponent) == e;
    FourParts(If(zero, "0"), whole, SpellFraction(fraction), SpellExponent(exponent), rest);
    assert t == SpellUnsigned(n) + rest;
    if negative {
      assert s == "-" + t;
      Regrouped("-", SpellUnsigned(n), rest);
      Scaled(-d, e);
      Negated(d, e);
    } else {
      assert [] + SpellUnsigned(n) == SpellUnsigned(n);
      Scaled(d, e);
    }
  }

  lemma BothDigits(a: string, b: string)
    requires AllDigits(a) && AllDigits(b)
    ensures AllDigits(a + b)
  {
  }

  // ---------- printed numbers ----------

  /** The decimal digits of a number: its value, without a leading zero. */
  lemma {:induction false} DigitsAreDecimal(n: nat)
    ensures AllDigits(Digits(n)) && DecimalValue(Digits(n)) == n && Digits(n) != []
    ensures n > 0 ==> Digits(n)[0] != '0'
  {
    var last := [DigitChar(n % 10)];
    assert DecimalValue(last) == n % 10 && AllDigits(last) && TenTo(1) == 10;
    if n >= 10 {
      DigitsAreDecimal(n / 10);
      PlacesAdd(Digits(n / 10), last);
    }
  }
}
