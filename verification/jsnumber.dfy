/** JavaScript numbers as far as the screens use them: the three ways text becomes a
    number (`parseFloat`, `parseInt`, `Number(...)`), comparison with NaN and the
    infinities, `x.toFixed(2)` read back as a number, and `String(x)` for amounts with at
    most two decimals. Finite values are exact rationals (`real`); IEEE-754 rounding and
    overflow are not modelled. */
module JsNumber {
  import opened Text
  import opened Wrappers

  /** A JavaScript number. */
  datatype Num = Finite(v: real) | PosInf | NegInf | NaN

  /** JavaScript's `a <= b`: false whenever either side is NaN. */
  predicate Le(a: Num, b: Num) {
    match (a, b)
    case (NaN, _) => false
    case (_, NaN) => false
    case (NegInf, _) => true
    case (_, PosInf) => true
    case (Finite(x), Finite(y)) => x <= y
    case (_, _) => false
  }

  /** Number of leading decimal digits of `s`. */
  function DigitRun(s: string): (n: nat)
    ensures n <= |s|
    ensures AllDigits(s[..n])
    ensures n < |s| ==> !IsDigit(s[n])
  {
    if s != [] && IsDigit(s[0]) then 1 + DigitRun(s[1..]) else 0
  }

  predicate AllDigits(s: string) {
    forall i :: 0 <= i < |s| ==> IsDigit(s[i])
  }

  /** The value of a string of decimal digits, most significant first. */
  function DigitsValue(ds: string): nat
    requires AllDigits(ds)
  {
    if ds == [] then 0 else DigitsValue(ds[..|ds| - 1]) * 10 + DigitValue(ds[|ds| - 1])
  }

  /** The magnitude and length of the unsigned decimal literal at the start of a text. */
  datatype Literal = NoLiteral | Literal(value: real, len: nat)

  /** `e`/`E`, an optional sign and at least one digit: the exponent and its length. */
  function ScanExponent(w: string): (r: Option<(int, nat)>)
    ensures r.Some? ==> 2 <= r.value.1 <= |w|
  {
    if |w| < 2 || (w[0] != 'e' && w[0] != 'E') then None
    else
      var k := if w[1] == '+' || w[1] == '-' then 2 else 1;
      var digits := w[k..];
      var c := DigitRun(digits);
      if c == 0 then None
      else
        var e: int := DigitsValue(digits[..c]);
        Some((if w[1] == '-' then -e else e, k + c))
  }

  /** `d / 10^b`: `b` decimals written as the digits `d`. */
  function Fraction(d: nat, b: nat): (r: real)
    ensures r >= 0.0
  {
    if b == 0 then d as real else Fraction(d, b - 1) / 10.0
  }

  lemma FractionOne(d: nat)
    ensures Fraction(d, 1) == d as real / 10.0
  {
  }

  lemma FractionTwo(d: nat)
    ensures Fraction(d, 2) == d as real / 100.0
  {
    FractionOne(d);
  }

  /** `x * 10^e`. */
  function Scaled(x: real, e: int): (r: real)
    ensures x >= 0.0 ==> r >= 0.0
    decreases if e >= 0 then e else -e
  {
    if e == 0 then x
    else if e > 0 then Scaled(x, e - 1) * 10.0
    else Scaled(x, e + 1) / 10.0
  }

  /** Scaling up commutes with multiplying by a constant. */
  lemma {:induction false} ScaledTimes(x: real, c: real, e: nat)
    ensures Scaled(x * c, e) == Scaled(x, e) * c
  {
    if e > 0 {
      ScaledTimes(x, c, e - 1);
      assert Scaled(x * c, e) == Scaled(x, e - 1) * c * 10.0;
    }
  }

  /** `b` decimals written as the digits `d`, scaled up by `10^b`, are `d` again. */
  lemma {:induction false} FractionScaledBack(d: nat, b: nat)
    ensures Scaled(Fraction(d, b), b) == d as real
  {
    if b > 0 {
      var f := Fraction(d, b - 1);
      FractionScaledBack(d, b - 1);
      ScaledTimes(f / 10.0, 10.0, b - 1);
      assert f / 10.0 * 10.0 == f;
    }
  }

  /** The longest prefix of `u` that is an unsigned decimal literal: digits, an optional
      `.` with digits, and an optional exponent, with at least one digit before the
      exponent. */
  function ScanUnsigned(u: string): (r: Literal)
    ensures r.Literal? ==> 0 < r.len <= |u| && r.value >= 0.0
    ensures r.NoLiteral? <==> !(u != [] && IsDigit(u[0])) && !(|u| >= 2 && u[0] == '.' && IsDigit(u[1]))
  {
    var a := DigitRun(u);
    var hasDot := a < |u| && u[a] == '.';
    var decimals := if hasDot then u[a + 1..] else [];
    var b := DigitRun(decimals);
    if a == 0 && b == 0 then NoLiteral
    else
      var whole := DigitsValue(u[..a]) as real;
      var frac := if hasDot then Fraction(DigitsValue(decimals[..b]), b) else 0.0;
      var n := if hasDot then a + 1 + b else a;
      match ScanExponent(u[n..])
      case None => Literal(whole + frac, n)
      case Some((e, elen)) => Literal(Scaled(whole + frac, e), n + elen)
  }

  /** `u` begins with `p`, compared character by character. */
  predicate StartsWith(u: string, p: string) {
    p == [] || (u != [] && u[0] == p[0] && StartsWith(u[1..], p[1..]))
  }

  predicate StartsWithInfinity(u: string) {
    StartsWith(u, "Infinity")
  }

  /** The text after one optional leading sign, and whether that sign was `-`. */
  function Unsign(t: string): (r: (bool, string))
    ensures r.1 == t || (t != [] && (t[0] == '+' || t[0] == '-') && r.1 == t[1..])
    ensures r.0 <==> t != [] && t[0] == '-'
  {
    if t != [] && (t[0] == '-' || t[0] == '+') then (t[0] == '-', t[1..]) else (false, t)
  }

  function Signed(neg: bool, v: real): real {
    if neg then -v else v
  }

  /** `parseFloat(s)`: white space is skipped and the longest numeric prefix is read;
      a text with no such prefix is NaN. */
  function ParseFloat(s: string): (n: Num)
    ensures n.NaN? <==> (var u := Unsign(TrimStart(s)).1;
                           !StartsWithInfinity(u) && ScanUnsigned(u).NoLiteral?)
  {
    var su := Unsign(TrimStart(s));
    var u := su.1;
    if StartsWithInfinity(u) then (if su.0 then NegInf else PosInf)
    else match ScanUnsigned(u)
      case NoLiteral => NaN
      case Literal(v, _) => Finite(Signed(su.0, v))
  }

  /** "Infinity" reads as infinity, with its sign. */
  lemma ParseFloatInfinity()
    ensures ParseFloat("Infinity") == PosInf && ParseFloat("-Infinity") == NegInf
  {
    TrimStartNoSpace("Infinity");
    TrimStartNoSpace("-Infinity");
    assert "-Infinity"[1..] == "Infinity";
  }

  /** `parseInt(s)` (decimal): the leading integer after white space and sign, or NaN
      (`None`). */
  function ParseInt(s: string): (r: Option<int>)
    ensures r.None? <==> (var u := Unsign(TrimStart(s)).1; !(u != [] && IsDigit(u[0])))
  {
    var su := Unsign(TrimStart(s));
    var u := su.1;
    var a := DigitRun(u);
    if a == 0 then None
    else
      var d: int := DigitsValue(u[..a]);
      Some(if su.0 then -d else d)
  }

  /** `Number(s)`: the whole trimmed text must be a decimal literal; the empty text is 0. */
  function StringToNumber(s: string): (n: Num)
    ensures Trim(s) == [] ==> n == Finite(0.0)
  {
    var t := Trim(s);
    if t == [] then Finite(0.0)
    else
      var su := Unsign(t);
      var u := su.1;
      if u == "Infinity" then (if su.0 then NegInf else PosInf)
      else match ScanUnsigned(u)
        case Literal(v, len) =>
          if len == |u| then Finite(Signed(su.0, v))
          else NaN
        case NoLiteral => NaN
  }

  /** `+x.toFixed(2)`: `x` rounded to 2 decimals, halves away from zero. */
  function Round2(x: real): real {
    if x >= 0.0 then (x * 100.0 + 0.5).Floor as real / 100.0
    else -(((-x) * 100.0 + 0.5).Floor as real / 100.0)
  }

  /** A whole number of cents. */
  predicate IsCents(x: real) {
    (x * 100.0).Floor as real == x * 100.0
  }

  /** Rounding moves a value by at most half a cent and lands on whole cents. */
  lemma Round2Error(x: real)
    ensures -0.005 <= Round2(x) - x <= 0.005
    ensures IsCents(Round2(x))
  {
    var c := Round2Cents(x);
    assert Round2(x) * 100.0 == c as real;
    assert (c as real).Floor == c;
  }

  /** Which way a tie goes: a value exactly half a cent from two neighbours is rounded to
      the one farther from zero. */
  lemma Round2Ties(x: real)
    ensures x >= 0.0 ==> -0.005 < Round2(x) - x <= 0.005
    ensures x < 0.0 ==> -0.005 <= Round2(x) - x < 0.005
  {
    if x >= 0.0 {
      var c := (x * 100.0 + 0.5).Floor;
      assert c as real <= x * 100.0 + 0.5 < c as real + 1.0;
      assert Round2(x) * 100.0 == c as real;
    } else {
      var g := ((-x) * 100.0 + 0.5).Floor;
      assert g as real <= (-x) * 100.0 + 0.5 < g as real + 1.0;
      assert Round2(x) * 100.0 == -(g as real);
    }
  }

  /** Whole cents in the half-open band of `Round2Ties` are `Round2(x)` itself: the band
      and `IsCents` pin the rounding down. */
  lemma Round2Unique(x: real, y: real)
    requires IsCents(y)
    requires x >= 0.0 ==> -0.005 < y - x <= 0.005
    requires x < 0.0 ==> -0.005 <= y - x < 0.005
    ensures y == Round2(x)
  {
    Round2Ties(x);
    Round2Error(x);
    var a := (y * 100.0).Floor;
    var b := (Round2(x) * 100.0).Floor;
    assert -1.0 < (y - Round2(x)) * 100.0 < 1.0;
    assert a - b == 0;
  }

  /** The whole number of cents `Round2(x)` is, and how far that is from `x * 100`. */
  lemma Round2Cents(x: real) returns (c: int)
    ensures Round2(x) == c as real / 100.0
    ensures x * 100.0 - 0.5 <= c as real <= x * 100.0 + 0.5
  {
    if x >= 0.0 {
      c := (x * 100.0 + 0.5).Floor;
      assert c as real <= x * 100.0 + 0.5 < c as real + 1.0;
    } else {
      var g := ((-x) * 100.0 + 0.5).Floor;
      assert g as real <= (-x) * 100.0 + 0.5 < g as real + 1.0;
      c := -g;
    }
  }

  /** Whole cents are left alone by rounding. */
  lemma Round2OfCents(x: real)
    requires IsCents(x)
    ensures Round2(x) == x
  {
    var c := (x * 100.0).Floor;
    if x >= 0.0 {
      assert (x * 100.0 + 0.5).Floor == c;
    } else {
      assert ((-x) * 100.0 + 0.5).Floor == -c;
    }
  }

  /** Rounding is idempotent. */
  lemma Round2Idempotent(x: real)
    ensures Round2(Round2(x)) == Round2(x)
  {
    Round2Error(x);
    Round2OfCents(Round2(x));
  }

  /** A rounded difference is within one cent exactly when the difference is strictly
      within a cent and a half. */
  lemma Round2WithinCent(d: real)
    ensures (-0.01 <= Round2(d) <= 0.01) <==> (-0.015 < d < 0.015)
  {
    if d >= 0.0 {
      var f := (d * 100.0 + 0.5).Floor;
      assert f as real <= d * 100.0 + 0.5 < f as real + 1.0;
      assert Round2(d) == f as real / 100.0;
      assert Round2(d) <= 0.01 <==> f <= 1;
    } else {
      var g := ((-d) * 100.0 + 0.5).Floor;
      assert g as real <= (-d) * 100.0 + 0.5 < g as real + 1.0;
      assert Round2(d) == -(g as real / 100.0);
      assert -0.01 <= Round2(d) <==> g <= 1;
    }
  }

  /** `String(x)` for `x` = `c` cents: the integer part, then `.` and the significant
      decimals, with no trailing zeros. */
  function CentsToString(c: int): (r: string)
    ensures r != []
  {
    if c < 0 then "-" + UnsignedCents(-c) else UnsignedCents(c)
  }

  /** `String(x)` of an amount in cents is made of digits, '-' and '.' only. */
  lemma CentsTextChars(c: int)
    ensures forall i :: 0 <= i < |CentsToString(c)| ==>
      IsDigit(CentsToString(c)[i]) || CentsToString(c)[i] == '-' || CentsToString(c)[i] == '.'
  {
    var m := if c < 0 then -c else c;
    var digits := NatToString(m / 100);
    assert forall i :: 0 <= i < |digits| ==> IsDigit(digits[i]);
  }

  /** `x.toFixed(2)` of an amount of at least 0 is made of digits and one '.' only. */
  lemma FixedCentsChars(m: nat)
    ensures forall i :: 0 <= i < |FixedCents(m)| ==> IsDigit(FixedCents(m)[i]) || FixedCents(m)[i] == '.'
  {
    var digits := NatToString(m / 100);
    assert FixedCents(m) == digits + ("." + [DigitChar(m % 100 / 10), DigitChar(m % 10)]);
  }

  function UnsignedCents(m: nat): (r: string)
    ensures r != [] && IsDigit(r[0])
  {
    var f := m % 100;
    var frac := if f == 0 then ""
                else if f % 10 == 0 then "." + [DigitChar(f / 10)]
                else "." + [DigitChar(f / 10), DigitChar(f % 10)];
    NatToString(m / 100) + frac
  }

  lemma {:induction false} DigitsValueOfNat(n: nat)
    ensures AllDigits(NatToString(n))
    ensures DigitsValue(NatToString(n)) == n
  {
    var r := NatToString(n);
    if n >= 10 {
      DigitsValueOfNat(n / 10);
      assert r[..|r| - 1] == NatToString(n / 10);
    }
  }

  lemma {:induction false} DigitRunOf(ds: string, rest: string)
    requires AllDigits(ds)
    requires rest == [] || !IsDigit(rest[0])
    ensures DigitRun(ds + rest) == |ds|
  {
    if ds != [] {
      assert (ds + rest)[1..] == ds[1..] + rest;
      DigitRunOf(ds[1..], rest);
    } else {
      assert ds + rest == rest;
    }
  }

  /** Unsigned integer text reads back as its value. */
  lemma {:induction false} ScanInteger(ds: string)
    requires ds != [] && AllDigits(ds)
    ensures ScanUnsigned(ds) == Literal(DigitsValue(ds) as real, |ds|)
  {
    DigitRunOf(ds, "");
    assert ds + "" == ds;
    var a := DigitRun(ds);
    assert a == |ds|;
    assert ds[..a] == ds;
    assert ScanExponent(ds[a..]).None?;
  }

  /** Unsigned two-decimal text `ds.f1f2` or `ds.f1` reads back as its value. */
  lemma {:induction false} ScanDecimal(ds: string, fs: string)
    requires ds != [] && AllDigits(ds) && AllDigits(fs) && |fs| <= 2
    ensures ScanUnsigned(ds + "." + fs) ==
            Literal(DigitsValue(ds) as real + Fraction(DigitsValue(fs), |fs|), |ds| + 1 + |fs|)
  {
    var u := ds + "." + fs;
    var a := |ds|;
    assert u == ds + ("." + fs);
    DigitRunOf(ds, "." + fs);
    assert u[..a] == ds && u[a] == '.';
    assert u[a + 1..] == fs + "";
    DigitRunOf(fs, "");
    assert u[a + 1..][..|fs|] == fs;
    ScanPointNumber(u, a, |fs|);
  }

  /** A literal of digits, a `.` and digits that ends the text. */
  lemma ScanPointNumber(u: string, a: nat, b: nat)
    requires 0 < a < |u| && DigitRun(u) == a && u[a] == '.'
    requires DigitRun(u[a + 1..]) == b && a + 1 + b == |u|
    ensures ScanUnsigned(u) == Literal(DigitsValue(u[..a]) as real + Fraction(DigitsValue(u[a + 1..][..b]), b), a + 1 + b)
  {
    assert u[a + 1 + b..] == [];
  }

  /** `parseFloat` of a text that starts with a digit: the value of its leading literal. */
  lemma ParseFloatDigits(s: string)
    requires s != [] && IsDigit(s[0])
    ensures ParseFloat(s) == Finite(ScanUnsigned(s).value)
  {
    TrimStartNoSpace(s);
    assert Unsign(s).1 == s;
    assert !StartsWithInfinity(s);
  }

  /** `parseFloat` of `-` followed by a digit: the negated value of the literal. */
  lemma ParseFloatNegDigits(u: string)
    requires u != [] && IsDigit(u[0])
    ensures ParseFloat("-" + u) == Finite(-ScanUnsigned(u).value)
  {
    var s := "-" + u;
    TrimStartNoSpace(s);
    assert s[1..] == u;
    assert Unsign(s) == (true, u);
    assert !StartsWithInfinity(u);
  }

  /** Replacing the value of a finite result by an equal one. */
  lemma SameFinite(n: Num, v: real, w: real)
    requires n == Finite(v) && v == w
    ensures n == Finite(w)
  {
  }

  lemma ParseFloatEmpty()
    ensures ParseFloat("") == NaN
  {
  }

  lemma ParseFloatZero()
    ensures ParseFloat("0") == Finite(0.0)
  {
    TrimStartNoSpace("0");
    assert Unsign("0").1 == "0";
    assert DigitRun("0") == 1;
  }

  /** The rendering of a cent amount parses back to that amount. */
  lemma {:induction false} ParseFloatCentsRoundTrip(c: int)
    ensures ParseFloat(CentsToString(c)) == Finite(c as real / 100.0)
  {
    if c >= 0 {
      ParseFloatUnsignedCents(c);
    } else {
      var m := -c;
      ParseFloatNegativeCents(m);
      NegativeCentsText(c, m);
      SameFinite(ParseFloat("-" + UnsignedCents(m)), -(m as real / 100.0), c as real / 100.0);
    }
  }

  lemma ParseFloatUnsignedCents(m: nat)
    ensures ParseFloat(UnsignedCents(m)) == Finite(m as real / 100.0)
  {
    ScanCents(m);
    ParseFloatDigits(UnsignedCents(m));
    SameFinite(ParseFloat(UnsignedCents(m)), ScanUnsigned(UnsignedCents(m)).value, m as real / 100.0);
  }

  lemma ParseFloatNegativeCents(m: nat)
    requires m > 0
    ensures ParseFloat("-" + UnsignedCents(m)) == Finite(-(m as real / 100.0))
  {
    ScanCents(m);
    ParseFloatNegated(UnsignedCents(m), m as real / 100.0);
  }

  lemma ParseFloatNegated(u: string, v: real)
    requires u != [] && IsDigit(u[0]) && ScanUnsigned(u).value == v
    ensures ParseFloat("-" + u) == Finite(-v)
  {
    ParseFloatNegDigits(u);
  }

  lemma NegativeCentsText(c: int, m: nat)
    requires c < 0 && m == -c
    ensures CentsToString(c) == "-" + UnsignedCents(m)
    ensures -(m as real / 100.0) == c as real / 100.0
  {
  }

  lemma {:induction false} ScanCents(m: nat)
    ensures ScanUnsigned(UnsignedCents(m)).Literal?
    ensures ScanUnsigned(UnsignedCents(m)).value == m as real / 100.0
  {
    var f := m % 100;
    if f == 0 {
      ScanWholeCents(m);
    } else if f % 10 == 0 {
      ScanTenthsCents(m);
    } else {
      ScanHundredthsCents(m);
    }
  }

  lemma {:induction false} ScanWholeCents(m: nat)
    requires m % 100 == 0
    ensures ScanUnsigned(UnsignedCents(m)) == Literal(m as real / 100.0, |UnsignedCents(m)|)
  {
    var ds := NatToString(m / 100);
    DigitsValueOfNat(m / 100);
    CentsMagnitude(m);
    assert UnsignedCents(m) == ds + "";
    ScanInteger(ds);
  }

  lemma {:induction false} ScanTenthsCents(m: nat)
    requires m % 100 != 0 && m % 10 == 0
    ensures ScanUnsigned(UnsignedCents(m)).Literal?
    ensures ScanUnsigned(UnsignedCents(m)).value == m as real / 100.0
  {
    var ds := NatToString(m / 100);
    var fs := [DigitChar(m % 100 / 10)];
    DigitsValueOfNat(m / 100);
    assert UnsignedCents(m) == ds + "." + fs;
    ScanDecimal(ds, fs);
    OneDigitValue(fs);
    CentsMagnitude(m);
  }

  lemma {:induction false} ScanHundredthsCents(m: nat)
    requires m % 10 != 0
    ensures ScanUnsigned(UnsignedCents(m)).Literal?
    ensures ScanUnsigned(UnsignedCents(m)).value == m as real / 100.0
  {
    var f := m % 100;
    var ds := NatToString(m / 100);
    var fs := [DigitChar(f / 10), DigitChar(f % 10)];
    DigitsValueOfNat(m / 100);
    assert UnsignedCents(m) == ds + "." + fs;
    ScanDecimal(ds, fs);
    TwoDigitValue(fs);
    CentsMagnitude(m);
  }

  lemma OneDigitValue(fs: string)
    requires |fs| == 1 && AllDigits(fs)
    ensures DigitsValue(fs) == DigitValue(fs[0])
  {
    assert fs[..0] == [];
  }

  lemma TwoDigitValue(fs: string)
    requires |fs| == 2 && AllDigits(fs)
    ensures DigitsValue(fs) == DigitValue(fs[0]) * 10 + DigitValue(fs[1])
  {
    assert fs[..1] == [fs[0]];
    OneDigitValue(fs[..1]);
  }

  /** `m` cents is its whole part plus its decimals. */
  lemma CentsMagnitude(m: nat)
    ensures m % 100 == 0 ==> (m / 100) as real == m as real / 100.0
    ensures m % 100 != 0 && m % 10 == 0 ==> (m / 100) as real + Fraction(m % 100 / 10, 1) == m as real / 100.0
    ensures m % 10 != 0 ==> (m / 100) as real + Fraction(m % 100, 2) == m as real / 100.0
  {
    FractionOne(m % 100 / 10);
    FractionTwo(m % 100);
    assert m == (m / 100) * 100 + m % 100;
  }

  /** JavaScript's `a < b`: false whenever either side is NaN. */
  predicate Lt(a: Num, b: Num) {
    Le(a, b) && !Le(b, a)
  }

  /** The whole number of cents `x.toFixed(2)` keeps of a non-negative `x`, halves
      rounded up. */
  function RoundCents(x: real): (m: nat)
    requires x >= 0.0
    ensures Round2(x) == m as real / 100.0
  {
    (x * 100.0 + 0.5).Floor
  }

  /** `toFixed(2)` of an amount of at least 0 reads back as the amount rounded to cents. */
  lemma ParseFloatToFixed(x: real)
    requires x >= 0.0
    ensures ParseFloat(FixedCents(RoundCents(x))) == Finite(Round2(x))
  {
    var m := RoundCents(x);
    ParseFloatFixedRoundTrip(m);
    SameFinite(ParseFloat(FixedCents(m)), m as real / 100.0, Round2(x));
  }

  /** Whole cents round to themselves. */
  lemma RoundCentsOfCents(m: nat)
    ensures m as real / 100.0 >= 0.0
    ensures RoundCents(m as real / 100.0) == m
  {
    assert m as real / 100.0 * 100.0 + 0.5 == m as real + 0.5;
  }

  /** `x.toFixed(2)` for `x` = `m` cents, `m` >= 0: the integer part, a `.` and always
      exactly two decimals. */
  function FixedCents(m: nat): (r: string)
    ensures r != [] && IsDigit(r[0])
    ensures |r| >= 4 && r[|r| - 3] == '.'
    ensures IsDigit(r[|r| - 2]) && IsDigit(r[|r| - 1])
  {
    NatToString(m / 100) + "." + [DigitChar(m % 100 / 10), DigitChar(m % 10)]
  }

  /** The two-decimal rendering reads back as the amount it renders. */
  lemma {:induction false} ParseFloatFixedRoundTrip(m: nat)
    ensures ParseFloat(FixedCents(m)) == Finite(m as real / 100.0)
  {
    ScanFixed(m);
    ParseFloatDigits(FixedCents(m));
    SameFinite(ParseFloat(FixedCents(m)), ScanUnsigned(FixedCents(m)).value, m as real / 100.0);
  }

  lemma {:induction false} ScanFixed(m: nat)
    ensures ScanUnsigned(FixedCents(m)).Literal?
    ensures ScanUnsigned(FixedCents(m)).value == m as real / 100.0
  {
    var ds := NatToString(m / 100);
    var fs := [DigitChar(m % 100 / 10), DigitChar(m % 10)];
    assert FixedCents(m) == ds + "." + fs;
    DigitsValueOfNat(m / 100);
    ScanDecimal(ds, fs);
    TwoDigitValue(fs);
    FixedMagnitude(m);
  }

  lemma FixedMagnitude(m: nat)
    ensures (m / 100) as real + Fraction(m % 100 / 10 * 10 + m % 10, 2) == m as real / 100.0
  {
    var r := m % 100;
    TensAndUnits(r);
    assert m % 100 / 10 * 10 + m % 10 == r;
    FractionTwo(r);
    WholeAndCents(m, m / 100, r);
  }

  /** A number below 100 is its tens digit times ten plus its units digit. */
  lemma TensAndUnits(r: nat)
    ensures r / 10 * 10 + r % 10 == r
  {
  }

  /** An amount in cents is its whole part plus its cents over one hundred. */
  lemma WholeAndCents(m: nat, q: int, r: int)
    requires m == q * 100 + r
    ensures q as real + r as real / 100.0 == m as real / 100.0
  {
  }
}
