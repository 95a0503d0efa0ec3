/**
 * The numeric coercion that the storefront's comparators apply to every sort
 * key: `parseFloat(x) || 0`. A key that is missing, null or text without a
 * leading number becomes 0; text that starts with a number becomes that number.
 */
module Coercion {
  import opened Wrappers
  import opened Text

  /** A JSON value found in a numeric field: a number or a string (null and absent are `None`). */
  datatype Raw = Num(n: real) | Str(s: string)

  /** The white space and line terminators that `parseFloat` skips in front of a number. */
  predicate IsJsSpace(c: char) {
    c == '\t' || c == '\n' || c == '\U{0B}' || c == '\U{0C}' || c == '\r' || c == ' ' ||
    c == '\U{A0}' || c == '\U{1680}' || ('\U{2000}' <= c <= '\U{200A}') ||
    c == '\U{2028}' || c == '\U{2029}' || c == '\U{202F}' || c == '\U{205F}' ||
    c == '\U{3000}' || c == '\U{FEFF}'
  }

  function SkipSpace(s: string): (r: string)
    ensures |r| <= |s| && r == s[|s| - |r|..]
    ensures r != [] ==> !IsJsSpace(r[0])
  {
    if s != [] && IsJsSpace(s[0]) then SkipSpace(s[1..]) else s
  }

  /** The longest prefix of `s` made of decimal digits. */
  function LeadingDigits(s: string): (r: string)
    ensures |r| <= |s| && r == s[..|r|] && AllDigits(r)
    ensures |r| < |s| ==> !IsDigit(s[|r|])
  {
    if s != [] && IsDigit(s[0]) then [s[0]] + LeadingDigits(s[1..]) else ""
  }

  function Pow10(n: nat): (r: real)
    ensures r >= 1.0
  {
    if n == 0 then 1.0 else 10.0 * Pow10(n - 1)
  }

  /** The exponent part `e12`, `E-3`, ... in front of `s`; 0 when there is none. */
  function Exponent(s: string): int {
    if |s| >= 2 && (s[0] == 'e' || s[0] == 'E') then
      var body := if s[1] == '-' || s[1] == '+' then s[2..] else s[1..];
      var ds := LeadingDigits(body);
      var v: int := if ds == "" then 0 else DigitsValue(ds);
      if s[1] == '-' then -v else v
    else 0
  }

  /** `m` times ten to the power `e`. */
  function Scale(m: real, e: int): real {
    if e >= 0 then m * Pow10(e) else m / Pow10(-e)
  }

  /** `t` without its leading sign. */
  function UnsignedPart(t: string): (u: string)
    ensures |u| <= |t|
  {
    if t != [] && (t[0] == '-' || t[0] == '+') then t[1..] else t
  }

  /** The digits after the decimal point, given the digits `ip` before it. */
  function Fraction(ip: string, afterDot: string): (r: Option<real>)
    requires AllDigits(ip)
    ensures r.None? <==> ip == "" && (afterDot == [] || !IsDigit(afterDot[0]))
  {
    var fp := LeadingDigits(afterDot);
    if ip == "" && fp == "" then None
    else
      Some(Scale(Mantissa(ip, fp), Exponent(afterDot[|fp|..])))
  }

  /** The digits `ip` before the point and `fp` after it, read as one number. */
  function Mantissa(ip: string, fp: string): real
    requires AllDigits(ip) && AllDigits(fp)
  {
    DigitsValue(ip) as real + DigitsValue(fp) as real / Pow10(|fp|)
  }

  /**
   * An unsigned decimal literal at the front of `u`: there is one exactly when
   * `u` starts with a digit, or with a point followed by a digit.
   */
  function ParseUnsigned(u: string): (r: Option<real>)
    ensures r.None? <==> (u == [] || !IsDigit(u[0])) && !(|u| >= 2 && u[0] == '.' && IsDigit(u[1]))
  {
    var ip := LeadingDigits(u);
    var rest := u[|ip|..];
    if rest != [] && rest[0] == '.' then Fraction(ip, rest[1..])
    else if ip == "" then None
    else Some(Scale(DigitsValue(ip) as real, Exponent(rest)))
  }

  /**
   * `parseFloat(s)`: the value of the longest prefix of `s` (after leading
   * white space) that is a decimal literal, or `None` where JavaScript yields NaN.
   */
  function ParseFloat(s: string): (r: Option<real>)
    ensures r.Some? <==> HasLeadingNumber(s)
  {
    var t := SkipSpace(s);
    SignedValue(t != [] && t[0] == '-', ParseUnsigned(UnsignedPart(t)))
  }

  /** The unsigned value `m`, negated when the literal has a leading minus sign. */
  function SignedValue(neg: bool, m: Option<real>): (r: Option<real>)
    ensures r.Some? <==> m.Some?
  {
    if neg && m.Some? then Some(-m.value) else m
  }

  /** `parseFloat(x) || 0`: NaN (and -0) become 0. */
  function Coerce(v: Option<Raw>): real {
    match v
    case None => 0.0
    case Some(Num(n)) => n
    case Some(Str(s)) => ParseFloat(s).GetOr(0.0)
  }

  /** The decimal text of a natural number parses back to that number. */
  lemma ParseNatText(n: nat)
    ensures ParseFloat(NatText(n)) == Some(n as real)
  {
    var t := NatText(n);
    assert SkipSpace(t) == t;
    assert UnsignedPart(t) == t;
    SignedAt(t, t, t, false);
    ParseDigits(t);
    NatTextRoundTrip(n);
    SignedSome(ParseUnsigned(t), n as real, false);
  }

  lemma ParseDigits(t: string)
    requires t != [] && AllDigits(t)
    ensures ParseUnsigned(t) == Some(DigitsValue(t) as real)
  {
    AllDigitsLeading(t);
    assert t[|t|..] == "";
    assert Exponent("") == 0;
    assert Scale(DigitsValue(t) as real, 0) == DigitsValue(t) as real;
  }

  lemma {:induction false} AllDigitsLeading(s: string)
    requires AllDigits(s)
    ensures LeadingDigits(s) == s
  {
    if s != [] {
      AllDigitsLeading(s[1..]);
    }
  }

  /** Missing, null and non-numeric values all sort as 0, and a number sorts as itself. */
  lemma CoerceDefaults(r: real, s: string)
    requires !HasLeadingNumber(s)
    ensures Coerce(None) == 0.0
    ensures Coerce(Some(Num(r))) == r
    ensures Coerce(Some(Str(s))) == 0.0
  {
  }

  /**
   * After white space and one sign, `s` starts with a digit or with a point
   * and a digit: the texts in which `parseFloat` finds a number.
   */
  predicate HasLeadingNumber(s: string) {
    var u := UnsignedPart(SkipSpace(s));
    (u != [] && IsDigit(u[0])) || (|u| >= 2 && u[0] == '.' && IsDigit(u[1]))
  }

  /** Every character of `w` is white space that `parseFloat` skips. */
  predicate AllJsSpace(w: string) {
    forall i :: 0 <= i < |w| ==> IsJsSpace(w[i])
  }

  /**
   * A decimal literal written out from its parts: the digits `ip`, then
   * `"." + f` when `fp == Some(f)`, then `"e" + k` when `exp == Some(k)`.
   */
  function LiteralText(ip: string, fp: Option<string>, exp: Option<int>): string {
    ip + FractionText(fp) + ExponentText(exp)
  }

  function FractionText(fp: Option<string>): string {
    if fp.Some? then "." + fp.value else ""
  }

  function ExponentText(exp: Option<int>): string {
    if exp.Some? then "e" + IntText(exp.value) else ""
  }

  /** The parts form a literal, and the first character of `rest` does not continue it. */
  predicate LiteralParts(ip: string, fp: Option<string>, exp: Option<int>, rest: string) {
    && AllDigits(ip)
    && (fp.Some? ==> AllDigits(fp.value))
    && (ip != "" || (fp.Some? && fp.value != ""))
    && (rest != [] ==>
          && !IsDigit(rest[0])
          && (exp.None? ==> rest[0] != 'e' && rest[0] != 'E')
          && (fp.None? && exp.None? ==> rest[0] != '.'))
  }

  /**
   * The value the literal denotes, read off its parts: all its digits as one
   * integer, moved right by one place per fraction digit, times ten to the exponent.
   */
  function LiteralValue(ip: string, fp: Option<string>, exp: Option<int>): real
    requires AllDigits(ip) && (fp.Some? ==> AllDigits(fp.value))
  {
    var f := if fp.Some? then fp.value else "";
    AllDigitsJoin(ip, f);
    Scale(Shifted(DigitsValue(ip + f), |f|), if exp.Some? then exp.value else 0)
  }

  /** `n` with the decimal point moved `places` digits to the left. */
  function Shifted(n: nat, places: nat): real {
    n as real / Pow10(places)
  }

  /**
   * `parseFloat` of white space, an optional sign, a decimal literal and
   * text that does not continue it is the value `v` of the literal,
   * negated after a minus sign.
   */
  lemma ParseFloatLiteral(w: string, sign: string, ip: string, fp: Option<string>, exp: Option<int>, rest: string, v: real)
    requires AllJsSpace(w)
    requires sign == "" || sign == "-" || sign == "+"
    requires LiteralParts(ip, fp, exp, rest) && v == LiteralValue(ip, fp, exp)
    ensures ParseFloat(w + sign + LiteralText(ip, fp, exp) + rest) == Some(if sign == "-" then -v else v)
  {
    LiteralAt(w, sign, ip, fp, exp, rest, LiteralText(ip, fp, exp), v);
  }

  /** The sort key of such a text is the literal's value, negated after a minus sign. */
  lemma CoerceLiteral(w: string, sign: string, ip: string, fp: Option<string>, exp: Option<int>, rest: string, v: real)
    requires AllJsSpace(w)
    requires sign == "" || sign == "-" || sign == "+"
    requires LiteralParts(ip, fp, exp, rest) && v == LiteralValue(ip, fp, exp)
    ensures Coerce(Some(Str(w + sign + LiteralText(ip, fp, exp) + rest))) == if sign == "-" then -v else v
  {
    ParseFloatLiteral(w, sign, ip, fp, exp, rest, v);
  }

  lemma LiteralAt(w: string, sign: string, ip: string, fp: Option<string>, exp: Option<int>, rest: string, lit: string, v: real)
    requires AllJsSpace(w)
    requires sign == "" || sign == "-" || sign == "+"
    requires LiteralParts(ip, fp, exp, rest)
    requires lit == LiteralText(ip, fp, exp) && v == LiteralValue(ip, fp, exp)
    ensures ParseFloat(w + sign + lit + rest) == Some(if sign == "-" then -v else v)
  {
    ParseLiteral(ip, fp, exp, rest);
    SignedLiteral(w, sign, lit, rest, v);
  }

  lemma SignedLiteral(w: string, sign: string, lit: string, rest: string, v: real)
    requires AllJsSpace(w)
    requires sign == "" || sign == "-" || sign == "+"
    requires var u := lit + rest; u != [] && (IsDigit(u[0]) || u[0] == '.') && ParseUnsigned(u) == Some(v)
    ensures ParseFloat(w + sign + lit + rest) == Some(if sign == "-" then -v else v)
  {
    RegroupFront(w, sign, lit, rest);
    SignedFront(w, sign, lit + rest);
    SignedSome(ParseUnsigned(lit + rest), v, sign == "-");
  }

  lemma RegroupFront(w: string, sign: string, lit: string, rest: string)
    ensures w + sign + lit + rest == w + (sign + (lit + rest))
  {
  }

  /** White space and a sign in front of an unsigned literal `u`. */
  lemma SignedFront(w: string, sign: string, u: string)
    requires AllJsSpace(w)
    requires sign == "" || sign == "-" || sign == "+"
    requires u != [] && (IsDigit(u[0]) || u[0] == '.')
    ensures ParseFloat(w + (sign + u)) == SignedValue(sign == "-", ParseUnsigned(u))
  {
    FrontParts(w, sign, u);
    SignedAt(w + (sign + u), sign + u, u, sign == "-");
  }

  lemma FrontParts(w: string, sign: string, u: string)
    requires AllJsSpace(w)
    requires sign == "" || sign == "-" || sign == "+"
    requires u != [] && (IsDigit(u[0]) || u[0] == '.')
    ensures var t := sign + u;
      SkipSpace(w + t) == t && t != [] && UnsignedPart(t) == u && (t[0] == '-') == (sign == "-")
  {
    SignHead(sign, u);
    SkipSpaceOver(w, sign + u);
  }

  lemma SignHead(sign: string, u: string)
    requires sign == "" || sign == "-" || sign == "+"
    requires u != [] && (IsDigit(u[0]) || u[0] == '.')
    ensures var t := sign + u;
      t != [] && !IsJsSpace(t[0]) && UnsignedPart(t) == u && (t[0] == '-') == (sign == "-")
  {
    var t := sign + u;
    if sign == "" {
      assert t == u;
    } else {
      assert t[0] == sign[0] && t[1..] == u;
    }
  }

  /** `parseFloat` once the white space is skipped and the sign read. */
  lemma SignedAt(s: string, t: string, u: string, neg: bool)
    requires SkipSpace(s) == t && t != [] && UnsignedPart(t) == u && (t[0] == '-') == neg
    ensures ParseFloat(s) == SignedValue(neg, ParseUnsigned(u))
  {
  }

  lemma SignedSome(m: Option<real>, v: real, neg: bool)
    requires m == Some(v)
    ensures SignedValue(neg, m) == Some(if neg then -v else v)
  {
  }

  lemma {:induction false} SkipSpaceOver(w: string, t: string)
    requires AllJsSpace(w) && (t == [] || !IsJsSpace(t[0]))
    ensures SkipSpace(w + t) == t
    decreases |w|
  {
    if w == [] {
      assert w + t == t;
    } else {
      assert (w + t)[0] == w[0] && (w + t)[1..] == w[1..] + t;
      assert AllJsSpace(w[1..]) by {
        assert forall i :: 0 <= i < |w| - 1 ==> w[1..][i] == w[i + 1];
      }
      SkipSpaceOver(w[1..], t);
    }
  }

  /** An unsigned literal followed by text that does not continue it has the literal's value. */
  lemma ParseLiteral(ip: string, fp: Option<string>, exp: Option<int>, rest: string)
    requires LiteralParts(ip, fp, exp, rest)
    ensures var u := LiteralText(ip, fp, exp) + rest;
      u != [] && (IsDigit(u[0]) || u[0] == '.') && ParseUnsigned(u) == Some(LiteralValue(ip, fp, exp))
  {
    var e := if exp.Some? then exp.value else 0;
    if fp.Some? {
      var f := fp.value;
      ParseWithFraction(ip, f, exp, rest);
      FractionValue(ip, f);
    } else {
      ParseWithoutFraction(ip, exp, rest);
      NoFractionValue(ip);
    }
  }

  lemma ParseWithFraction(ip: string, f: string, exp: Option<int>, rest: string)
    requires LiteralParts(ip, Some(f), exp, rest)
    ensures var u := LiteralText(ip, Some(f), exp) + rest;
      && u != [] && (IsDigit(u[0]) || u[0] == '.')
      && ParseUnsigned(u) == Some(Scale(Mantissa(ip, f), if exp.Some? then exp.value else 0))
  {
    var tail := ExponentText(exp) + rest;
    ExponentTail(exp, rest);
    ParsePointThen(ip, f, tail, if exp.Some? then exp.value else 0);
    assert LiteralText(ip, Some(f), exp) == ip + ("." + f) + ExponentText(exp);
    RegroupPoint(ip, f, ExponentText(exp), rest);
  }

  lemma ParseWithoutFraction(ip: string, exp: Option<int>, rest: string)
    requires LiteralParts(ip, None, exp, rest)
    ensures var u := LiteralText(ip, None, exp) + rest;
      && u != [] && IsDigit(u[0])
      && ParseUnsigned(u) == Some(Scale(DigitsValue(ip) as real, if exp.Some? then exp.value else 0))
  {
    var tail := ExponentText(exp) + rest;
    ExponentTail(exp, rest);
    ParseDigitsThen(ip, tail, if exp.Some? then exp.value else 0);
    assert LiteralText(ip, None, exp) == ip + "" + ExponentText(exp);
    RegroupDigits(ip, ExponentText(exp), rest);
  }

  lemma RegroupPoint(ip: string, f: string, ex: string, rest: string)
    ensures ip + ("." + f) + ex + rest == ip + ("." + (f + (ex + rest)))
  {
  }

  lemma RegroupDigits(ip: string, ex: string, rest: string)
    ensures ip + "" + ex + rest == ip + (ex + rest)
  {
  }

  /** What follows the digits: the exponent part, if any, then text that does not continue it. */
  lemma ExponentTail(exp: Option<int>, rest: string)
    requires rest != [] ==> !IsDigit(rest[0]) && (exp.None? ==> rest[0] != 'e' && rest[0] != 'E')
    ensures var tail := ExponentText(exp) + rest;
      && (tail != [] ==> !IsDigit(tail[0]))
      && (exp.Some? ==> tail != [] && tail[0] == 'e')
      && (exp.None? ==> tail == rest)
      && Exponent(tail) == (if exp.Some? then exp.value else 0)
  {
    ExponentOf(exp, rest);
    if exp.None? {
      assert ExponentText(exp) + rest == rest;
    }
  }

  /** Digits, then text that is neither a digit nor a point: an integer scaled by the exponent. */
  lemma ParseDigitsThen(ip: string, tail: string, e: int)
    requires ip != [] && AllDigits(ip)
    requires tail != [] ==> !IsDigit(tail[0]) && tail[0] != '.'
    requires Exponent(tail) == e
    ensures var u := ip + tail; u != [] && IsDigit(u[0])
    ensures ParseUnsigned(ip + tail) == Some(Scale(DigitsValue(ip) as real, e))
  {
    LeadingDigitsStop(ip, tail);
    assert (ip + tail)[|ip|..] == tail;
    assert (ip + tail)[0] == ip[0];
  }

  /** Digits, a point, digits, then text that is not a digit: the fraction scaled by the exponent. */
  lemma ParsePointThen(ip: string, f: string, tail: string, e: int)
    requires AllDigits(ip) && AllDigits(f) && (ip != "" || f != "")
    requires tail != [] ==> !IsDigit(tail[0])
    requires Exponent(tail) == e
    ensures var u := ip + ("." + (f + tail)); u != [] && (IsDigit(u[0]) || u[0] == '.')
    ensures ParseUnsigned(ip + ("." + (f + tail))) == Some(Scale(Mantissa(ip, f), e))
  {
    var after := "." + (f + tail);
    var u := ip + after;
    LeadingDigitsStop(ip, after);
    assert u[|ip|..] == after && after[0] == '.' && after[1..] == f + tail;
    assert u[0] == if ip == "" then '.' else ip[0];
    assert ParseUnsigned(u) == Fraction(ip, f + tail);
    FractionThen(ip, f, tail, e);
  }

  lemma FractionThen(ip: string, f: string, tail: string, e: int)
    requires AllDigits(ip) && AllDigits(f) && (ip != "" || f != "")
    requires tail != [] ==> !IsDigit(tail[0])
    requires Exponent(tail) == e
    ensures Fraction(ip, f + tail) == Some(Scale(Mantissa(ip, f), e))
  {
    LeadingDigitsStop(f, tail);
    assert (f + tail)[|f|..] == tail;
  }

  lemma {:induction false} LeadingDigitsStop(ds: string, x: string)
    requires AllDigits(ds) && (x == [] || !IsDigit(x[0]))
    ensures LeadingDigits(ds + x) == ds
    decreases |ds|
  {
    if ds == [] {
      assert ds + x == x;
    } else {
      assert (ds + x)[0] == ds[0] && (ds + x)[1..] == ds[1..] + x;
      LeadingDigitsStop(ds[1..], x);
      assert ds == [ds[0]] + ds[1..];
    }
  }

  /** The exponent part `"e" + k` in front of text that is not a digit reads as `k`; none reads as 0. */
  lemma ExponentOf(exp: Option<int>, rest: string)
    requires rest != [] ==> !IsDigit(rest[0]) && (exp.None? ==> rest[0] != 'e' && rest[0] != 'E')
    ensures Exponent(ExponentText(exp) + rest) == (if exp.Some? then exp.value else 0)
  {
    if exp.Some? {
      if exp.value < 0 {
        NegativeExponent(exp.value, rest);
      } else {
        NaturalExponent(exp.value, rest);
      }
    } else {
      assert "" + rest == rest;
    }
  }

  lemma NegativeExponent(k: int, rest: string)
    requires rest != [] ==> !IsDigit(rest[0])
    requires k < 0
    ensures Exponent("e" + IntText(k) + rest) == k
  {
    var digits := NatText(-k);
    assert IntText(k) == "-" + digits;
    ExponentDigits(-k, rest);
    NegativeExponentText(digits, rest);
  }

  lemma NegativeExponentText(digits: string, rest: string)
    requires digits != [] && AllDigits(digits) && LeadingDigits(digits + rest) == digits
    ensures Exponent("e" + ("-" + digits) + rest) == -(DigitsValue(digits) as int)
  {
    var s := "e" + ("-" + digits) + rest;
    assert s[0] == 'e' && s[1] == '-' && s[2..] == digits + rest;
  }

  lemma NaturalExponent(n: nat, rest: string)
    requires rest != [] ==> !IsDigit(rest[0])
    ensures Exponent("e" + IntText(n) + rest) == n
  {
    var s := "e" + IntText(n) + rest;
    assert IsDigit(s[1]) && s[1..] == NatText(n) + rest;
    ExponentDigits(n, rest);
  }

  lemma ExponentDigits(n: nat, rest: string)
    requires rest != [] ==> !IsDigit(rest[0])
    ensures LeadingDigits(NatText(n) + rest) == NatText(n) && DigitsValue(NatText(n)) == n
  {
    LeadingDigitsStop(NatText(n), rest);
    NatTextRoundTrip(n);
  }

  /** The digits before and after the point, read as one integer moved right by the fraction's length. */
  lemma FractionValue(ip: string, f: string)
    requires AllDigits(ip) && AllDigits(f)
    ensures AllDigits(ip + f)
    ensures Mantissa(ip, f) == Shifted(DigitsValue(ip + f), |f|)
  {
    DigitsJoin(ip, f);
    TenPowIsPow10(|f|);
    ShiftDivided(DigitsValue(ip), TenPow(|f|), DigitsValue(f), Pow10(|f|), DigitsValue(ip + f));
  }

  /** Without a fraction, nothing moves. */
  lemma NoFractionValue(ip: string)
    requires AllDigits(ip)
    ensures Shifted(DigitsValue(ip + ""), 0) == DigitsValue(ip) as real
  {
    assert ip + "" == ip;
  }

  lemma ShiftDivided(x: int, t: int, y: int, p: real, v: int)
    requires v == x * t + y && t as real == p && p > 0.0
    ensures x as real + y as real / p == v as real / p
  {
    assert v as real == x as real * p + y as real;
  }

  lemma AllDigitsJoin(a: string, b: string)
    requires AllDigits(a) && AllDigits(b)
    ensures AllDigits(a + b)
  {
    assert forall i :: 0 <= i < |a + b| ==> (a + b)[i] == if i < |a| then a[i] else b[i - |a|];
  }

  /** Ten to the `n`, as a natural number. */
  function TenPow(n: nat): nat {
    if n == 0 then 1 else 10 * TenPow(n - 1)
  }

  lemma {:induction false} TenPowIsPow10(n: nat)
    ensures TenPow(n) as real == Pow10(n)
  {
    if n > 0 {
      TenPowIsPow10(n - 1);
    }
  }

  /** The digits of `a` followed by those of `b`: `a` shifted left by `|b|` places, plus `b`. */
  lemma {:induction false} DigitsJoin(a: string, b: string)
    requires AllDigits(a) && AllDigits(b)
    ensures AllDigits(a + b)
    ensures DigitsValue(a + b) == DigitsValue(a) * TenPow(|b|) + DigitsValue(b)
    decreases |b|
  {
    AllDigitsJoin(a, b);
    if b == [] {
      assert a + b == a;
    } else {
      var b' := b[..|b| - 1];
      var s := a + b;
      assert s[..|s| - 1] == a + b' && s[|s| - 1] == b[|b| - 1];
      DigitsJoin(a, b');
      ShiftOneDigit(DigitsValue(a), TenPow(|b'|), DigitsValue(b'), b[|b| - 1] as int - '0' as int);
    }
  }

  lemma ShiftOneDigit(x: int, t: int, y: int, d: int)
    ensures (x * t + y) * 10 + d == x * (10 * t) + (y * 10 + d)
  {
  }

  /** A minus sign in front negates: `parseFloat("-5")` is -5. */
  lemma ParseNegativeExample()
    ensures ParseFloat("-5") == Some(-5.0)
  {
    FiveParts();
    ParseFloatLiteral("", "-", "5", None, None, "", 5.0);
    NegativeSentence();
  }

  lemma NegativeSentence()
    ensures "" + "-" + "5" + "" == "-5"
  {
    assert "" + "-" == "-";
    assert "-" + "5" == "-5";
  }

  lemma FiveParts()
    ensures LiteralText("5", None, None) == "5"
    ensures LiteralValue("5", None, None) == 5.0
  {
    assert "5" + "" == "5";
    assert DigitsValue("5") == 5 by {
      assert "5"[..0] == "";
    }
    assert Shifted(5, 0) == 5.0;
  }

  /** An exponent scales: `parseFloat(" 2.5e3 kr")` is 2500. */
  lemma ParseExponentExample()
    ensures ParseFloat(" 2.5e3 kr") == Some(2500.0)
  {
    ExponentParts();
    ParseFloatLiteral(" ", "", "2", Some("5"), Some(3), " kr", 2500.0);
    ExponentSentence();
  }

  lemma ExponentSentence()
    ensures " " + "" + "2.5e3" + " kr" == " 2.5e3 kr"
  {
    assert " " + "" == " ";
    assert " " + "2.5e3" == " 2.5e3";
    assert " 2.5e3" + " kr" == " 2.5e3 kr";
  }

  lemma ExponentParts()
    ensures LiteralText("2", Some("5"), Some(3)) == "2.5e3"
    ensures LiteralValue("2", Some("5"), Some(3)) == 2500.0
  {
    assert NatText(3) == "3";
    assert "2" + ".5" + "e3" == "2.5e3";
    assert DigitsValue("25") == 25 by {
      assert "25"[..1] == "2" && "2"[..0] == "";
    }
    assert "2" + "5" == "25";
    assert Shifted(25, 1) == 2.5;
    assert Scale(2.5, 3) == 2500.0 by {
      assert Pow10(3) == 1000.0;
    }
  }

  /** A price written as `"19.90abc"` sorts as 19.9: the trailing text is ignored. */
  lemma CoerceTrailingText()
    ensures Coerce(Some(Str("19.90abc"))) == 19.9
  {
    var s := "19.90abc";
    assert SkipSpace(s) == s;
    assert UnsignedPart(s) == s;
    ParseUnsignedExample();
  }

  lemma ParseUnsignedExample()
    ensures ParseUnsigned("19.90abc") == Some(19.9)
  {
    var s := "19.90abc";
    LeadingDigitsExample();
    assert s[2..] == ".90abc" && ".90abc"[1..] == "90abc";
    FractionExample();
  }

  lemma LeadingDigitsExample()
    ensures LeadingDigits("19.90abc") == "19"
  {
    var s := "19.90abc";
    assert s[1..] == "9.90abc" && s[2..] == ".90abc";
    assert LeadingDigits(".90abc") == "";
    assert LeadingDigits("9.90abc") == "9";
  }

  lemma FractionExample()
    ensures Fraction("19", "90abc") == Some(19.9)
  {
    assert LeadingDigits("90abc") == "90" by {
      assert LeadingDigits("abc") == "";
      assert "90abc"[1..] == "0abc" && "0abc"[1..] == "abc";
    }
    assert "90abc"[2..] == "abc";
    assert Exponent("abc") == 0;
    assert DigitsValue("19") == 19 by {
      assert "19"[..1] == "1";
      assert "1"[..0] == "";
    }
    assert DigitsValue("90") == 90 by {
      assert "90"[..1] == "9";
      assert "9"[..0] == "";
    }
    assert Pow10(2) == 100.0;
    assert Scale(19.0 + 90.0 / 100.0, 0) == 19.9;
  }
}
