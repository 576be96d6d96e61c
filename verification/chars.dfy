/** Character classes of the C locale, maximal-prefix scanning, and the
    decimal subset of `std::stof` / `std::to_string` that both the style
    sheet parser and the number field rely on. */
module Chars {
  import opened Wrappers

  predicate IsSpace(c: char) {
    c == ' ' || c == '\t' || c == '\n' || c == '\r' || c == '\U{B}' || c == '\U{C}'
  }

  predicate IsDigit(c: char) { '0' <= c <= '9' }

  predicate IsAlpha(c: char) { 'a' <= c <= 'z' || 'A' <= c <= 'Z' }

  predicate IsAlnum(c: char) { IsAlpha(c) || IsDigit(c) }

  predicate IsXDigit(c: char) { IsDigit(c) || 'a' <= c <= 'f' || 'A' <= c <= 'F' }

  /** `isprint` in the C locale. */
  predicate IsPrint(code: int) { 32 <= code <= 126 }

  function ToLower(c: char): (r: char)
    ensures IsAlpha(c) ==> 'a' <= r <= 'z'
    ensures !('A' <= c <= 'Z') ==> r == c
  {
    if 'A' <= c <= 'Z' then (c as int + 32) as char else c
  }

  function Lower(s: seq<char>): (r: seq<char>)
    ensures |r| == |s|
    ensures forall i :: 0 <= i < |s| ==> r[i] == ToLower(s[i])
  {
    seq(|s|, i requires 0 <= i < |s| => ToLower(s[i]))
  }

  /** Value of a hexadecimal digit. */
  function HexValue(c: char): (r: nat)
    requires IsXDigit(c)
    ensures r < 16
  {
    if IsDigit(c) then c as int - '0' as int
    else if 'a' <= c <= 'f' then c as int - 'a' as int + 10
    else c as int - 'A' as int + 10
  }

  /** Length of the longest prefix of `s` whose characters all satisfy `p`. */
  function Span(s: seq<char>, p: char -> bool): (n: nat)
    ensures n <= |s|
    ensures forall i :: 0 <= i < n ==> p(s[i])
    ensures n < |s| ==> !p(s[n])
  {
    if |s| == 0 || !p(s[0]) then 0 else 1 + Span(s[1..], p)
  }

  /** Any prefix made of `p` characters and followed by a non-`p`
      character (or the end) is the one `Span` finds. */
  lemma SpanUnique(s: seq<char>, p: char -> bool, n: nat)
    requires n <= |s|
    requires forall i :: 0 <= i < n ==> p(s[i])
    requires n < |s| ==> !p(s[n])
    ensures Span(s, p) == n
  {
  }

  // ----- decimal digits -----------------------------------------------------

  /** The value of a decimal digit (0 for any other character, which the
      scanners never pass). */
  function DigitValue(c: char): (r: nat)
    ensures r < 10
  {
    if IsDigit(c) then c as int - '0' as int else 0
  }

  predicate AllDigits(s: seq<char>) {
    forall i :: 0 <= i < |s| ==> IsDigit(s[i])
  }

  /** The number a run of decimal digits denotes. */
  function DigitsValue(s: seq<char>): nat
  {
    if |s| == 0 then 0 else DigitsValue(s[..|s| - 1]) * 10 + DigitValue(s[|s| - 1])
  }

  function Pow10(n: nat): (r: nat)
    ensures r >= 1
  {
    if n == 0 then 1 else 10 * Pow10(n - 1)
  }

  /** `std::to_string` of an unsigned integer: its decimal digits, no
      leading zeros. */
  function NatToString(n: nat): (r: seq<char>)
    ensures |r| > 0 && AllDigits(r)
    ensures |r| > 1 ==> r[0] != '0'
  {
    var d := ('0' as int + n % 10) as char;
    if n < 10 then [d] else NatToString(n / 10) + [d]
  }

  lemma {:induction false} NatToStringValue(n: nat)
    ensures DigitsValue(NatToString(n)) == n
  {
    var s := NatToString(n);
    if n >= 10 {
      NatToStringValue(n / 10);
      assert s[..|s| - 1] == NatToString(n / 10);
    }
  }

  /** Distinct ids print differently, so ids built from `std::to_string`
      of distinct numbers are distinct strings. */
  lemma NatToStringInjective(a: nat, b: nat)
    requires NatToString(a) == NatToString(b)
    ensures a == b
  {
    NatToStringValue(a);
    NatToStringValue(b);
  }

  // ----- std::stof ----------------------------------------------------------

  datatype NumberError = NoConversion

  /** The decimal subset of `std::stof`: leading white space, an optional
      sign, then an unsigned decimal. Characters after the number are
      ignored; no digits at all is the `std::invalid_argument` case. */
  function StoF(s: seq<char>): (r: Result<real, NumberError>)
    ensures r.Success? ==> exists i :: 0 <= i < |s| && IsDigit(s[i])
  {
    var t := s[Span(s, IsSpace)..];
    if |t| > 0 && t[0] == '-' then Negate(UnsignedDecimal(t[1..]))
    else if |t| > 0 && t[0] == '+' then UnsignedDecimal(t[1..])
    else UnsignedDecimal(t)
  }

  /** The conversion of a minus-signed number: the negated value, or the
      same failure. */
  function Negate(r: Result<real, NumberError>): (n: Result<real, NumberError>)
    ensures n.Success? <==> r.Success?
    ensures n.Success? ==> n.value == -r.value
  {
    if r.Failure? then r else Success(-r.value)
  }

  /** Digits with an optional fraction (at least one digit in all) and an
      optional exponent that is only taken when it has digits. */
  function UnsignedDecimal(u: seq<char>): (r: Result<real, NumberError>)
    ensures r.Success? ==> exists i :: 0 <= i < |u| && IsDigit(u[i])
    ensures r.Success? ==> r.value >= 0.0
  {
    var n := Span(u, IsDigit);
    var v := u[n..];
    var frac := FractionDigits(v);
    if n + |frac| == 0 then Failure(NoConversion)
    else
      assert n > 0 ==> IsDigit(u[0]);
      assert n == 0 ==> u[1] == frac[0];
      var w := if |v| > 0 && v[0] == '.' then v[1 + |frac|..] else v;
      Success(ApplyExponent(Mantissa(u[..n], frac), w))
  }

  /** `int.frac` as a number. */
  function Mantissa(intPart: seq<char>, frac: seq<char>): (r: real)
    ensures r >= 0.0
  {
    if |frac| == 0 then DigitsValue(intPart) as real
    else DigitsValue(intPart) as real + DigitsValue(frac) as real / Pow10(|frac|) as real
  }

  /** The digits after a leading `.`, if there is one. */
  function FractionDigits(v: seq<char>): (r: seq<char>)
    ensures AllDigits(r)
    ensures |r| > 0 ==> |v| > |r| && v[0] == '.' && r == v[1..1 + |r|]
  {
    if |v| > 0 && v[0] == '.' then v[1..][..Span(v[1..], IsDigit)] else []
  }

  /** Applies an exponent suffix `e[+-]digits` to `m`; the suffix is
      ignored when it is absent or has no digits. */
  function ApplyExponent(m: real, w: seq<char>): (r: real)
    ensures m >= 0.0 ==> r >= 0.0
  {
    if |w| == 0 || (w[0] != 'e' && w[0] != 'E') then m
    else
      var (negExp, ds) := ExponentField(w[1..]);
      if |ds| == 0 then m else Scaled(m, negExp, ds)
  }

  /** `m` scaled by ten to the power of the exponent digits `ds`, down when
      the exponent is negative. */
  function Scaled(m: real, negExp: bool, ds: seq<char>): (r: real)
    ensures m >= 0.0 ==> r >= 0.0
  {
    if negExp then m / Pow10(DigitsValue(ds)) as real
    else m * Pow10(DigitsValue(ds)) as real
  }

  /** What follows the exponent mark: whether it is negative, and its
      digits after an optional sign. */
  function ExponentField(x: seq<char>): (bool, seq<char>)
  {
    var negExp := |x| > 0 && x[0] == '-';
    var y := if |x| > 0 && (x[0] == '-' || x[0] == '+') then x[1..] else x;
    (negExp, y[..Span(y, IsDigit)])
  }

  /** A bare run of digits is read as the number it denotes. */
  lemma UnsignedDecimalOfDigits(s: seq<char>)
    requires |s| > 0 && AllDigits(s)
    ensures UnsignedDecimal(s) == Success(DigitsValue(s) as real)
  {
    SpanUnique(s, IsDigit, |s|);
    assert s[..|s|] == s;
    assert s[|s|..] == [];
  }

  /** Parsing what `NatToString` prints gives the number back. */
  lemma StoFOfNatToString(n: nat)
    ensures StoF(NatToString(n)) == Success(n as real)
  {
    var s := NatToString(n);
    assert !IsSpace(s[0]);
    assert Span(s, IsSpace) == 0;
    assert s[0..] == s;
    assert StoF(s) == UnsignedDecimal(s);
    UnsignedDecimalOfDigits(s);
    NatToStringValue(n);
  }

  /** A leading minus negates. */
  lemma StoFNegates(s: seq<char>)
    requires |s| > 0 && IsDigit(s[0])
    ensures StoF(['-'] + s).Success? && StoF(s).Success?
    ensures StoF(['-'] + s).value == -StoF(s).value
  {
    var m := ['-'] + s;
    assert !IsSpace(m[0]) && !IsSpace(s[0]);
    assert Span(m, IsSpace) == 0;
    assert Span(s, IsSpace) == 0;
    assert m[0..] == m && s[0..] == s;
    assert m[1..] == s;
    assert StoF(s) == UnsignedDecimal(s);
    assert Span(s, IsDigit) > 0;
    assert UnsignedDecimal(s).Success?;
  }

  /** The decimal value of `int.frac`, with no fraction digits meaning 0. */
  function DecimalValue(intPart: seq<char>, frac: seq<char>): real {
    DigitsValue(intPart) as real + DigitsValue(frac) as real / Pow10(|frac|) as real
  }

  /** What may follow a number without being read as part of it: the end,
      or a character that is neither a digit nor an exponent mark. */
  predicate EndsNumber(rest: seq<char>) {
    |rest| > 0 ==> !IsDigit(rest[0]) && rest[0] != 'e' && rest[0] != 'E'
  }

  /** `digits.digits` followed by a non-number character is read as the
      decimal it denotes; the text after it is ignored. */
  lemma UnsignedDecimalOfFraction(a: seq<char>, f: seq<char>, rest: seq<char>)
    requires AllDigits(a) && AllDigits(f) && |a| + |f| > 0 && EndsNumber(rest)
    ensures UnsignedDecimal(a + ['.'] + f + rest) == Success(DecimalValue(a, f))
  {
    var u := a + ['.'] + f + rest;
    FractionFields(a, f, rest);
    assert UnsignedDecimal(u) == Success(ApplyExponent(Mantissa(a, f), rest));
    assert ApplyExponent(Mantissa(a, f), rest) == Mantissa(a, f);
    assert Mantissa(a, f) == DecimalValue(a, f);
  }

  /** How `UnsignedDecimal` splits `digits.digits` and what follows. */
  lemma FractionFields(a: seq<char>, f: seq<char>, rest: seq<char>)
    requires AllDigits(a) && AllDigits(f) && EndsNumber(rest)
    ensures var u := a + ['.'] + f + rest;
      && Span(u, IsDigit) == |a| && u[..|a|] == a
      && |u[|a|..]| > 0 && u[|a|..][0] == '.'
      && FractionDigits(u[|a|..]) == f && u[|a|..][1 + |f|..] == rest
  {
    var u := a + ['.'] + f + rest;
    SpanUnique(u, IsDigit, |a|);
    assert u[..|a|] == a;
    var v := u[|a|..];
    assert v == ['.'] + (f + rest);
    assert v[1..] == f + rest;
    SpanUnique(f + rest, IsDigit, |f|);
    assert (f + rest)[..|f|] == f;
    assert v[1 + |f|..] == rest;
  }

  /** Text that starts with neither white space nor a sign is read by
      `UnsignedDecimal` alone, and a minus in front of it negates. */
  lemma StoFUnsigned(u: seq<char>)
    requires |u| > 0 && !IsSpace(u[0]) && u[0] != '-' && u[0] != '+'
    ensures StoF(u) == UnsignedDecimal(u)
    ensures StoF(['-'] + u) == Negate(UnsignedDecimal(u))
  {
    SpanUnique(u, IsSpace, 0);
    assert u[0..] == u;
    var m := ['-'] + u;
    SpanUnique(m, IsSpace, 0);
    assert m[0..] == m && m[1..] == u;
  }

  /** `stof` of `digits.digits`. */
  lemma StoFOfFraction(a: seq<char>, f: seq<char>, rest: seq<char>)
    requires AllDigits(a) && AllDigits(f) && |a| + |f| > 0 && EndsNumber(rest)
    ensures StoF(a + ['.'] + f + rest) == Success(DecimalValue(a, f))
  {
    var u := a + ['.'] + f + rest;
    UnsignedDecimalOfFraction(a, f, rest);
    assert u[0] == if |a| > 0 then a[0] else '.';
    StoFUnsigned(u);
  }

  /** `stof` of `-digits.digits`. */
  lemma StoFOfNegativeFraction(a: seq<char>, f: seq<char>, rest: seq<char>)
    requires AllDigits(a) && AllDigits(f) && |a| + |f| > 0 && EndsNumber(rest)
    ensures StoF(['-'] + a + ['.'] + f + rest).Success?
    ensures StoF(['-'] + a + ['.'] + f + rest).value == -DecimalValue(a, f)
  {
    NegatedFraction(a, f, rest);
  }

  /** `-digits.digits` converts as the negation of `digits.digits`. */
  lemma NegatedFraction(a: seq<char>, f: seq<char>, rest: seq<char>)
    requires AllDigits(a) && AllDigits(f) && |a| + |f| > 0 && EndsNumber(rest)
    ensures StoF(['-'] + a + ['.'] + f + rest) == Negate(Success(DecimalValue(a, f)))
  {
    var u := a + ['.'] + f + rest;
    SignThenFraction(a, f, rest);
    assert u[0] == if |a| > 0 then a[0] else '.';
    StoFUnsigned(u);
    UnsignedDecimalOfFraction(a, f, rest);
  }

  /** A minus in front of `digits.digits` is a minus in front of the
      whole unsigned text. */
  lemma SignThenFraction(a: seq<char>, f: seq<char>, rest: seq<char>)
    ensures ['-'] + a + ['.'] + f + rest == ['-'] + (a + ['.'] + f + rest)
  {
    Regroup(['-'], a, ['.'] + f + rest);
    Regroup(a, ['.'], f + rest);
    Regroup(a + ['.'], f, rest);
  }

  /** `p + q + r` read as `p` followed by `q + r`. */
  lemma Regroup(p: seq<char>, q: seq<char>, r: seq<char>)
    ensures p + q + r == p + (q + r)
  {
  }

  /** Digits followed by something other than a digit or `.`: the mantissa
      is the digits, and what follows may only be an exponent. */
  lemma UnsignedDecimalOfInteger(a: seq<char>, w: seq<char>)
    requires |a| > 0 && AllDigits(a)
    requires |w| > 0 ==> !IsDigit(w[0]) && w[0] != '.'
    ensures UnsignedDecimal(a + w) == Success(ApplyExponent(DigitsValue(a) as real, w))
  {
    var u := a + w;
    SpanUnique(u, IsDigit, |a|);
    assert u[..|a|] == a && u[|a|..] == w;
    assert FractionDigits(w) == [];
  }

  /** Dropping the first character of `[c] + x + rest`. */
  lemma DropMarker(c: char, x: seq<char>, rest: seq<char>)
    ensures ([c] + x + rest)[1..] == x + rest
  {
    assert [c] + x + rest == [c] + (x + rest);
  }

  /** After the exponent mark, an optional minus and a run of digits are
      the exponent's sign and digits. */
  lemma ExponentFieldOf(neg: bool, x: seq<char>, rest: seq<char>)
    requires |x| > 0 && AllDigits(x)
    requires |rest| > 0 ==> !IsDigit(rest[0])
    ensures ExponentField(SignText(neg) + x + rest) == (neg, x)
  {
    var y := x + rest;
    if neg {
      DropMarker('-', x, rest);
    } else {
      assert [] + x + rest == y;
    }
    assert y[0] == x[0];
    SpanUnique(y, IsDigit, |x|);
    assert y[..|x|] == x;
  }

  /** The sign written before a negative exponent; none before a positive
      one. */
  function SignText(neg: bool): seq<char> {
    if neg then ['-'] else []
  }

  /** The digits `a` followed by the exponent text that starts with `e`. */
  lemma ExponentAfter(a: seq<char>, sign: seq<char>, x: seq<char>, rest: seq<char>)
    ensures a + ['e'] + sign + x + rest == a + (['e'] + sign + x + rest)
  {
    Regroup(a, ['e'], sign + x + rest);
    Regroup(['e'], sign, x + rest);
    Regroup(['e'] + sign, x, rest);
    Regroup(a + ['e'], sign, x + rest);
    Regroup(a + ['e'] + sign, x, rest);
  }

  /** An exponent `e digits` or `e- digits` scales by a power of ten. */
  lemma ExponentOf(m: real, neg: bool, x: seq<char>, rest: seq<char>)
    requires |x| > 0 && AllDigits(x)
    requires |rest| > 0 ==> !IsDigit(rest[0])
    ensures ApplyExponent(m, ['e'] + SignText(neg) + x + rest) == Scaled(m, neg, x)
  {
    var sign := SignText(neg);
    var w := ['e'] + sign + x + rest;
    DropMarker('e', sign, x + rest);
    assert w == ['e'] + sign + (x + rest);
    assert w[1..] == sign + x + rest;
    ExponentFieldOf(neg, x, rest);
  }

  /** `digits e digits` and `digits e- digits`. */
  lemma UnsignedDecimalOfExponent(a: seq<char>, neg: bool, x: seq<char>, rest: seq<char>)
    requires |a| > 0 && AllDigits(a) && |x| > 0 && AllDigits(x)
    requires |rest| > 0 ==> !IsDigit(rest[0])
    ensures UnsignedDecimal(a + ['e'] + SignText(neg) + x + rest) ==
      Success(Scaled(DigitsValue(a) as real, neg, x))
  {
    var w := ['e'] + SignText(neg) + x + rest;
    ExponentAfter(a, SignText(neg), x, rest);
    UnsignedDecimalOfInteger(a, w);
    ExponentOf(DigitsValue(a) as real, neg, x, rest);
  }

  /** `stof` of `digits e digits` and `digits e- digits`. */
  lemma StoFOfExponent(a: seq<char>, neg: bool, x: seq<char>, rest: seq<char>)
    requires |a| > 0 && AllDigits(a) && |x| > 0 && AllDigits(x)
    requires |rest| > 0 ==> !IsDigit(rest[0])
    ensures StoF(a + ['e'] + SignText(neg) + x + rest) == Success(Scaled(DigitsValue(a) as real, neg, x))
  {
    var u := a + ['e'] + SignText(neg) + x + rest;
    assert u[0] == a[0];
    UnsignedDecimalOfExponent(a, neg, x, rest);
    StoFUnsigned(u);
  }

  /** Text starting with a digit always converts. */
  lemma StoFOfDigitStart(s: seq<char>)
    requires |s| > 0 && IsDigit(s[0])
    ensures StoF(s).Success?
  {
    SpanUnique(s, IsSpace, 0);
    assert s[0..] == s;
    assert Span(s, IsDigit) > 0;
  }

  /** Powers of ten multiply by adding exponents. */
  lemma {:induction false} Pow10Add(a: nat, b: nat)
    ensures Pow10(a + b) == Pow10(a) * Pow10(b)
    decreases a
  {
    if a > 0 {
      Pow10Add(a - 1, b);
      assert Pow10(a + b) == 10 * Pow10(a - 1 + b);
    }
  }

  // ----- std::to_string of a float ------------------------------------------

  /** `k` zero digits. */
  function Zeros(k: nat): (r: seq<char>)
    ensures |r| == k && AllDigits(r)
  {
    seq(k, _ => '0')
  }

  lemma {:induction false} ZerosValue(k: nat)
    ensures DigitsValue(Zeros(k)) == 0
  {
    if k > 0 {
      ZerosValue(k - 1);
      assert Zeros(k)[..k - 1] == Zeros(k - 1);
    }
  }

  /** `std::to_string` of a float holding the whole number `n`: printed
      with `%f`, so with six zero decimals. */
  function FloatText(n: nat): string {
    NatToString(n) + ['.'] + Zeros(6)
  }

  /** Digits followed by a point and zeros read as the digits' value. */
  lemma StoFOfZeroFraction(a: seq<char>, k: nat)
    requires |a| > 0 && AllDigits(a)
    ensures StoF(a + ['.'] + Zeros(k)).Success?
    ensures StoF(a + ['.'] + Zeros(k)).value == DigitsValue(a) as real
  {
    var d := DecimalValue(a, Zeros(k));
    assert StoF(a + ['.'] + Zeros(k)) == Success(d) by {
      StoFOfFraction(a, Zeros(k), []);
      assert a + ['.'] + Zeros(k) + [] == a + ['.'] + Zeros(k);
    }
    DecimalOfZeros(a, k);
  }

  /** Zero fraction digits add nothing. */
  lemma DecimalOfZeros(a: seq<char>, k: nat)
    ensures DecimalValue(a, Zeros(k)) == DigitsValue(a) as real
  {
    ZerosValue(k);
    var p := Pow10(k) as real;
    assert p >= 1.0;
    assert 0.0 / p == 0.0;
  }

  /** `stof` reads the `%f` text of a whole number back as that number. */
  lemma StoFOfPrintedFloat(n: nat)
    ensures StoF(FloatText(n)) == Success(n as real)
  {
    StoFOfZeroFraction(NatToString(n), 6);
    NatToStringValue(n);
  }
}
