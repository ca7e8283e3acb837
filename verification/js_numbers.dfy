/**
 * The three pieces of JavaScript number semantics the page relies on:
 * `parseInt(s, 10)`, the truncating remainder operator `%`, and
 * `Number.prototype.toString()` on integer values.
 */
module JsNumbers {
  import opened Wrappers

  /** A radix-10 digit, as `parseInt` with radix 10 recognises it (ASCII only). */
  predicate IsDigit(c: char) {
    '0' <= c <= '9'
  }

  predicate AllDigits(s: string) {
    forall i :: 0 <= i < |s| ==> IsDigit(s[i])
  }

  /**
   * StrWhiteSpaceChar of ECMAScript: WhiteSpace (TAB, VT, FF, ZWNBSP and the
   * Unicode Zs category) and LineTerminator (LF, CR, LS, PS).
   */
  predicate IsJsWhitespace(c: char) {
    var u := c as int;
    || u == 0x09 || u == 0x0B || u == 0x0C || u == 0xFEFF
    || u == 0x20 || u == 0xA0 || u == 0x1680 || (0x2000 <= u <= 0x200A)
    || u == 0x202F || u == 0x205F || u == 0x3000
    || u == 0x0A || u == 0x0D || u == 0x2028 || u == 0x2029
  }

  predicate AllWhitespace(s: string) {
    forall i :: 0 <= i < |s| ==> IsJsWhitespace(s[i])
  }

  function DigitValue(c: char): (d: nat)
    requires IsDigit(c)
    ensures d < 10
  {
    (c as int) - ('0' as int)
  }

  function DigitChar(d: nat): (c: char)
    requires d < 10
    ensures IsDigit(c) && DigitValue(c) == d
  {
    (('0' as int) + d) as char
  }

  /** Drops the leading whitespace `parseInt` ignores. */
  function SkipWhitespace(s: string): (r: string)
    ensures |r| <= |s| && r == s[|s| - |r|..]
    ensures r == [] || !IsJsWhitespace(r[0])
  {
    if s == [] || !IsJsWhitespace(s[0]) then s
    else
      SkipWhitespace(s[1..])
  }

  /** The longest prefix of `s` made of radix-10 digits. */
  function LeadingDigits(s: string): (ds: string)
    ensures |ds| <= |s| && ds == s[..|ds|] && AllDigits(ds)
    ensures |ds| == |s| || !IsDigit(s[|ds|])
  {
    if s == [] || !IsDigit(s[0]) then []
    else [s[0]] + LeadingDigits(s[1..])
  }

  /** The mathematical value of a digit string, most significant digit first. */
  function DigitsValue(ds: string): nat
    requires AllDigits(ds)
  {
    if ds == [] then 0
    else DigitsValue(ds[..|ds| - 1]) * 10 + DigitValue(ds[|ds| - 1])
  }

  /** True when the text after the whitespace starts with a minus sign. */
  predicate HasMinus(t: string) {
    t != [] && t[0] == '-'
  }

  /** The text after one optional leading `+` or `-`. */
  function AfterSign(t: string): string {
    if t != [] && (t[0] == '-' || t[0] == '+') then t[1..] else t
  }

  /**
   * `parseInt(s, 10)`: skip leading whitespace, take one optional sign, then the
   * longest run of digits; no digits gives NaN (`None`). Everything after the
   * digits is ignored. A parsed `-0` is the integer 0.
   */
  function ParseInt(s: string): Option<int> {
    ParseTrimmed(SkipWhitespace(s))
  }

  /** `parseInt` on text that no longer starts with whitespace. */
  function ParseTrimmed(t: string): Option<int> {
    var ds := LeadingDigits(AfterSign(t));
    if ds == [] then None
    else
      var v: int := DigitsValue(ds);
      Some(if HasMinus(t) then -v else v)
  }

  /** The decimal digits of a natural number, without leading zeros. */
  function NaturalString(n: nat): (r: string)
    ensures r != [] && AllDigits(r)
    ensures DigitsValue(r) == n
    ensures r[0] == '0' ==> n == 0 && |r| == 1
  {
    if n < 10 then [DigitChar(n)]
    else
      var r := NaturalString(n / 10) + [DigitChar(n % 10)];
      assert r[..|r| - 1] == NaturalString(n / 10);
      r
  }

  /** Digits without a leading zero, except for "0" itself. */
  predicate CanonicalDigits(ds: string) {
    ds != [] && AllDigits(ds) && (ds[0] == '0' ==> |ds| == 1)
  }

  /** `text` is the usual decimal notation of `n`: canonical digits, after a `-` when negative. */
  predicate CanonicalDecimal(text: string, n: int) {
    if n >= 0 then CanonicalDigits(text) && DigitsValue(text) == n
    else |text| >= 2 && text[0] == '-' && CanonicalDigits(text[1..]) && DigitsValue(text[1..]) == -n
  }

  /** `n.toString()` for an integer-valued Number below 1e21. */
  function DecimalString(n: int): string {
    if n < 0 then "-" + NaturalString(-n) else NaturalString(n)
  }

  /** `toString()` writes the decimal notation of its integer. */
  lemma DecimalStringCanonical(n: int)
    ensures CanonicalDecimal(DecimalString(n), n)
  {
    if n < 0 {
      assert DecimalString(n)[1..] == NaturalString(-n);
    }
  }

  /** A digit string that does not start with `0` has a positive value. */
  lemma {:induction false} LeadingNonZeroPositive(ds: string)
    requires ds != [] && AllDigits(ds) && ds[0] != '0'
    ensures DigitsValue(ds) > 0
  {
    var p := ds[..|ds| - 1];
    if p != [] {
      assert p[0] == ds[0];
      LeadingNonZeroPositive(p);
    } else {
      assert DigitsValue(ds) == DigitValue(ds[0]);
    }
  }

  /** Canonical digits are the digits `NaturalString` produces for their value. */
  lemma {:induction false} CanonicalIsNatural(ds: string)
    requires CanonicalDigits(ds)
    ensures ds == NaturalString(DigitsValue(ds))
  {
    var v := DigitsValue(ds);
    var c := ds[|ds| - 1];
    var d := DigitValue(c);
    var p := ds[..|ds| - 1];
    assert v == DigitsValue(p) * 10 + d;
    assert DigitChar(d) == c;
    if p == [] {
      assert ds == [c];
    } else {
      assert p[0] == ds[0];
      LeadingNonZeroPositive(p);
      CanonicalIsNatural(p);
      ModUnique(v, 10, DigitsValue(p), d);
      assert ds == p + [c];
    }
  }

  /** Only one text is the decimal notation of `n`: the one `toString()` gives. */
  lemma CanonicalDecimalUnique(text: string, n: int)
    requires CanonicalDecimal(text, n)
    ensures text == DecimalString(n)
  {
    if n >= 0 {
      CanonicalIsNatural(text);
    } else {
      CanonicalIsNatural(text[1..]);
      assert text == "-" + text[1..];
    }
  }

  /**
   * JavaScript's `a % b` on integer operands and a positive divisor: division
   * truncates, so the remainder takes the sign of the dividend (Dafny's `%` is
   * Euclidean and never negative).
   */
  function JsRem(a: int, b: int): (r: int)
    requires b > 0
    ensures a >= 0 ==> 0 <= r < b && r == a % b
    ensures a < 0 ==> -b < r <= 0
    ensures (a - r) % b == 0
  {
    if a >= 0 then
      var q := a / b;
      assert a - a % b == b * q;
      MultipleMod(q, b);
      a % b
    else
      var q, m := (-a) / b, (-a) % b;
      assert -a == b * q + m;
      assert a - -m == b * -q;
      MultipleMod(-q, b);
      -m
  }

  /** A multiple of `b` leaves no remainder. */
  lemma MultipleMod(q: int, b: int)
    requires b > 0
    ensures (b * q) % b == 0
  {
    ModUnique(b * q, b, q, 0);
  }

  /** Division with remainder is unique: the one fact about `%` the proofs lean on. */
  lemma ModUnique(a: int, b: int, q: int, r: int)
    requires b > 0 && 0 <= r < b
    requires a == b * q + r
    ensures a % b == r && a / b == q
  {
    var q0, r0 := a / b, a % b;
    assert a == b * q0 + r0;
    var d := q - q0;
    assert b * q == b * q0 + b * d;
    if d > 0 {
      assert b * d >= b by { MulAtLeast(b, d); }
    } else if d < 0 {
      assert b * -d >= b by { MulAtLeast(b, -d); }
    }
  }

  /** Stepping forward one place after reducing modulo `n` is the same as reducing afterwards. */
  lemma ModSucc(a: int, n: int)
    requires n > 0
    ensures (a % n + 1) % n == (a + 1) % n
  {
    var q, r := a / n, a % n;
    if r + 1 < n {
      ModUnique(r + 1, n, 0, r + 1);
      ModUnique(a + 1, n, q, r + 1);
    } else {
      ModUnique(r + 1, n, 1, 0);
      ModUnique(a + 1, n, q + 1, 0);
    }
  }

  /** Stepping back one place (written with `+ n` as the page does) commutes with reduction. */
  lemma ModPred(a: int, n: int)
    requires n > 0
    ensures (a % n - 1 + n) % n == (a - 1) % n
  {
    var q, r := a / n, a % n;
    if r >= 1 {
      ModUnique(r - 1 + n, n, 1, r - 1);
      ModUnique(a - 1, n, q, r - 1);
    } else {
      ModUnique(r - 1 + n, n, 0, n - 1);
      ModUnique(a - 1, n, q - 1, n - 1);
    }
  }

  lemma MulAtLeast(b: nat, d: int)
    requires d >= 1
    ensures b * d >= b
  {
  }

  // ---------------------------------------------------------------------
  // Properties of parseInt

  /** What `SkipWhitespace` drops is whitespace. */
  lemma {:induction false} SkipWhitespaceDropsWhitespace(s: string)
    ensures AllWhitespace(s[..|s| - |SkipWhitespace(s)|])
  {
    if s != [] && IsJsWhitespace(s[0]) {
      SkipWhitespaceDropsWhitespace(s[1..]);
      var k := |s[1..]| - |SkipWhitespace(s[1..])|;
      assert s[..k + 1] == [s[0]] + s[1..][..k];
    }
  }

  /** Whitespace in front of a non-whitespace start is exactly what `SkipWhitespace` drops. */
  lemma {:induction false} SkipWhitespaceOf(w: string, t: string)
    requires AllWhitespace(w)
    requires t == [] || !IsJsWhitespace(t[0])
    ensures SkipWhitespace(w + t) == t
  {
    if w != [] {
      assert (w + t)[1..] == w[1..] + t;
      SkipWhitespaceOf(w[1..], t);
    }
  }

  lemma {:induction false} LeadingDigitsOf(ds: string, rest: string)
    requires AllDigits(ds)
    requires rest == [] || !IsDigit(rest[0])
    ensures LeadingDigits(ds + rest) == ds
  {
    if ds != [] {
      assert (ds + rest)[1..] == ds[1..] + rest;
      LeadingDigitsOf(ds[1..], rest);
    }
  }

  /** Digits and signs are not whitespace, so `parseInt` starts reading at them. */
  lemma NotWhitespace(c: char)
    requires IsDigit(c) || c == '+' || c == '-'
    ensures !IsJsWhitespace(c)
  {
  }

  /** On text that starts with something other than whitespace, nothing is skipped. */
  lemma ParseIntTrimmed(t: string)
    requires t == [] || !IsJsWhitespace(t[0])
    ensures ParseInt(t) == ParseTrimmed(t)
  {
  }

  /** Once the digit run is known, the parsed value is fixed. */
  lemma ParseTrimmedDigits(t: string, ds: string)
    requires LeadingDigits(AfterSign(t)) == ds
    ensures ds == [] ==> ParseTrimmed(t) == None
    ensures ds != [] ==> ParseTrimmed(t) == Some(if HasMinus(t) then -(DigitsValue(ds) as int) else DigitsValue(ds))
  {
  }

  /** Leading whitespace does not change what `parseInt` reads. */
  lemma ParseIntAfterWhitespace(w: string, t: string)
    requires AllWhitespace(w)
    requires t == [] || !IsJsWhitespace(t[0])
    ensures ParseInt(w + t) == ParseInt(t)
  {
    SkipWhitespaceOf(w, t);
    ParseIntTrimmed(t);
  }

  /** The optional sign `parseInt` accepts in front of the digits. */
  datatype Sign = NoSign | Plus | Minus {
    function Text(): string {
      match this
      case NoSign => ""
      case Plus => "+"
      case Minus => "-"
    }

    function Apply(m: nat): int {
      if Minus? then -(m as int) else m
    }
  }

  /** A digit run, optionally signed, followed by a non-digit, parses to its value. */
  lemma ParseIntOfDigits(sign: Sign, ds: string, rest: string)
    requires ds != [] && AllDigits(ds)
    requires rest == [] || !IsDigit(rest[0])
    ensures ParseInt(sign.Text() + ds + rest) == Some(sign.Apply(DigitsValue(ds)))
  {
    var u := ds + rest;
    var t := sign.Text() + u;
    assert sign.Text() + ds + rest == t;
    assert u[0] == ds[0];
    SignedText(sign, u);
    LeadingDigitsOf(ds, rest);
    ParseIntTrimmed(t);
    ParseTrimmedDigits(t, ds);
  }

  /** In front of a digit, `parseInt` skips no whitespace and drops exactly the sign. */
  lemma SignedText(sign: Sign, u: string)
    requires u != [] && IsDigit(u[0])
    ensures var t := sign.Text() + u;
      && t != [] && !IsJsWhitespace(t[0]) && AfterSign(t) == u && HasMinus(t) == sign.Minus?
  {
    var t := sign.Text() + u;
    if sign == NoSign {
      assert t == u;
      NotWhitespace(u[0]);
    } else {
      assert t[0] == sign.Text()[0] && t[1..] == u;
      NotWhitespace(t[0]);
    }
  }

  /**
   * Leading whitespace, an optional sign, a run of decimal digits (leading
   * zeros allowed) and any tail that does not start with a digit parse to the
   * signed value of the digits.
   */
  lemma ParseIntOfDecimal(w: string, sign: Sign, ds: string, rest: string)
    requires AllWhitespace(w)
    requires ds != [] && AllDigits(ds)
    requires rest == [] || !IsDigit(rest[0])
    ensures ParseInt(w + sign.Text() + ds + rest) == Some(sign.Apply(DigitsValue(ds)))
  {
    var t := sign.Text() + ds + rest;
    assert w + sign.Text() + ds + rest == w + t;
    assert !IsJsWhitespace(t[0]) by {
      if sign == NoSign {
        assert t[0] == ds[0];
        NotWhitespace(t[0]);
      } else {
        assert t[0] == sign.Text()[0];
        NotWhitespace(t[0]);
      }
    }
    ParseIntAfterWhitespace(w, t);
    ParseIntOfDigits(sign, ds, rest);
  }

  /** `parseInt` reads back what integer `toString` writes. */
  lemma ParseIntOfDecimalString(n: int)
    ensures ParseInt(DecimalString(n)) == Some(n)
  {
    var sign := if n < 0 then Minus else NoSign;
    var m: nat := if n < 0 then -n else n;
    assert DecimalString(n) == "" + sign.Text() + NaturalString(m) + "";
    ParseIntOfDecimal("", sign, NaturalString(m), "");
  }

  /** A string containing no digit at all is NaN to `parseInt`. */
  lemma ParseIntWithoutDigits(s: string)
    requires forall i :: 0 <= i < |s| ==> !IsDigit(s[i])
    ensures ParseInt(s) == None
  {
    var t := SkipWhitespace(s);
    var u := AfterSign(t);
    assert u == s[|s| - |u|..];
    assert u == [] || u[0] == s[|s| - |u|];
    ParseTrimmedDigits(t, LeadingDigits(u));
  }

  /**
   * NaN whenever no digit follows the whitespace and the optional sign: after a
   * sign anything but a digit, without one anything but whitespace, a sign or a
   * digit (`"abc123"`, `"$42000"`, `"- 5"`, `"+-5"`).
   */
  lemma ParseIntWithoutLeadingDigits(w: string, sign: Sign, rest: string)
    requires AllWhitespace(w)
    requires rest == [] || !IsDigit(rest[0])
    requires sign == NoSign && rest != [] ==> !IsJsWhitespace(rest[0]) && rest[0] != '+' && rest[0] != '-'
    ensures ParseInt(w + sign.Text() + rest) == None
  {
    var t := sign.Text() + rest;
    assert w + sign.Text() + rest == w + t;
    if sign == NoSign {
      assert t == rest;
    } else {
      assert t[0] == sign.Text()[0] && t[1..] == rest;
      NotWhitespace(t[0]);
    }
    assert AfterSign(t) == rest;
    ParseIntAfterWhitespace(w, t);
    ParseIntTrimmed(t);
    ParseTrimmedDigits(t, LeadingDigits(rest));
  }

  /** The sign is read from the front, so appending text does not affect it. */
  lemma AfterSignAppend(t: string, tail: string)
    requires t != []
    ensures AfterSign(t + tail) == AfterSign(t) + tail
    ensures HasMinus(t + tail) == HasMinus(t)
  {
    assert (t + tail)[0] == t[0];
    assert (t + tail)[1..] == t[1..] + tail;
  }

  /** Once the digit run has ended inside `t`, appending text changes nothing. */
  lemma ParseTrimmedIgnoresTail(t: string, tail: string)
    requires t != [] && |LeadingDigits(AfterSign(t))| < |AfterSign(t)|
    ensures ParseTrimmed(t + tail) == ParseTrimmed(t)
  {
    var u := AfterSign(t);
    var ds := LeadingDigits(u);
    var rest := u[|ds|..];
    assert u == ds + rest;
    AfterSignAppend(t, tail);
    assert AfterSign(t + tail) == ds + (rest + tail);
    LeadingDigitsOf(ds, rest + tail);
    ParseTrimmedDigits(t, ds);
    ParseTrimmedDigits(t + tail, ds);
  }

  /** Skipping whitespace that ends inside `s` is unaffected by what follows `s`. */
  lemma {:induction false} SkipWhitespaceAppend(s: string, tail: string)
    requires SkipWhitespace(s) != []
    ensures SkipWhitespace(s + tail) == SkipWhitespace(s) + tail
  {
    assert (s + tail)[0] == s[0];
    if IsJsWhitespace(s[0]) {
      assert (s + tail)[1..] == s[1..] + tail;
      SkipWhitespaceAppend(s[1..], tail);
    }
  }

  /** A run of digits cannot take in a final non-digit. */
  lemma LeadingDigitsStopBefore(u: string)
    requires u != [] && !IsDigit(u[|u| - 1])
    ensures |LeadingDigits(u)| < |u|
  {
  }

  /** When the last character of `s` is not a digit, any digit run ends inside `s`. */
  lemma DigitsEndInside(s: string)
    requires s != [] && !IsDigit(s[|s| - 1])
    ensures var u := AfterSign(SkipWhitespace(s));
      u == [] || |LeadingDigits(u)| < |u|
  {
    var t := SkipWhitespace(s);
    var u := AfterSign(t);
    if u != [] {
      AfterSignLast(t);
      LastOfSuffix(s, t);
      LeadingDigitsStopBefore(u);
    }
  }

  /** Dropping the sign keeps the last character. */
  lemma AfterSignLast(t: string)
    requires AfterSign(t) != []
    ensures AfterSign(t)[|AfterSign(t)| - 1] == t[|t| - 1]
  {
  }

  /** A non-empty suffix ends with the same character as the whole. */
  lemma LastOfSuffix(s: string, u: string)
    requires u != [] && |u| <= |s| && u == s[|s| - |u|..]
    ensures u[|u| - 1] == s[|s| - 1]
  {
  }

  /** Parsing stops at the first non-digit: whatever follows it is irrelevant. */
  lemma ParseIntIgnoresTail(s: string, tail: string)
    requires s != [] && !IsDigit(s[|s| - 1]) && ParseInt(s) != None
    ensures ParseInt(s + tail) == ParseInt(s)
  {
    var t := SkipWhitespace(s);
    ParseTrimmedDigits(t, LeadingDigits(AfterSign(t)));
    assert t != [];
    SkipWhitespaceAppend(s, tail);
    DigitsEndInside(s);
    ParseTrimmedIgnoresTail(t, tail);
  }
}
