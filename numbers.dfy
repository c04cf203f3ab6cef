/**
 * Decimal text: the digits of a natural number (as `str(n)` and the
 * zero-padded `%Y`/`%m`/`%d` fields print them) and the finite decimal
 * notation accepted by Python's `float(text)`.
 */
module Numbers {
  import opened Wrappers
  import opened Text

  predicate IsDigit(c: char) {
    '0' <= c <= '9'
  }

  predicate AllDigits(s: string) {
    forall i :: 0 <= i < |s| ==> IsDigit(s[i])
  }

  predicate NoDigits(s: string) {
    forall i :: 0 <= i < |s| ==> !IsDigit(s[i])
  }

  function Pow10(n: nat): (r: nat)
    ensures r >= 1
  {
    if n == 0 then 1 else 10 * Pow10(n - 1)
  }

  /** The value of a run of decimal digits, most significant first. */
  function DigitsValue(ds: string): (r: nat)
    requires AllDigits(ds)
    ensures r < Pow10(|ds|)
  {
    if ds == [] then 0
    else
      var v := DigitsValue(ds[..|ds| - 1]);
      var d := ds[|ds| - 1] as int - '0' as int;
      assert v * 10 <= (Pow10(|ds| - 1) - 1) * 10;
      v * 10 + d
  }

  /** The character of a digit value. */
  function Digit(d: nat): (c: char)
    requires d < 10
    ensures IsDigit(c) && c as int - '0' as int == d
  {
    ('0' as int + d) as char
  }

  /** Python's `str(n)` for a natural number. */
  function NatText(n: nat): (s: string)
    ensures s != [] && AllDigits(s)
  {
    if n < 10 then [Digit(n)] else NatText(n / 10) + [Digit(n % 10)]
  }

  /** `NatText` is read back by `DigitsValue`. */
  lemma {:induction false} NatTextValue(n: nat)
    ensures DigitsValue(NatText(n)) == n
  {
    if n >= 10 {
      NatTextValue(n / 10);
      var s := NatText(n);
      assert s[..|s| - 1] == NatText(n / 10);
    } else {
      assert NatText(n)[..0] == [];
    }
  }

  /** A number below 10^k needs at most k digits. */
  lemma {:induction false} NatTextLength(n: nat, k: nat)
    requires k >= 1 && n < Pow10(k)
    ensures |NatText(n)| <= k
  {
    if n >= 10 {
      assert Pow10(1) == 10;
      NatTextLength(n / 10, k - 1);
    }
  }

  lemma ShiftDigit(A: int, P: int, B: int, d: int)
    ensures (A * P + B) * 10 + d == A * (P * 10) + (B * 10 + d)
  {
  }

  /** One more digit at the end: ten times the value, plus that digit. */
  lemma DigitsSnoc(x: string, c: char)
    requires AllDigits(x + [c])
    ensures AllDigits(x) && DigitsValue(x + [c]) == DigitsValue(x) * 10 + (c as int - '0' as int)
  {
    var xc := x + [c];
    assert xc[..|xc| - 1] == x && xc[|xc| - 1] == c;
  }

  /** The value of two digit runs written one after the other. */
  lemma {:induction false} DigitsValueAppend(a: string, b: string)
    requires AllDigits(a) && AllDigits(b)
    ensures DigitsValue(a + b) == DigitsValue(a) * Pow10(|b|) + DigitsValue(b)
  {
    if b == [] {
      assert a + b == a;
    } else {
      var b', c := b[..|b| - 1], b[|b| - 1];
      assert b == b' + [c];
      assert a + b == (a + b') + [c];
      DigitsSnoc(a + b', c);
      DigitsSnoc(b', c);
      DigitsValueAppend(a, b');
      var A, P, B, d := DigitsValue(a), Pow10(|b'|), DigitsValue(b'), c as int - '0' as int;
      assert Pow10(|b|) == P * 10;
      ShiftDigit(A, P, B, d);
    }
  }

  function Zeros(n: nat): (s: string)
    ensures |s| == n && AllDigits(s)
  {
    if n == 0 then [] else Zeros(n - 1) + ['0']
  }

  lemma {:induction false} ZerosValue(n: nat)
    ensures DigitsValue(Zeros(n)) == 0
  {
    if n > 0 {
      ZerosValue(n - 1);
      assert Zeros(n)[..n - 1] == Zeros(n - 1);
    }
  }

  /** `n` printed with at least `width` digits, zeros in front (`f"{n:0{width}d}"`). */
  function ZeroPad(n: nat, width: nat): (s: string)
    ensures AllDigits(s)
  {
    var t := NatText(n);
    if |t| >= width then t else Zeros(width - |t|) + t
  }

  /** Leading digits worth zero do not change the value. */
  lemma ZeroLead(z: string, t: string)
    requires AllDigits(z) && AllDigits(t) && DigitsValue(z) == 0
    ensures DigitsValue(z + t) == DigitsValue(t)
  {
    DigitsValueAppend(z, t);
  }

  /** A number that fits in `width` digits pads to exactly `width` digits of the same value. */
  lemma ZeroPadExact(n: nat, width: nat)
    requires width >= 1 && n < Pow10(width)
    ensures |ZeroPad(n, width)| == width
    ensures DigitsValue(ZeroPad(n, width)) == n
  {
    var t := NatText(n);
    NatTextLength(n, width);
    NatTextValue(n);
    if |t| < width {
      var z := Zeros(width - |t|);
      assert ZeroPad(n, width) == z + t;
      ZerosValue(width - |t|);
      ZeroLead(z, t);
    } else {
      assert ZeroPad(n, width) == t;
    }
  }

  /** 10^e as a real, for a signed decimal exponent. */
  function Scale(e: int): (r: real)
    ensures r > 0.0
  {
    if e >= 0 then Pow10(e) as real else 1.0 / Pow10(-e) as real
  }

  /** `[+-]digits`, the exponent after `e`/`E`. */
  function ParseExponent(x: string): Option<int> {
    var neg := x != [] && x[0] == '-';
    var ds := if x != [] && (x[0] == '+' || x[0] == '-') then x[1..] else x;
    if ds != [] && AllDigits(ds) then
      Some(if neg then -(DigitsValue(ds) as int) else DigitsValue(ds))
    else None
  }

  /** `digits[.digits]` with at least one digit on some side of the point. */
  function ParseMantissa(m: string): Option<real> {
    var dot := Find(m, ".");
    var intPart := if dot == -1 then m else m[..dot];
    var fracPart := if dot == -1 then [] else m[dot + 1..];
    if AllDigits(intPart) && AllDigits(fracPart) && |intPart| + |fracPart| > 0 then
      Some(DigitsValue(intPart + fracPart) as real / Pow10(|fracPart|) as real)
    else None
  }

  /** Index of the first `e` or `E`, or the length when there is none. */
  function ExponentMark(t: string): (i: nat)
    ensures i <= |t|
    ensures forall j :: 0 <= j < i ==> t[j] != 'e' && t[j] != 'E'
    ensures i < |t| ==> t[i] == 'e' || t[i] == 'E'
  {
    if t == [] then 0
    else if t[0] == 'e' || t[0] == 'E' then 0
    else 1 + ExponentMark(t[1..])
  }

  function ParseUnsigned(t: string): Option<real> {
    var e := ExponentMark(t);
    match ParseMantissa(t[..e])
    case None => None
    case Some(m) =>
      if e == |t| then Some(m)
      else
        match ParseExponent(t[e + 1..])
        case None => None
        case Some(x) => Some(m * Scale(x))
  }

  /**
   * Python's `float(text)` on finite decimal notation: surrounding
   * whitespace, an optional sign, digits with an optional point, an
   * optional exponent. The value is the exact decimal, not a binary float.
   * A plain run of digits, leading zeros allowed, reads as its decimal
   * value; a text without a single digit (`"N/A"`, say) is no number.
   */
  function ParseFloat(text: string): (r: Option<real>)
    ensures Strip(text) != [] && AllDigits(Strip(text)) ==> r == Some(DigitsValue(Strip(text)) as real)
    ensures NoDigits(text) ==> r == None
  {
    var t := Strip(text);
    assert t != [] && AllDigits(t) ==> ParseSigned(t) == Some(DigitsValue(t) as real) by {
      if t != [] && AllDigits(t) {
        SignedDigits(t);
      }
    }
    assert NoDigits(text) ==> ParseSigned(t) == None by {
      if NoDigits(text) {
        NoDigitsStrip(text);
        SignedNoDigits(t);
      }
    }
    ParseSigned(t)
  }

  /** An optional sign, then the unsigned number. */
  function ParseSigned(t: string): Option<real> {
    if t != [] && (t[0] == '+' || t[0] == '-') then
      match ParseUnsigned(t[1..])
      case None => None
      case Some(v) => Some(if t[0] == '-' then -v else v)
    else ParseUnsigned(t)
  }

  lemma SignedDigits(t: string)
    requires t != [] && AllDigits(t)
    ensures ParseSigned(t) == Some(DigitsValue(t) as real)
  {
    assert IsDigit(t[0]);
    DigitsOnlyUnsigned(t);
  }

  lemma SignedNoDigits(t: string)
    requires NoDigits(t)
    ensures ParseSigned(t) == None
  {
    NoDigitsUnsigned(t);
    if t != [] {
      NoDigitsSlice(t, 1, |t|);
      assert t[1..] == t[1..|t|];
      NoDigitsUnsigned(t[1..]);
    }
  }

  lemma DigitsOnlyStripped(s: string)
    requires s != [] && AllDigits(s)
    ensures Strip(s) == s
  {
    assert IsDigit(s[0]) && IsDigit(s[|s| - 1]);
    assert AllSpace([]);
    StripSurrounded([], s, []);
    assert [] + s + [] == s;
  }

  lemma DigitsHaveNoPoint(s: string)
    requires AllDigits(s)
    ensures Find(s, ".") == -1
  {
    forall i | 0 <= i <= |s| ensures !OccursAt(s, ".", i) {
      if i < |s| {
        assert s[i..i + 1][0] == s[i];
        assert s[i] != '.';
      }
    }
  }

  lemma DigitsOnlyMantissa(s: string)
    requires AllDigits(s) && s != []
    ensures ParseMantissa(s) == Some(DigitsValue(s) as real)
  {
    DigitsHaveNoPoint(s);
    assert s + [] == s;
    NoFraction(DigitsValue(s));
  }

  /** A value with no digits after the point is divided by 10^0. */
  lemma NoFraction(v: nat)
    ensures v as real / Pow10(0) as real == v as real
  {
    assert Pow10(0) == 1;
  }

  lemma DigitsOnlyUnsigned(s: string)
    requires AllDigits(s) && s != []
    ensures ParseUnsigned(s) == Some(DigitsValue(s) as real)
  {
    var e := ExponentMark(s);
    assert forall j :: 0 <= j < |s| ==> s[j] != 'e' && s[j] != 'E';
    assert s[..|s|] == s;
    DigitsOnlyMantissa(s);
  }

  /** `float(str(n)) == n`. */
  lemma ParseFloatNatText(n: nat)
    ensures ParseFloat(NatText(n)) == Some(n as real)
  {
    DigitsOnlyStripped(NatText(n));
    NatTextValue(n);
  }

  lemma NoDigitsSlice(s: string, a: nat, b: nat)
    requires NoDigits(s) && a <= b <= |s|
    ensures NoDigits(s[a..b])
  {
    forall i | 0 <= i < b - a ensures !IsDigit(s[a..b][i]) {
      assert s[a..b][i] == s[a + i];
    }
  }

  lemma NoDigitsMantissa(m: string)
    requires NoDigits(m)
    ensures ParseMantissa(m) == None
  {
    var dot := Find(m, ".");
    if dot != -1 {
      NoDigitsSlice(m, 0, dot);
      NoDigitsSlice(m, dot + 1, |m|);
      assert m[..dot] == m[0..dot];
      assert m[dot + 1..] == m[dot + 1..|m|];
      var i, f := m[..dot], m[dot + 1..];
      if |i| > 0 { assert !IsDigit(i[0]); }
      if |f| > 0 { assert !IsDigit(f[0]); }
    } else if |m| > 0 {
      assert !IsDigit(m[0]);
    }
  }

  lemma NoDigitsUnsigned(t: string)
    requires NoDigits(t)
    ensures ParseUnsigned(t) == None
  {
    var e := ExponentMark(t);
    NoDigitsSlice(t, 0, e);
    assert t[..e] == t[0..e];
    NoDigitsMantissa(t[..e]);
  }

  /** Stripping brings in no digit. */
  lemma NoDigitsStrip(s: string)
    requires NoDigits(s)
    ensures NoDigits(Strip(s))
  {
    var t := Strip(s);
    forall i | 0 <= i < |t| ensures !IsDigit(t[i]) {
      StripKeepsCharacters(s, t[i]);
    }
  }

}
