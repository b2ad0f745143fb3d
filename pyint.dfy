/**
 * Python's `int(s, base=0)` on the literals the manifest format uses,
 * and the two ways the writer prints integers: `str(n)` and `"%06o" % n`.
 */
module PyInt {
  import opened Wrappers
  import opened PyStr

  /** The value of a digit character, as `int` reads it in bases up to 36. */
  function DigitValue(c: char): Option<nat> {
    if '0' <= c <= '9' then Some(c as int - '0' as int)
    else if 'a' <= c <= 'z' then Some(c as int - 'a' as int + 10)
    else if 'A' <= c <= 'Z' then Some(c as int - 'A' as int + 10)
    else None
  }

  predicate IsDigitIn(c: char, base: nat) {
    DigitValue(c).Some? && DigitValue(c).value < base
  }

  predicate AllDigits(s: string, base: nat) {
    forall i :: 0 <= i < |s| ==> IsDigitIn(s[i], base)
  }

  /** The number a string of digits denotes, most significant digit first. */
  function DigitsValue(s: string, base: nat): nat
    requires AllDigits(s, base)
  {
    if s == [] then 0 else DigitsValue(s[..|s| - 1], base) * base + DigitValue(s[|s| - 1]).value
  }

  /** A non-empty run of digits of `base`, and its value. */
  function ParseDigits(s: string, base: nat): Option<nat> {
    if s != [] && AllDigits(s, base) then Some(DigitsValue(s, base)) else None
  }

  /** Whether `s` starts with `0` followed by the prefix letter `p` in either case. */
  predicate HasPrefix(s: string, p: char) {
    |s| >= 2 && s[0] == '0' && LowerChar(s[1]) == p
  }

  /**
   * An unsigned literal as `int(s, 0)` reads it: `0x`, `0o` or `0b` and
   * digits of that base, or a decimal number without leading zeros
   * (a run of zeros alone is allowed).
   */
  function ParseUnsigned(s: string): Option<nat> {
    if HasPrefix(s, 'x') then ParseDigits(s[2..], 16)
    else if HasPrefix(s, 'o') then ParseDigits(s[2..], 8)
    else if HasPrefix(s, 'b') then ParseDigits(s[2..], 2)
    else if s != [] && AllDigits(s, 10) && (s[0] != '0' || DigitsValue(s, 10) == 0) then
      Some(DigitsValue(s, 10))
    else None
  }

  /** `int(s, base=0)`: surrounding whitespace, an optional sign, an unsigned literal. */
  function ParseIntLiteral(s: string): (r: Option<int>)
    ensures r.Some? && r.value < 0 ==> Strip(s) != [] && Strip(s)[0] == '-'
  {
    var t := Strip(s);
    if t != [] && (t[0] == '-' || t[0] == '+') then
      match ParseUnsigned(t[1..])
      case None => None
      case Some(n) =>
        var v: int := if t[0] == '-' then -(n as int) else n;
        Some(v)
    else
      match ParseUnsigned(t)
      case None => None
      case Some(n) => Some(n)
  }

  const HexDigits: string := "0123456789abcdef"

  lemma HexDigitValue(k: nat)
    requires k < 16
    ensures DigitValue(HexDigits[k]) == Some(k)
  {
    if k < 10 {
      assert HexDigits[k] as int == '0' as int + k;
    } else {
      assert HexDigits[k] as int == 'a' as int + k - 10;
    }
  }

  /** The digits of `n` in `base`, most significant first: `str(n)` in base 10, `"%o" % n` in base 8. */
  function ToDigits(n: nat, base: nat): (r: string)
    requires 2 <= base <= 16
    ensures r != [] && AllDigits(r, base) && DigitsValue(r, base) == n
    ensures r[0] == '0' <==> n == 0
    ensures n == 0 ==> r == "0"
    decreases n
  {
    if n < base then
      HexDigitValue(n);
      [HexDigits[n]]
    else
      var q, d := n / base, n % base;
      DivMod(n, base);
      var high := ToDigits(q, base);
      AppendDigit(high, d, base);
      var r := high + [HexDigits[d]];
      assert r[0] == high[0];
      r
  }

  lemma DivMod(n: nat, base: nat)
    requires 2 <= base <= n
    ensures 1 <= n / base < n && n % base < base
    ensures (n / base) * base + n % base == n
  {
  }

  lemma AppendDigit(high: string, d: nat, base: nat)
    requires 2 <= base <= 16 && d < base && AllDigits(high, base)
    ensures AllDigits(high + [HexDigits[d]], base)
    ensures DigitsValue(high + [HexDigits[d]], base) == DigitsValue(high, base) * base + d
  {
    HexDigitValue(d);
    var r := high + [HexDigits[d]];
    assert r[..|r| - 1] == high;
  }

  /** Leading zeros do not change the value of a digit string. */
  lemma {:induction false} LeadingZeros(z: nat, s: string, base: nat)
    requires 2 <= base <= 16 && AllDigits(s, base)
    ensures AllDigits(Repeat("0", z) + s, base)
    ensures DigitsValue(Repeat("0", z) + s, base) == DigitsValue(s, base)
    decreases |s|
  {
    var zs := Repeat("0", z);
    RepeatChar('0', z);
    assert forall i :: 0 <= i < |zs + s| ==> IsDigitIn((zs + s)[i], base) by {
      forall i | 0 <= i < |zs + s| ensures IsDigitIn((zs + s)[i], base) {
        if i >= |zs| {
          assert (zs + s)[i] == s[i - |zs|];
        }
      }
    }
    if s == [] {
      assert zs + s == zs;
      ZerosValue(zs, base);
    } else {
      var t := zs + s;
      assert t[..|t| - 1] == zs + s[..|s| - 1];
      LeadingZeros(z, s[..|s| - 1], base);
    }
  }

  lemma {:induction false} ZerosValue(zs: string, base: nat)
    requires 2 <= base && AllDigits(zs, base)
    requires forall i :: 0 <= i < |zs| ==> zs[i] == '0'
    ensures DigitsValue(zs, base) == 0
  {
    if zs != [] {
      ZerosValue(zs[..|zs| - 1], base);
    }
  }

  /** `str(n)`. */
  function Decimal(n: nat): string {
    ToDigits(n, 10)
  }

  /** `"%0*o" % (width, n)`: octal digits, zero-padded to at least `width`. */
  function ZeroPadded(digits: string, width: nat): string {
    if |digits| < width then Repeat("0", width - |digits|) + digits else digits
  }

  /** `"0o%06o" % n`, the writer's form of a `mode`. */
  function ModeText(n: nat): string {
    "0o" + ZeroPadded(ToDigits(n, 8), 6)
  }

  /** A digit string has no whitespace, so `strip` leaves it alone. */
  lemma DigitsTrimmed(s: string, base: nat)
    requires AllDigits(s, base)
    ensures Trimmed(s) && Strip(s) == s
  {
    if s != [] {
      assert IsDigitIn(s[0], base) && IsDigitIn(s[|s| - 1], base);
    }
  }

  /** `int(str(n), 0) == n`. */
  lemma DecimalRoundTrip(n: nat)
    ensures ParseIntLiteral(Decimal(n)) == Some(n)
  {
    var d := Decimal(n);
    DigitsTrimmed(d, 10);
    assert IsDigitIn(d[0], 10);
    assert d[0] == '0' ==> d == "0";
    assert !HasPrefix(d, 'x') && !HasPrefix(d, 'o') && !HasPrefix(d, 'b');
  }

  /** `int("0o%06o" % n, 0) == n`. */
  lemma ModeRoundTrip(n: nat)
    ensures ParseIntLiteral(ModeText(n)) == Some(n)
  {
    PaddedValue(n);
    OctalLiteral(ZeroPadded(ToDigits(n, 8), 6));
  }

  /** `int("0o" + digits, 0)` is the value of the octal digits. */
  lemma OctalLiteral(padded: string)
    requires padded != [] && AllDigits(padded, 8)
    ensures ParseIntLiteral("0o" + padded) == Some(DigitsValue(padded, 8))
  {
    var t := "0o" + padded;
    assert t[0] == '0' && t[1] == 'o' && t[2..] == padded;
    assert Trimmed(t) by {
      assert t[|t| - 1] == padded[|padded| - 1];
      assert IsDigitIn(padded[|padded| - 1], 8);
    }
    assert Strip(t) == t;
    assert HasPrefix(t, 'o') && !HasPrefix(t, 'x');
    assert ParseUnsigned(t) == ParseDigits(padded, 8);
  }

  lemma PaddedValue(n: nat)
    ensures ZeroPadded(ToDigits(n, 8), 6) != []
    ensures AllDigits(ZeroPadded(ToDigits(n, 8), 6), 8)
    ensures DigitsValue(ZeroPadded(ToDigits(n, 8), 6), 8) == n
  {
    ZeroPaddedValue(ToDigits(n, 8), 6, 8);
  }

  /** Zero padding keeps a digit string's value. */
  lemma ZeroPaddedValue(digits: string, width: nat, base: nat)
    requires 2 <= base <= 16 && digits != [] && AllDigits(digits, base)
    ensures ZeroPadded(digits, width) != [] && AllDigits(ZeroPadded(digits, width), base)
    ensures DigitsValue(ZeroPadded(digits, width), base) == DigitsValue(digits, base)
  {
    if |digits| < width {
      var zs := Repeat("0", width - |digits|);
      LeadingZeros(width - |digits|, digits, base);
      assert |zs + digits| == |zs| + |digits|;
    }
  }
}
