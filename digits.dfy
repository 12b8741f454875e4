/** Positional numerals in base 10 and base 16: the digit classes the collector
    accepts, the value of a digit string (what `parseInt(raw, 16)` computes for a
    validated hex string) and the canonical rendering of a natural (what
    `${value}` prints for a metric value, and `"0x" + hex` for round trips). */
module Digits {

  /** A character of the class `[0-9a-fA-F]`. */
  predicate IsHexDigit(c: char) {
    ('0' <= c <= '9') || ('a' <= c <= 'f') || ('A' <= c <= 'F')
  }

  /** The value of a hex digit; upper and lower case letters mean the same. */
  function HexDigitValue(c: char): (d: nat)
    requires IsHexDigit(c)
    ensures d < 16
    ensures ('0' <= c <= '9') <==> d < 10
  {
    if '0' <= c <= '9' then c as int - '0' as int
    else if 'a' <= c <= 'f' then c as int - 'a' as int + 10
    else c as int - 'A' as int + 10
  }

  /** A digit of base `base` (2 to 16); for base 10 these are exactly `0`-`9`. */
  predicate IsDigit(c: char, base: nat) {
    IsHexDigit(c) && HexDigitValue(c) < base
  }

  predicate AllDigits(s: string, base: nat) {
    forall i | 0 <= i < |s| :: IsDigit(s[i], base)
  }

  /** The lower-case digit character for `d`. */
  function DigitChar(d: nat): (c: char)
    requires d < 16
    ensures IsHexDigit(c) && HexDigitValue(c) == d
    ensures !('A' <= c <= 'F')
  {
    if d < 10 then ('0' as int + d) as char else ('a' as int + d - 10) as char
  }

  /** The value of a digit string, most significant digit first. */
  function Parse(s: string, base: nat): nat
    requires AllDigits(s, base)
    decreases |s|
  {
    if s == [] then 0
    else Parse(s[..|s| - 1], base) * base + HexDigitValue(s[|s| - 1])
  }

  /** The canonical numeral of `n`: lower-case digits, no leading zero. */
  function Render(n: nat, base: nat): (s: string)
    requires 2 <= base <= 16
    ensures |s| > 0 && AllDigits(s, base)
    ensures s[0] == '0' ==> n == 0
    ensures forall i | 0 <= i < |s| :: !('A' <= s[i] <= 'F')
    decreases n
  {
    if n < base then [DigitChar(n)]
    else
      DivMod(n, base);
      Render(n / base, base) + [DigitChar(n % base)]
  }

  /** Euclidean division by a base, as the solver needs it spelled out. */
  lemma DivMod(n: nat, base: nat)
    requires 2 <= base <= n
    ensures 0 < n / base < n && n % base < base
    ensures n == n / base * base + n % base
  {
    var q, r := n / base, n % base;
    assert n == q * base + r;
    assert q >= 1;
    assert q < n by {
      assert q * base >= q * 2;
    }
  }

  /** Plain decimal, as a JavaScript number below 1e21 prints. */
  function Decimal(n: nat): (s: string)
    ensures |s| > 0 && AllDigits(s, 10)
  {
    Render(n, 10)
  }

  /** Lower-case hexadecimal. */
  function Hex(n: nat): (s: string)
    ensures |s| > 0 && AllDigits(s, 16)
  {
    Render(n, 16)
  }

  /** Reading back a rendered numeral gives the number. */
  lemma {:induction false} ParseRender(n: nat, base: nat)
    requires 2 <= base <= 16
    ensures Parse(Render(n, base), base) == n
  {
    var s := Render(n, base);
    if n < base {
      assert s[..|s| - 1] == [];
    } else {
      DivMod(n, base);
      assert s[..|s| - 1] == Render(n / base, base);
      ParseRender(n / base, base);
      assert HexDigitValue(s[|s| - 1]) == n % base;
    }
  }

  /** No two naturals render alike. */
  lemma RenderInjective(m: nat, n: nat, base: nat)
    requires 2 <= base <= 16
    requires Render(m, base) == Render(n, base)
    ensures m == n
  {
    ParseRender(m, base);
    ParseRender(n, base);
  }

  /** A numeral's value is fixed by its digits' values, so the case of the
      letters does not matter. */
  lemma {:induction false} ParseDigitwise(s: string, t: string, base: nat)
    requires AllDigits(s, base) && AllDigits(t, base) && |s| == |t|
    requires forall i | 0 <= i < |s| :: HexDigitValue(s[i]) == HexDigitValue(t[i])
    ensures Parse(s, base) == Parse(t, base)
  {
    if s != [] {
      ParseDigitwise(s[..|s| - 1], t[..|t| - 1], base);
    }
  }

  /** Leading zeros do not change a numeral's value. */
  lemma {:induction false} ParseLeadingZero(s: string, base: nat)
    requires 2 <= base && AllDigits(s, base)
    ensures AllDigits("0" + s, base)
    ensures Parse("0" + s, base) == Parse(s, base)
  {
    var z := "0" + s;
    assert AllDigits(z, base) by {
      forall i | 0 <= i < |z| ensures IsDigit(z[i], base) {
        if i > 0 { assert z[i] == s[i - 1]; }
      }
    }
    if s != [] {
      assert z[..|z| - 1] == "0" + s[..|s| - 1];
      ParseLeadingZero(s[..|s| - 1], base);
    }
  }
}
