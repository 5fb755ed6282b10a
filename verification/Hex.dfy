/** Hexadecimal text, as the client writes and reads it. */
module Hex {
  import opened Arith
  import opened Sequences

  const DIGITS: string := "0123456789abcdef"

  /** A big integer's lower-case hexadecimal digits, without leading zeros. */
  function ToHex(n: nat): (s: string)
    ensures |s| > 0
  {
    if n < 16 then [DIGITS[n]] else ToHex(n / 16) + [DIGITS[n % 16]]
  }

  function PadStart(s: string, width: nat, c: char): string {
    if |s| >= width then s else seq(width - |s|, _ => c) + s
  }

  function Fixed(n: nat, width: nat): string { PadStart(ToHex(n), width, '0') }

  predicate IsHexDigit(c: char) { '0' <= c <= '9' || 'a' <= c <= 'f' }

  /** One or more lower-case hexadecimal digits and nothing else. */
  predicate AllHex(s: string) {
    s != "" && forall i :: 0 <= i < |s| ==> IsHexDigit(s[i])
  }

  function DigitValue(c: char): nat
    requires IsHexDigit(c)
  {
    if c <= '9' then (c as int) - ('0' as int) else (c as int) - ('a' as int) + 10
  }

  /** The number written by the first `n` hexadecimal digits. */
  function FromHexUpTo(s: string, n: nat): nat
    requires n <= |s| && forall i :: 0 <= i < |s| ==> IsHexDigit(s[i])
  {
    if n == 0 then 0 else 16 * FromHexUpTo(s, n - 1) + DigitValue(s[n - 1])
  }

  function FromHex(s: string): nat
    requires forall i :: 0 <= i < |s| ==> IsHexDigit(s[i])
  {
    FromHexUpTo(s, |s|)
  }

  lemma {:induction false} FromHexLocal(s: string, init: string, n: nat)
    requires n <= |init| <= |s| && init == s[..|init|] && forall i :: 0 <= i < |s| ==> IsHexDigit(s[i])
    ensures FromHexUpTo(s, n) == FromHexUpTo(init, n)
  {
    if n > 0 { FromHexLocal(s, init, n - 1); }
  }

  function Pow16(w: nat): (p: nat)
    ensures p >= 1
  {
    if w == 0 then 1 else 16 * Pow16(w - 1)
  }

  /** Exactly `w` digits, high zeros included. */
  function Digits(n: nat, w: nat): (s: string)
    ensures |s| == w
  {
    if w == 0 then "" else Digits(n / 16, w - 1) + [DIGITS[n % 16]]
  }

  lemma DigitRoundTrip(d: nat, c: char)
    requires d < 16
    ensures IsHexDigit(DIGITS[d]) && DigitValue(DIGITS[d]) == d
    ensures IsHexDigit(c) ==> DigitValue(c) < 16 && DIGITS[DigitValue(c)] == c
  {}

  lemma {:induction false} ZeroDigits(w: nat)
    ensures Digits(0, w) == seq(w, _ => '0')
  {
    if w > 0 {
      ZeroDigits(w - 1);
    }
  }

  lemma {:induction false} PaddingGivesDigits(n: nat, w: nat)
    requires w > 0 && n < Pow16(w)
    ensures Fixed(n, w) == Digits(n, w)
  {
    if n < 16 {
      ZeroDigits(w - 1);
      assert n / 16 == 0;
    } else {
      assert w > 1;
      PaddingGivesDigits(n / 16, w - 1);
      var high, last := ToHex(n / 16), [DIGITS[n % 16]];
      assert |PadStart(high, w - 1, '0')| == w - 1;
      assert PadStart(high + last, w, '0') == PadStart(high, w - 1, '0') + last;
    }
  }

  /** One more digit multiplies by sixteen and adds it. */
  lemma HexOfSnoc(init: string, c: char)
    requires IsHexDigit(c) && forall i :: 0 <= i < |init| ==> IsHexDigit(init[i])
    ensures forall i :: 0 <= i < |init + [c]| ==> IsHexDigit((init + [c])[i])
    ensures FromHex(init + [c]) == 16 * FromHex(init) + DigitValue(c)
  {
    FromHexLocal(init + [c], init, |init|);
  }

  lemma {:induction false} DigitsRoundTrip(n: nat, w: nat)
    requires n < Pow16(w)
    ensures forall i :: 0 <= i < w ==> IsHexDigit(Digits(n, w)[i])
    ensures FromHex(Digits(n, w)) == n
  {
    if w > 0 {
      DigitsRoundTrip(n / 16, w - 1);
      DigitRoundTrip(n % 16, '0');
      HexOfSnoc(Digits(n / 16, w - 1), DIGITS[n % 16]);
    }
  }

  lemma LastDigit(q: nat, d: nat)
    requires d < 16
    ensures (16 * q + d) / 16 == q && (16 * q + d) % 16 == d
  {}

  lemma AppendDigit(v: nat, q: nat, c: char, w: nat)
    requires IsHexDigit(c) && v == 16 * q + DigitValue(c)
    ensures Digits(v, w + 1) == Digits(q, w) + [c]
  {
    DigitRoundTrip(0, c);
    LastDigit(q, DigitValue(c));
  }

  lemma {:induction false} ValueFits(s: string, n: nat)
    requires n <= |s| && forall i :: 0 <= i < |s| ==> IsHexDigit(s[i])
    ensures FromHexUpTo(s, n) < Pow16(n)
  {
    if n > 0 {
      ValueFits(s, n - 1);
      DigitRoundTrip(0, s[n - 1]);
    }
  }

  lemma {:induction false} DigitsAreText(s: string, n: nat)
    requires n <= |s| && forall i :: 0 <= i < |s| ==> IsHexDigit(s[i])
    ensures Digits(FromHexUpTo(s, n), n) == s[..n]
  {
    if n > 0 {
      DigitsAreText(s, n - 1);
      AppendDigit(FromHexUpTo(s, n), FromHexUpTo(s, n - 1), s[n - 1], n - 1);
      TakeOneMore(s, n - 1);
    }
  }

  lemma ValueRoundTrip(s: string)
    requires forall i :: 0 <= i < |s| ==> IsHexDigit(s[i])
    ensures FromHex(s) < Pow16(|s|) && Digits(FromHex(s), |s|) == s
  {
    ValueFits(s, |s|);
    DigitsAreText(s, |s|);
    assert s[..|s|] == s;
  }

  /** Fixed-width text determines the number and the number determines the text. */
  lemma FixedIsBijective(n: nat, s: string, w: nat)
    requires w > 0
    ensures n < Pow16(w) ==> |Fixed(n, w)| == w && AllHex(Fixed(n, w)) && FromHex(Fixed(n, w)) == n
    ensures |s| == w && AllHex(s) ==> FromHex(s) < Pow16(w) && Fixed(FromHex(s), w) == s
  {
    if n < Pow16(w) {
      PaddingGivesDigits(n, w);
      DigitsRoundTrip(n, w);
    }
    if |s| == w && AllHex(s) {
      ValueRoundTrip(s);
      PaddingGivesDigits(FromHex(s), w);
    }
  }

  lemma {:induction false} Pow16Sum(a: nat, b: nat)
    ensures Pow16(a + b) == Pow16(a) * Pow16(b)
  {
    if a > 0 {
      Pow16Sum(a - 1, b);
      Reassociate(16, Pow16(a - 1), Pow16(b));
    }
  }

  lemma Pow16Values()
    ensures Pow16(16) == 0x1_0000_0000_0000_0000
    ensures Pow16(64) == 0x1_0000000000000000000000000000000000000000000000000000000000000000
  {
    assert Pow16(4) == 0x1_0000;
    Pow16Sum(4, 4);
    Pow16Sum(8, 8);
    Pow16Sum(16, 16);
    Pow16Sum(32, 32);
  }
}
