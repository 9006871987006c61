/** Decimal rendering and parsing, zero padding, ASCII lower-casing and
    substring search: the pieces of Go's fmt and strings packages the
    core relies on, written out over `seq<char>`. */
module Text {

  predicate IsDigit(c: char) {
    '0' <= c <= '9'
  }

  predicate AllDigits(s: string) {
    forall i :: 0 <= i < |s| ==> IsDigit(s[i])
  }

  function DigitValue(c: char): (d: nat)
    requires IsDigit(c)
    ensures d < 10 && (48 + d) as char == c
  {
    (c as int) - 48
  }

  function DigitChar(d: nat): (c: char)
    requires d < 10
    ensures IsDigit(c) && DigitValue(c) == d
  {
    (48 + d) as char
  }

  function Pow10(k: nat): (p: nat)
    ensures p >= 1
  {
    if k == 0 then 1 else 10 * Pow10(k - 1)
  }

  /** The decimal numeral of `n` with no leading zeros (Go's `%d`). */
  function Digits(n: nat): (s: string)
    ensures 1 <= |s| && AllDigits(s)
    decreases n
  {
    if n < 10 then [DigitChar(n)] else Digits(n / 10) + [DigitChar(n % 10)]
  }

  /** The value of a decimal numeral; leading zeros are allowed. */
  function ParseDigits(s: string): nat
    requires AllDigits(s)
    decreases |s|
  {
    if |s| == 0 then 0 else ParseDigits(s[..|s| - 1]) * 10 + DigitValue(s[|s| - 1])
  }

  function Zeros(k: nat): (z: string)
    ensures |z| == k && AllDigits(z)
  {
    seq(k, _ => '0')
  }

  /** Left-pad `s` with '0' up to width `w`; a longer `s` is kept whole. */
  function ZeroPad(s: string, w: nat): string {
    if |s| >= w then s else Zeros(w - |s|) + s
  }

  /** Go's fmt verb `%0wd`: the width counts the sign, zeros go after it. */
  function FmtZeroPad(x: int, w: nat): string {
    if x < 0 then "-" + ZeroPad(Digits(-x), if w > 0 then w - 1 else 0)
    else ZeroPad(Digits(x), w)
  }

  /** Reading the numeral back gives the number: `Digits` is injective. */
  lemma {:induction false} ParseDigitsOfDigits(n: nat)
    ensures ParseDigits(Digits(n)) == n
    decreases n
  {
    var s := Digits(n);
    if n < 10 {
      assert s[..|s| - 1] == [];
    } else {
      assert s[..|s| - 1] == Digits(n / 10);
      ParseDigitsOfDigits(n / 10);
    }
  }

  lemma {:induction false} ZerosParseToZero(k: nat)
    ensures ParseDigits(Zeros(k)) == 0
    decreases k
  {
    if k > 0 {
      assert Zeros(k)[..k - 1] == Zeros(k - 1);
      ZerosParseToZero(k - 1);
    }
  }

  /** Leading zeros do not change the value of a numeral. */
  lemma {:induction false} LeadingZerosIgnored(k: nat, s: string)
    requires AllDigits(s)
    ensures AllDigits(Zeros(k) + s)
    ensures ParseDigits(Zeros(k) + s) == ParseDigits(s)
    decreases |s|
  {
    var t := Zeros(k) + s;
    if |s| == 0 {
      assert t == Zeros(k);
      ZerosParseToZero(k);
    } else {
      assert t[..|t| - 1] == Zeros(k) + s[..|s| - 1];
      LeadingZerosIgnored(k, s[..|s| - 1]);
    }
  }

  /** A numeral below 10^k has at most k digits. */
  lemma {:induction false} DigitsLength(n: nat, k: nat)
    requires 1 <= k && n < Pow10(k)
    ensures |Digits(n)| <= k
    decreases n
  {
    assert Pow10(1) == 10;
    if n >= 10 {
      assert n / 10 < Pow10(k - 1);
      DigitsLength(n / 10, k - 1);
    }
  }

  /** A number of 10^k or more has more than k digits. */
  lemma {:induction false} DigitsLengthAtLeast(n: nat, k: nat)
    requires n >= Pow10(k)
    ensures |Digits(n)| > k
    decreases k
  {
    if k > 0 {
      assert n / 10 >= Pow10(k - 1);
      DigitsLengthAtLeast(n / 10, k - 1);
    }
  }

  /** A numeral of n digits denotes a number below 10^n. */
  lemma {:induction false} ParseDigitsBound(s: string)
    requires AllDigits(s)
    ensures ParseDigits(s) < Pow10(|s|)
    decreases |s|
  {
    if |s| > 0 {
      var s' := s[..|s| - 1];
      ParseDigitsBound(s');
      assert ParseDigits(s') + 1 <= Pow10(|s'|);
      assert ParseDigits(s') * 10 + 10 <= Pow10(|s'|) * 10;
    }
  }

  /** Padding the numeral of `n` to width `w` reads back as `n`. */
  lemma PaddedReadsBack(n: nat, w: nat)
    ensures AllDigits(ZeroPad(Digits(n), w))
    ensures ParseDigits(ZeroPad(Digits(n), w)) == n
    ensures |ZeroPad(Digits(n), w)| == if |Digits(n)| >= w then |Digits(n)| else w
  {
    ParseDigitsOfDigits(n);
    if |Digits(n)| < w {
      LeadingZerosIgnored(w - |Digits(n)|, Digits(n));
    }
  }

  /** A padded numeral has exactly `w` characters when the number is below 10^w. */
  lemma PaddedWidth(n: nat, w: nat)
    requires 1 <= w && n < Pow10(w)
    ensures |ZeroPad(Digits(n), w)| == w
  {
    DigitsLength(n, w);
  }

  lemma {:induction false} ZeroNumeralIsZeros(t: string)
    requires AllDigits(t) && ParseDigits(t) == 0
    ensures t == Zeros(|t|)
    decreases |t|
  {
    if |t| > 0 {
      var t' := t[..|t| - 1];
      ZeroNumeralIsZeros(t');
      assert t == t' + [t[|t| - 1]];
    }
  }

  /** The converse round trip: a fixed-width numeral is the padded
      rendering of its own value. */
  lemma {:induction false} PadOfParse(t: string)
    requires 1 <= |t| && AllDigits(t)
    ensures |Digits(ParseDigits(t))| <= |t|
    ensures ZeroPad(Digits(ParseDigits(t)), |t|) == t
    decreases |t|
  {
    var t' := t[..|t| - 1];
    var c := t[|t| - 1];
    assert t == t' + [c];
    var p := ParseDigits(t');
    var n := ParseDigits(t);
    assert n == p * 10 + DigitValue(c);
    if p == 0 {
      ZeroNumeralIsZeros(t');
      assert Digits(n) == [c];
    } else {
      PadOfParse(t');
      assert n / 10 == p && n % 10 == DigitValue(c);
      assert Digits(n) == Digits(p) + [c];
    }
  }

  function LowerChar(c: char): char {
    if 'A' <= c <= 'Z' then (c as int + 32) as char else c
  }

  /** ASCII lower-casing (the model does no Unicode case folding). */
  function ToLower(s: string): string {
    seq(|s|, i requires 0 <= i < |s| => LowerChar(s[i]))
  }

  predicate OccursAt(sub: string, s: string, i: int) {
    0 <= i && i + |sub| <= |s| && s[i..i + |sub|] == sub
  }

  /** Go's `strings.Contains(s, sub)`, as a left-to-right scan. */
  predicate Contains(s: string, sub: string)
    decreases |s|
  {
    |sub| <= |s| && (s[..|sub|] == sub || Contains(s[1..], sub))
  }

  /** The scan succeeds exactly when `sub` occurs somewhere in `s`. */
  lemma {:induction false} ContainsIff(s: string, sub: string)
    ensures Contains(s, sub) <==> exists i :: OccursAt(sub, s, i)
    decreases |s|
  {
    if |sub| <= |s| {
      assert OccursAt(sub, s, 0) <==> s[..|sub|] == sub;
      if |s| > 0 {
        ContainsIff(s[1..], sub);
        forall i | OccursAt(sub, s[1..], i)
          ensures OccursAt(sub, s, i + 1)
        {
          assert s[1..][i..i + |sub|] == s[i + 1..i + 1 + |sub|];
        }
        forall i | OccursAt(sub, s, i) && i > 0
          ensures OccursAt(sub, s[1..], i - 1)
        {
          assert s[1..][i - 1..i - 1 + |sub|] == s[i..i + |sub|];
        }
      }
    }
  }
}
