/** Decimal text: what printing and parsing whole numbers does, and how such text sorts. */
module Decimal {

  function Digit(d: int): (c: char)
    requires 0 <= d < 10
    ensures IsDigit(c)
  {
    ('0' as int + d) as char
  }

  predicate IsDigit(c: char) {
    '0' <= c <= '9'
  }

  predicate AllDigits(s: string) {
    forall i :: 0 <= i < |s| ==> IsDigit(s[i])
  }

  /** The shortest decimal text of `n`. */
  function Digits(n: nat): (s: string)
    ensures s != [] && AllDigits(s)
    ensures n > 0 ==> s[0] != '0'
  {
    if n < 10 then [Digit(n)] else Digits(n / 10) + [Digit(n % 10)]
  }

  /** The number a string of digits spells. */
  function Value(s: string): nat
    requires AllDigits(s)
  {
    if s == [] then 0 else 10 * Value(s[..|s| - 1]) + (s[|s| - 1] as int - '0' as int)
  }

  lemma {:induction false} ValueOfDigits(n: nat)
    ensures Value(Digits(n)) == n
  {
    if n >= 10 {
      ValueOfDigits(n / 10);
      assert Digits(n)[..|Digits(n)| - 1] == Digits(n / 10);
    } else {
      assert Digits(n)[..0] == [];
    }
  }

  function Pow10(k: nat): (p: nat)
    ensures p > 0
  {
    if k == 0 then 1 else 10 * Pow10(k - 1)
  }

  /** The last `w` decimal digits of `n`. */
  function Fixed(n: nat, w: nat): (s: string)
    ensures |s| == w && AllDigits(s)
  {
    if w == 0 then [] else Fixed(n / 10, w - 1) + [Digit(n % 10)]
  }

  /** Text padded on the left with zeros to at least `w` characters. */
  function ZeroPad(s: string, w: nat): string {
    if |s| >= w then s else seq(w - |s|, _ => '0') + s
  }

  lemma {:induction false} DigitsAreFixed(n: nat)
    ensures Digits(n) == Fixed(n, |Digits(n)|)
    ensures n < Pow10(|Digits(n)|)
  {
    if n >= 10 {
      DigitsAreFixed(n / 10);
    } else {
      assert Fixed(n / 10, 0) == [];
    }
  }

  lemma {:induction false} FixedZero(w: nat)
    ensures Fixed(0, w) == seq(w, _ => '0')
  {
    if w > 0 {
      FixedZero(w - 1);
    }
  }

  /** `n` without its last `k` decimal digits. */
  function DropDigits(n: nat, k: nat): nat {
    if k == 0 then n else DropDigits(n / 10, k - 1)
  }

  lemma {:induction false} FixedSplit(n: nat, w: nat, k: nat)
    ensures Fixed(n, w + k) == Fixed(DropDigits(n, k), w) + Fixed(n, k)
    decreases k
  {
    if k > 0 {
      FixedSplit(n / 10, w, k - 1);
      assert Fixed(n, w + k) == Fixed(n / 10, w + (k - 1)) + [Digit(n % 10)];
    }
  }

  lemma {:induction false} DropDigitsBound(n: nat, w: nat, k: nat)
    requires n < Pow10(w + k)
    ensures DropDigits(n, k) < Pow10(w)
    decreases k
  {
    if k > 0 {
      DropDigitsBound(n / 10, w, k - 1);
    }
  }

  lemma NoPower()
    ensures Pow10(0) == 1
  {
  }

  lemma PaddedIsFixed(n: nat, w: nat)
    ensures var s := ZeroPad(Digits(n), w); s == Fixed(n, |s|) && n < Pow10(|s|)
  {
    hide Digits, Fixed, Pow10;
    var k := |Digits(n)|;
    DigitsAreFixed(n);
    NoPower();
    if k < w {
      FixedSplit(n, w - k, k);
      DropDigitsBound(n, 0, k);
      FixedZero(w - k);
      Pow10Grows(k, w);
    }
  }

  lemma {:induction false} Pow10Grows(j: nat, k: nat)
    requires j <= k
    ensures Pow10(j) <= Pow10(k)
    decreases k
  {
    if j < k {
      Pow10Grows(j, k - 1);
    }
  }

  /** A number below 10^k has at most k digits. */
  lemma {:induction false} DigitCount(n: nat, k: nat)
    requires k > 0
    ensures |Digits(n)| <= k <==> n < Pow10(k)
    decreases k
  {
    if k == 1 {
      assert Pow10(1) == 10 * Pow10(0);
    } else if n >= 10 {
      DigitCount(n / 10, k - 1);
    } else {
      Pow10Grows(1, k);
      assert Pow10(1) == 10 * Pow10(0);
    }
  }

  // ---------- How text sorts ----------

  /** `s` comes before `t` in dictionary order. */
  predicate LexLess(s: string, t: string) {
    t != [] && (s == [] || s[0] < t[0] || (s[0] == t[0] && LexLess(s[1..], t[1..])))
  }

  lemma LexLessSameStart(c: char, s: string, t: string)
    ensures LexLess([c] + s, [c] + t) <==> LexLess(s, t)
  {
    assert ([c] + s)[1..] == s && ([c] + t)[1..] == t;
  }

  /** Fixed-width numbers sort as text exactly as they do as numbers. */
  lemma {:induction false} FixedSorts(a: nat, b: nat, w: nat, s: string, t: string)
    requires a < Pow10(w) && b < Pow10(w)
    ensures LexLess(Fixed(a, w) + s, Fixed(b, w) + t) <==> a < b || (a == b && LexLess(s, t))
    decreases w
  {
    if w == 0 {
      assert Fixed(a, 0) + s == s && Fixed(b, 0) + t == t;
    } else {
      var s', t' := [Digit(a % 10)] + s, [Digit(b % 10)] + t;
      assert Fixed(a, w) + s == Fixed(a / 10, w - 1) + s';
      assert Fixed(b, w) + t == Fixed(b / 10, w - 1) + t';
      FixedSorts(a / 10, b / 10, w - 1, s', t');
      assert s'[1..] == s && t'[1..] == t;
    }
  }
}
