/** Decimal text of the bucket keys: `strftime('%Y')`, `strftime('%m')`,
    `str(n).zfill(2)`, and `int()` reading such text back. */
module Decimal {

  predicate IsDigit(c: char) {
    '0' <= c <= '9'
  }

  predicate AllDigits(s: string) {
    forall i :: 0 <= i < |s| ==> IsDigit(s[i])
  }

  function DigitChar(d: nat): char
    requires d < 10
  {
    ('0' as int + d) as char
  }

  function DigitValue(c: char): nat
    requires IsDigit(c)
  {
    c as int - '0' as int
  }

  /** The shortest decimal text of `n`, as `str(n)` writes it: no leading
      zero except in "0" itself. */
  function Digits(n: nat): (s: string)
    ensures 1 <= |s|
    ensures AllDigits(s)
    ensures 0 < n ==> s[0] != '0'
    ensures |s| == 1 || s[0] != '0'
    decreases n
  {
    if n < 10 then [DigitChar(n)] else Digits(n / 10) + [DigitChar(n % 10)]
  }

  function Zeros(k: nat): (s: string)
    ensures |s| == k
  {
    seq(k, _ => '0')
  }

  /** `n` in decimal, left-padded with zeros to at least `width` characters;
      a text longer than `width` has no zero beyond the padding. */
  function Pad(n: nat, width: nat): (s: string)
    ensures width <= |s|
    ensures AllDigits(s)
    ensures width < |s| ==> |s| == 1 || s[0] != '0'
  {
    var d := Digits(n);
    if |d| >= width then d else Zeros(width - |d|) + d
  }

  /** The value of a digit string, as `int()` reads it (leading zeros allowed). */
  function Parse(s: string): nat
    requires AllDigits(s)
  {
    if s == [] then 0 else Parse(s[..|s| - 1]) * 10 + DigitValue(s[|s| - 1])
  }

  lemma {:induction false} ParseDigits(n: nat)
    ensures Parse(Digits(n)) == n
    decreases n
  {
    if n >= 10 {
      var s := Digits(n);
      assert s[..|s| - 1] == Digits(n / 10);
      ParseDigits(n / 10);
    }
  }

  lemma {:induction false} ParseZerosPrefix(k: nat, s: string)
    requires AllDigits(s)
    ensures AllDigits(Zeros(k) + s)
    ensures Parse(Zeros(k) + s) == Parse(s)
    decreases |s|
  {
    var t := Zeros(k) + s;
    assert AllDigits(t) by {
      forall i | 0 <= i < |t|
        ensures IsDigit(t[i])
      {
        if i < k {
          assert t[i] == Zeros(k)[i];
        } else {
          assert t[i] == s[i - k];
        }
      }
    }
    if s == [] {
      ParseZeros(k);
      assert t == Zeros(k);
    } else {
      var p := s[..|s| - 1];
      assert t[..|t| - 1] == Zeros(k) + p;
      ParseZerosPrefix(k, p);
    }
  }

  lemma {:induction false} ParseZeros(k: nat)
    ensures AllDigits(Zeros(k))
    ensures Parse(Zeros(k)) == 0
    decreases k
  {
    if k > 0 {
      assert Zeros(k)[..k - 1] == Zeros(k - 1);
      ParseZeros(k - 1);
    }
  }

  /** Round trip: `int()` of a padded decimal gives back the number. */
  lemma ParsePad(n: nat, width: nat)
    ensures Parse(Pad(n, width)) == n
  {
    var d := Digits(n);
    ParseDigits(n);
    if |d| < width {
      ParseZerosPrefix(width - |d|, d);
      assert Pad(n, width) == Zeros(width - |d|) + d;
    } else {
      assert Pad(n, width) == d;
    }
  }

  /** Padded decimals of different numbers differ. */
  lemma PadInjective(a: nat, b: nat, width: nat)
    requires Pad(a, width) == Pad(b, width)
    ensures a == b
  {
    ParsePad(a, width);
    ParsePad(b, width);
  }

  /** Two digit strings joined by a space can be split back apart uniquely. */
  lemma SplitAtSpace(a1: string, b1: string, a2: string, b2: string)
    requires AllDigits(a1) && AllDigits(a2)
    requires a1 + " " + b1 == a2 + " " + b2
    ensures a1 == a2 && b1 == b2
  {
    var s := a1 + " " + b1;
    FirstSpace(a1, b1);
    FirstSpace(a2, b2);
    assert |a1| == |a2|;
    assert a1 == s[..|a1|] == a2;
    assert b1 == s[|a1| + 1..] == b2;
  }

  /** In a digit string followed by a space, that space is the first one. */
  lemma FirstSpace(a: string, b: string)
    requires AllDigits(a)
    ensures (a + " " + b)[|a|] == ' '
    ensures forall i :: 0 <= i < |a| ==> (a + " " + b)[i] != ' '
  {
  }
}
