/** Decimal digit strings: Python's `int(...)` on digits, `f"{n}"` and zero-padded `%d`-style fields. */
module Decimal {

  predicate IsDigit(c: char) {
    '0' <= c <= '9'
  }

  predicate AllDigits(s: string) {
    forall i :: 0 <= i < |s| ==> IsDigit(s[i])
  }

  function DigitChar(d: nat): (c: char)
    requires d < 10
    ensures IsDigit(c)
  {
    ('0' as int + d) as char
  }

  function DigitValue(c: char): (d: nat)
    requires IsDigit(c)
    ensures d < 10
    ensures DigitChar(d) == c
  {
    c as int - '0' as int
  }

  function Pow10(n: nat): (p: nat)
    ensures p >= 1
  {
    if n == 0 then 1 else 10 * Pow10(n - 1)
  }

  /** The number a string of decimal digits denotes. */
  function Value(s: string): (v: nat)
    requires AllDigits(s)
    ensures v < Pow10(|s|)
  {
    if s == [] then 0 else Value(s[..|s| - 1]) * 10 + DigitValue(s[|s| - 1])
  }

  /** The last `width` decimal digits of `n`, zero-padded on the left. */
  function Padded(n: nat, width: nat): (s: string)
    ensures |s| == width && AllDigits(s)
  {
    if width == 0 then [] else Padded(n / 10, width - 1) + [DigitChar(n % 10)]
  }

  /** The shortest decimal text of `n`, as Python formats an int. */
  function Text(n: nat): (s: string)
    ensures |s| >= 1 && AllDigits(s)
    ensures |s| > 1 ==> s[0] != '0'
  {
    if n < 10 then [DigitChar(n)] else Text(n / 10) + [DigitChar(n % 10)]
  }

  lemma {:induction false} ValueOfPadded(n: nat, width: nat)
    requires n < Pow10(width)
    ensures Value(Padded(n, width)) == n
  {
    if width > 0 {
      DropDigit(n, Pow10(width - 1));
      ValueOfPadded(n / 10, width - 1);
      ValueSnoc(Padded(n / 10, width - 1), n % 10);
    }
  }

  /** Appending a digit multiplies the value by ten and adds the digit. */
  lemma ValueSnoc(s: string, d: nat)
    requires AllDigits(s) && d < 10
    ensures AllDigits(s + [DigitChar(d)])
    ensures Value(s + [DigitChar(d)]) == Value(s) * 10 + d
  {
    var t := s + [DigitChar(d)];
    assert t[..|t| - 1] == s;
    DigitRoundTrip(d);
  }

  lemma DigitRoundTrip(d: nat)
    requires d < 10
    ensures DigitValue(DigitChar(d)) == d
  {
  }

  lemma {:induction false} PaddedOfValue(s: string)
    requires AllDigits(s)
    ensures Padded(Value(s), |s|) == s
  {
    if s != [] {
      var init := s[..|s| - 1];
      var d := DigitValue(s[|s| - 1]);
      PaddedOfValue(init);
      ShiftDigit(Value(init), d);
      assert s == init + [s[|s| - 1]];
    }
  }

  lemma DropDigit(n: nat, p: nat)
    requires n < 10 * p
    ensures n / 10 < p && n == n / 10 * 10 + n % 10
  {
  }

  lemma ShiftDigit(v: nat, d: nat)
    requires d < 10
    ensures (v * 10 + d) / 10 == v && (v * 10 + d) % 10 == d
  {
  }

  /** `k` zero digits. */
  function Zeros(k: nat): (z: string)
    ensures |z| == k
  {
    if k == 0 then [] else Zeros(k - 1) + ['0']
  }

  /** Scaling by 10^k appends k zero digits to the padded text. */
  lemma {:induction false} PaddedShift(v: nat, w: nat, k: nat)
    ensures Padded(v * Pow10(k), w + k) == Padded(v, w) + Zeros(k)
  {
    if k > 0 {
      var x := v * Pow10(k - 1);
      MulTen(v, Pow10(k - 1));
      ShiftDigit(x, 0);
      PaddedShift(v, w, k - 1);
      PaddedStep(x * 10, w + k - 1);
      ZerosSnoc(Padded(v, w), k - 1);
    }
  }

  lemma MulTen(v: nat, p: nat)
    ensures v * (10 * p) == v * p * 10
  {
  }

  /** One more digit of width: the last digit of `n` after the digits of `n / 10`. */
  lemma PaddedStep(n: nat, width: nat)
    ensures Padded(n, width + 1) == Padded(n / 10, width) + [DigitChar(n % 10)]
  {
  }

  lemma ZerosSnoc(s: string, k: nat)
    ensures s + Zeros(k + 1) == s + Zeros(k) + ['0']
  {
    assert Zeros(k + 1) == Zeros(k) + ['0'];
  }

  lemma {:induction false} ValueOfText(n: nat)
    ensures Value(Text(n)) == n
  {
    if n >= 10 {
      ValueOfText(n / 10);
      var s := Text(n);
      assert s[..|s| - 1] == Text(n / 10);
    }
  }

  /** The three parts of a concatenation, recovered by slicing. */
  lemma Parts(x: string, y: string, z: string)
    ensures var s := x + y + z;
      |s| == |x| + |y| + |z| && s[..|x|] == x && s[|x|..|x| + |y|] == y && s[|x| + |y|..] == z
  {
    var s := x + y + z;
    assert s[..|x|] == x;
    assert s[|x|..|x| + |y|] == y;
    assert s[|x| + |y|..] == z;
  }

  /** A slice of a suffix is a slice of the whole, shifted. */
  lemma SuffixSlice(s: string, k: nat, t: string, i: nat, j: nat)
    requires k <= |s| && s[k..] == t && i <= j <= |t|
    ensures s[k + i..k + j] == t[i..j]
  {
    var u, v := s[k + i..k + j], t[i..j];
    forall m | 0 <= m < |u|
      ensures u[m] == v[m]
    {
      assert t[i + m] == s[k..][i + m];
    }
    assert u == v;
  }

  /** An index into a suffix is an index into the whole, shifted. */
  lemma SuffixAt(s: string, k: nat, t: string, j: nat)
    requires k <= |s| && s[k..] == t && j < |t|
    ensures s[k + j] == t[j]
  {
    assert s[k..][j] == s[k + j];
  }

  /** In `p1 + x + (p2 + y + rest)`, both fields sit at the places their prefixes fix. */
  lemma TwoFields(p1: string, x: string, p2: string, y: string, rest: string)
    requires p2 != [] && rest != []
    ensures var s := p1 + x + (p2 + y + rest);
      var a := |p1|;
      var ra := a + |x|;
      var b := ra + |p2|;
      var rb := b + |y|;
      |s| > rb && s[..a] == p1 && s[a..ra] == x && s[ra..b] == p2 && s[ra] == p2[0] &&
      s[b..rb] == y && s[rb..] == rest && s[rb] == rest[0]
  {
    var tail := p2 + y + rest;
    var s := p1 + x + tail;
    Parts(p1, x, tail);
    Parts(p2, y, rest);
    var ra := |p1| + |x|;
    SuffixSlice(s, ra, tail, 0, |p2|);
    SuffixSlice(s, ra, tail, |p2|, |p2| + |y|);
    SuffixAt(s, ra, tail, 0);
    SuffixAt(s, ra, tail, |p2| + |y|);
    SuffixSlice(s, ra, tail, |p2| + |y|, |tail|);
    assert s[ra + |tail|..] == [];
    SuffixAt(tail, |p2| + |y|, rest, 0);
  }
}
