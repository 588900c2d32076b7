/** Text: decimal numbers, zero padding, and cutting at a character. */
module Decimals {
  predicate IsDigit(c: char) {
    '0' <= c <= '9'
  }

  function DigitChar(d: nat): (c: char)
    requires d < 10
    ensures IsDigit(c) && c as int == '0' as int + d
  {
    '0' + d as char
  }

  function DigitValue(c: char): (d: nat)
    requires IsDigit(c)
    ensures d < 10 && DigitChar(d) == c
  {
    c as int - '0' as int
  }

  predicate AllDigits(s: string) {
    forall k :: 0 <= k < |s| ==> IsDigit(s[k])
  }

  /** The number a string of digits stands for; leading zeros do not matter. */
  function Value(s: string): (v: nat)
    requires AllDigits(s)
  {
    if s == "" then 0 else 10 * Value(s[..|s| - 1]) + DigitValue(s[|s| - 1])
  }

  /** The shortest decimal text of a number. */
  function Format(n: nat): (s: string)
    ensures AllDigits(s) && |s| > 0
  {
    if n < 10 then [DigitChar(n)] else Format(n / 10) + [DigitChar(n % 10)]
  }

  lemma {:induction false} FormatValue(n: nat)
    ensures Value(Format(n)) == n
  {
    if n >= 10 {
      FormatValue(n / 10);
      assert Format(n)[..|Format(n)| - 1] == Format(n / 10);
    } else {
      assert Format(n)[..0] == "";
    }
  }

  function Pow10(w: nat): (r: int)
    ensures r >= 1
  {
    if w == 0 then 1 else 10 * Pow10(w - 1)
  }

  /** `v` with `w` zeros after it. */
  function Shifted(v: nat, w: nat): (r: nat) {
    v * Pow10(w)
  }

  /** Digit strings put side by side. */
  lemma {:induction false} ValueConcat(s: string, t: string)
    requires AllDigits(s) && AllDigits(t)
    ensures AllDigits(s + t) && Value(s + t) == Shifted(Value(s), |t|) + Value(t)
  {
    if t == "" {
      assert s + t == s;
    } else {
      var front, last := t[..|t| - 1], t[|t| - 1];
      ValueConcat(s, front);
      assert (s + t)[..|s + t| - 1] == s + front;
      assert Value(s + t) == 10 * Value(s + front) + DigitValue(last);
      TenTimes(Value(s), Pow10(|front|), Value(front), DigitValue(last));
    }
  }

  lemma TenTimes(a: nat, p: nat, b: nat, d: nat)
    ensures 10 * (a * p + b) + d == a * (10 * p) + (10 * b + d)
  {
    assert a * (10 * p) == 10 * (a * p);
  }

  lemma {:induction false} FormatLength(n: nat, w: nat)
    requires n < Pow10(w) && w > 0
    ensures |Format(n)| <= w
  {
    if n < 10 {
    } else {
      FormatLength(n / 10, w - 1);
    }
  }

  function Zeros(w: nat): (s: string)
    ensures |s| == w && forall k :: 0 <= k < w ==> s[k] == '0'
  {
    seq(w, _ => '0')
  }

  lemma {:induction false} ValueZeros(w: nat)
    ensures Value(Zeros(w)) == 0
  {
    if w == 0 {
    } else {
      assert Zeros(w)[..w - 1] == Zeros(w - 1);
      ValueZeros(w - 1);
    }
  }

  /** `%0wd`: at least `w` characters. */
  function Padded(n: nat, w: nat): (s: string)
    ensures AllDigits(s) && |s| >= w
  {
    var t := Format(n);
    if |t| >= w then t else Zeros(w - |t|) + t
  }

  lemma PaddedValue(n: nat, w: nat)
    ensures Value(Padded(n, w)) == n
  {
    var t := Format(n);
    FormatValue(n);
    if |t| < w {
      var z := Zeros(w - |t|);
      ValueConcat(z, t);
      ValueZeros(w - |t|);
      assert Value(z) * Pow10(|t|) == 0;
    }
  }

  lemma PaddedLength(n: nat, w: nat)
    requires 0 < w && n < Pow10(w)
    ensures |Padded(n, w)| == w
  {
    FormatLength(n, w);
  }

  datatype Parsed = Invalid | Number(value: nat)

  /** `strconv.ParseUint(s, 10, 63)` */
  function ParseUint63(s: string): (r: Parsed)
  {
    if s == "" || !AllDigits(s) || Value(s) >= 0x8000_0000_0000_0000 then Invalid else Number(Value(s))
  }

  lemma FormatParse(n: nat)
    requires n < 0x8000_0000_0000_0000
    ensures ParseUint63(Format(n)) == Number(n)
  {
    FormatValue(n);
  }

  // ----- cutting -----

  /** `strings.IndexByte`, with the length for "not found". */
  function IndexOf(s: string, c: char): (i: nat)
    ensures i <= |s| && (i < |s| ==> s[i] == c) && c !in s[..i]
  {
    if s == "" then 0 else if s[0] == c then 0 else
      var i := 1 + IndexOf(s[1..], c);
      assert s[..i] == [s[0]] + s[1..][..i - 1];
      i
  }

  lemma IndexAt(a: string, c: char, b: string)
    requires c !in a
    ensures IndexOf(a + [c] + b, c) == |a|
    ensures IndexOf(a, c) == |a|
  {
    var s := a + [c] + b;
    var i := IndexOf(s, c);
    assert s[|a|] == c;
    forall k | 0 <= k < i
      ensures s[k] != c
    {
      assert s[..i][k] == s[k];
    }
    forall k | 0 <= k < |a|
      ensures s[k] != c
    {
      assert s[k] == a[k];
    }
  }

  /** What a cut at the first `c` leaves on both sides. */
  lemma CutAt(a: string, c: char, b: string)
    requires c !in a
    ensures var s := a + [c] + b;
            var i := IndexOf(s, c);
            i < |s| && s[..i] == a && s[i + 1..] == b
    ensures IndexOf(a, c) == |a| && a[..|a|] == a
  {
    IndexAt(a, c, b);
  }
}
