/**
  The string operations the two scripts rely on: fixed-width decimal fields
  (`strftime` padding and `strptime` digit groups), `os.path.basename`,
  Python's substring test `sub in s`, and Python slicing with negative bounds.
*/
module Strings {

  predicate IsDigit(c: char) {
    '0' <= c <= '9'
  }

  predicate AllDigits(s: string) {
    forall i | 0 <= i < |s| :: IsDigit(s[i])
  }

  function Pow10(n: nat): (p: nat)
    ensures p >= 1
  {
    if n == 0 then 1 else 10 * Pow10(n - 1)
  }

  /** The character of a decimal digit. */
  function DigitChar(d: nat): (c: char)
    requires d < 10
    ensures IsDigit(c)
  {
    ('0' as int + d) as char
  }

  /** The value of a string of decimal digits, most significant first (`int(s)`). */
  function DigitsValue(s: string): (v: nat)
    requires AllDigits(s)
    ensures v < Pow10(|s|)
  {
    if |s| == 0 then 0
    else DigitsValue(s[..|s| - 1]) * 10 + (s[|s| - 1] as int - '0' as int)
  }

  /** `n` written in exactly `width` decimal digits, zero-padded on the left (`%02d`, `%04d`). */
  function PadDigits(n: nat, width: nat): (s: string)
    ensures |s| == width && AllDigits(s)
  {
    if width == 0 then [] else PadDigits(n / 10, width - 1) + [DigitChar(n % 10)]
  }

  /** Reading back a padded number gives the number, when it fits the width. */
  lemma {:induction false} ValueOfPad(n: nat, width: nat)
    requires n < Pow10(width)
    ensures DigitsValue(PadDigits(n, width)) == n
  {
    if width > 0 {
      var s := PadDigits(n, width);
      assert s[..|s| - 1] == PadDigits(n / 10, width - 1);
      ValueOfPad(n / 10, width - 1);
    }
  }

  /** Writing back the value of a digit string gives the string. */
  lemma {:induction false} PadOfValue(s: string)
    requires AllDigits(s)
    ensures PadDigits(DigitsValue(s), |s|) == s
  {
    if |s| > 0 {
      var init := s[..|s| - 1];
      PadOfValue(init);
      var v := DigitsValue(s);
      assert v / 10 == DigitsValue(init);
      assert v % 10 == s[|s| - 1] as int - '0' as int;
      assert s == init + [s[|s| - 1]];
    }
  }

  /** A slice of a digit string is one too, and reads back to itself. */
  lemma {:induction false} PadOfSlice(s: string, i: nat, j: nat)
    requires AllDigits(s) && i <= j <= |s|
    ensures AllDigits(s[i..j]) && |s[i..j]| == j - i
    ensures PadDigits(DigitsValue(s[i..j]), j - i) == s[i..j]
  {
    assert AllDigits(s[i..j]);
    PadOfValue(s[i..j]);
  }

  /** A digit string is the padded values of its two parts. */
  lemma {:induction false} PadOfSplit(s: string, a: nat)
    requires AllDigits(s) && a <= |s|
    ensures s == PadDigits(DigitsValue(s[0..a]), a) + PadDigits(DigitsValue(s[a..|s|]), |s| - a)
  {
    PadOfSlice(s, 0, a);
    PadOfSlice(s, a, |s|);
    Cut2(s, a);
  }

  /** A digit string is the padded values of its three parts. */
  lemma {:induction false} PadOfSplit3(s: string, a: nat, b: nat)
    requires AllDigits(s) && a <= b <= |s|
    ensures s == PadDigits(DigitsValue(s[0..a]), a) + PadDigits(DigitsValue(s[a..b]), b - a)
                 + PadDigits(DigitsValue(s[b..|s|]), |s| - b)
  {
    PadOfSlice(s, 0, a);
    PadOfSlice(s, a, b);
    PadOfSlice(s, b, |s|);
    Cut3(s, a, b);
  }

  lemma {:induction false} CutAround(s: string, i: nat)
    requires i < |s|
    ensures s == s[..i] + [s[i]] + s[i + 1..]
  {
  }

  lemma {:induction false} Cut2(s: string, a: nat)
    requires a <= |s|
    ensures s == s[0..a] + s[a..|s|]
  {
  }

  lemma {:induction false} Cut3(s: string, a: nat, b: nat)
    requires a <= b <= |s|
    ensures s == s[0..a] + s[a..b] + s[b..|s|]
  {
  }

  /** A prefix followed by the next slice is the longer prefix. */
  lemma {:induction false} JoinPrefix(s: string, j: nat, k: nat)
    requires j <= k <= |s|
    ensures s[..j] + s[j..k] == s[..k]
  {
  }

  /** Padded numbers below the width's bound are equal only when the numbers are. */
  lemma {:induction false} PadInjective(m: nat, n: nat, width: nat)
    requires m < Pow10(width) && n < Pow10(width)
    requires PadDigits(m, width) == PadDigits(n, width)
    ensures m == n
  {
    ValueOfPad(m, width);
    ValueOfPad(n, width);
  }

  /**
    `os.path.basename(path)` on POSIX: the text after the last '/', or the
    whole path when it has none.
  */
  function Basename(path: string): (b: string)
    ensures '/' !in b
    ensures |b| <= |path| && path[|path| - |b|..] == b
    ensures |b| < |path| ==> path[|path| - |b| - 1] == '/'
  {
    if |path| == 0 || path[|path| - 1] == '/' then []
    else Basename(path[..|path| - 1]) + [path[|path| - 1]]
  }

  /** `sub` occurs in `s` starting at position `i`. */
  predicate OccursAt(s: string, sub: string, i: nat) {
    i + |sub| <= |s| && s[i..i + |sub|] == sub
  }

  /** Python's `sub in s` on strings. */
  predicate Contains(s: string, sub: string)
    ensures |sub| == 0 ==> Contains(s, sub)
    ensures Contains(s, sub) ==> |sub| <= |s|
  {
    assert |sub| == 0 ==> OccursAt(s, sub, 0);
    exists i: nat | i <= |s| :: OccursAt(s, sub, i)
  }

  /** Where a slice bound `k` of Python's `s[a:b]` lands in a string of length `len`. */
  function SliceBound(len: nat, k: int): (i: nat)
    ensures i <= len
  {
    if k < 0 then (if len + k < 0 then 0 else len + k)
    else if k > len then len
    else k
  }

  /** Python's `s[start:stop]` for any integer bounds (step 1). */
  function PySlice(s: string, start: int, stop: int): (r: string)
    ensures |s| >= -start >= -stop > 0 ==> r == s[|s| + start..|s| + stop]
  {
    var lo := SliceBound(|s|, start);
    var hi := SliceBound(|s|, stop);
    if lo < hi then s[lo..hi] else []
  }
}
