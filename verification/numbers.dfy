/**
 Integer text conversions used by the color processor: Python's `int(token)`
 on a string, `str(n)` (what an f-string prints for an int), and the format
 spec `06X` (zero-padded, upper-case hexadecimal, width 6).
 */
module Numbers {
  import opened Wrappers
  import opened Text

  /** Value of a digit character: '0'..'9' are 0..9 and 'A'..'F' are 10..15;
      every other character gets 16, which is a digit in no base used here. */
  function CharValue(c: char): nat {
    if '0' <= c <= '9' then c as int - '0' as int
    else if 'A' <= c <= 'F' then c as int - 'A' as int + 10
    else 16
  }

  /** The upper-case digit character for d. */
  function DigitChar(d: nat): (c: char)
    requires d < 16
    ensures CharValue(c) == d
    ensures c == '0' <==> d == 0
  {
    if d < 10 then ('0' as int + d) as char else ('A' as int + d - 10) as char
  }

  predicate AllDigits(s: string, base: nat) {
    forall t :: 0 <= t < |s| ==> CharValue(s[t]) < base
  }

  /** The number a digit string denotes in the given base (most significant digit first). */
  function Value(s: string, base: nat): nat
    requires AllDigits(s, base)
  {
    if |s| == 0 then 0 else Value(s[..|s| - 1], base) * base + CharValue(s[|s| - 1])
  }

  function Pow(b: nat, k: nat): nat {
    if k == 0 then 1 else b * Pow(b, k - 1)
  }

  /** The digits of n in the given base, most significant first. */
  function ToDigits(n: nat, base: nat): (s: string)
    requires 2 <= base <= 16
    ensures |s| >= 1
    decreases n
  {
    if n < base then [DigitChar(n)]
    else
      DivStep(n, base);
      ToDigits(n / base, base) + [DigitChar(n % base)]
  }

  /** ToDigits is a base-`base` numeral for n without leading zeros. */
  lemma {:induction false} ToDigitsValue(n: nat, base: nat)
    requires 2 <= base <= 16
    ensures AllDigits(ToDigits(n, base), base)
    ensures Value(ToDigits(n, base), base) == n
    ensures ToDigits(n, base)[0] == '0' <==> n == 0
    ensures n == 0 ==> ToDigits(n, base) == "0"
    decreases n
  {
    if n >= base {
      DivStep(n, base);
      var q, d := n / base, n % base;
      ToDigitsValue(q, base);
      var hi := ToDigits(q, base);
      var s := hi + [DigitChar(d)];
      assert s[..|s| - 1] == hi;
      assert Value(s, base) == q * base + d;
    }
  }

  lemma DivStep(n: nat, base: nat)
    requires n >= base >= 2
    ensures 1 <= n / base < n
    ensures (n / base) * base + n % base == n
    ensures n % base < base
  {
  }

  function Zeros(k: nat): string {
    seq(k, _ => '0')
  }

  /** s preceded by as many '0' as needed to be at least width characters long. */
  function PadZeros(s: string, width: nat): string {
    if |s| >= width then s else Zeros(width - |s|) + s
  }

  /** Python `str(n)` for an int: an optional '-' and the decimal digits of |n|. */
  function IntToString(n: int): string {
    if n < 0 then "-" + ToDigits(-n, 10) else ToDigits(n, 10)
  }

  /** str(n) is one line: it holds no newline. */
  lemma IntToStringOneLine(n: int)
    ensures '\n' !in IntToString(n)
  {
    var m := if n < 0 then -n else n;
    ToDigitsValue(m, 10);
    var ds := ToDigits(m, 10);
    assert '\n' !in ds by {
      forall t | 0 <= t < |ds|
        ensures ds[t] != '\n'
      {
        assert CharValue(ds[t]) < 10;
      }
    }
  }

  /** The whitespace `int()` drops around its argument. CPython first turns
      every non-ASCII `str.isspace()` character into a space and then skips
      only ' ', '\t', '\n', '\v', '\f' and '\r'; the ASCII separators
      U+001C..U+001F, which `str.isspace()` accepts, stay in place and make the
      conversion fail. */
  predicate IntSpace(c: char) {
    || c == ' '
    || '\t' <= c <= '\r'
    || c == '\U{85}'
    || c == '\U{a0}'
    || c == '\U{1680}'
    || '\U{2000}' <= c <= '\U{200a}'
    || c == '\U{2028}'
    || c == '\U{2029}'
    || c == '\U{202f}'
    || c == '\U{205f}'
    || c == '\U{3000}'
  }

  /** `int()`'s whitespace is `str.isspace()` without U+001C..U+001F. */
  lemma IntSpaceIsSpace(c: char)
    ensures IntSpace(c) <==> IsSpace(c) && !('\U{1c}' <= c <= '\U{1f}')
  {
  }

  /** Every character of s[i..j] is whitespace to `int()`. */
  ghost predicate AllIntSpace(s: string, i: nat, j: nat)
    requires i <= j <= |s|
  {
    forall t :: i <= t < j ==> IntSpace(s[t])
  }

  /** Index of the first character at or after i that `int()` does not skip. */
  function SkipIntSpace(s: string, i: nat): (j: nat)
    requires i <= |s|
    ensures i <= j <= |s|
    decreases |s| - i
  {
    if i < |s| && IntSpace(s[i]) then SkipIntSpace(s, i + 1) else i
  }

  lemma {:induction false} SkipIntSpaceRun(s: string, i: nat)
    requires i <= |s|
    ensures AllIntSpace(s, i, SkipIntSpace(s, i))
    ensures SkipIntSpace(s, i) == |s| || !IntSpace(s[SkipIntSpace(s, i)])
    decreases |s| - i
  {
    if i < |s| && IntSpace(s[i]) {
      SkipIntSpaceRun(s, i + 1);
    }
  }

  /** End of s[lo..hi] once the trailing whitespace `int()` skips is dropped. */
  function TrimIntEnd(s: string, lo: nat, hi: nat): (j: nat)
    requires lo <= hi <= |s|
    ensures lo <= j <= hi
    decreases hi
  {
    if hi > lo && IntSpace(s[hi - 1]) then TrimIntEnd(s, lo, hi - 1) else hi
  }

  lemma {:induction false} TrimIntEndRun(s: string, lo: nat, hi: nat)
    requires lo <= hi <= |s|
    ensures AllIntSpace(s, TrimIntEnd(s, lo, hi), hi)
    ensures TrimIntEnd(s, lo, hi) == lo || !IntSpace(s[TrimIntEnd(s, lo, hi) - 1])
    decreases hi
  {
    if hi > lo && IntSpace(s[hi - 1]) {
      TrimIntEndRun(s, lo, hi - 1);
    }
  }

  /** The text `int()` reads digits from: its argument without the
      surrounding whitespace it skips. */
  function IntStrip(s: string): string {
    var i := SkipIntSpace(s, 0);
    s[i..TrimIntEnd(s, i, |s|)]
  }

  /** What `int()` skips is its whitespace, and what it keeps neither starts
      nor ends with such whitespace. */
  lemma IntStripBounds(s: string)
    ensures var i := SkipIntSpace(s, 0);
      var j := TrimIntEnd(s, i, |s|);
      && IntStrip(s) == s[i..j] && AllIntSpace(s, 0, i) && AllIntSpace(s, j, |s|)
      && (i == j || (!IntSpace(s[i]) && !IntSpace(s[j - 1])))
  {
    var i := SkipIntSpace(s, 0);
    SkipIntSpaceRun(s, 0);
    TrimIntEndRun(s, i, |s|);
  }

  /** `int()` skips exactly the whitespace around a token that starts and
      ends with a character it does not skip. */
  lemma IntStripPadded(before: string, t: string, after: string)
    requires forall k :: 0 <= k < |before| ==> IntSpace(before[k])
    requires forall k :: 0 <= k < |after| ==> IntSpace(after[k])
    requires |t| >= 1 && !IntSpace(t[0]) && !IntSpace(t[|t| - 1])
    ensures IntStrip(before + t + after) == t
  {
    var s := before + t + after;
    var i := SkipIntSpace(s, 0);
    SkipIntSpaceRun(s, 0);
    assert s[|before|] == t[0];
    assert forall k :: 0 <= k < |before| ==> s[k] == before[k];
    assert i == |before|;
    var j := TrimIntEnd(s, i, |s|);
    TrimIntEndRun(s, i, |s|);
    assert s[|before| + |t| - 1] == t[|t| - 1];
    assert forall k :: |before| + |t| <= k < |s| ==> s[k] == after[k - |before| - |t|];
    assert j == |before| + |t|;
    assert s[i..j] == t;
  }

  /** U+001C counts as whitespace for `str.isspace()` and `\s`, but `int()`
      does not skip it: "\x1c5" is not a number. */
  lemma SeparatorNotSkipped(token: string)
    requires token == "\U{1c}5"
    ensures IsSpace(token[0]) && ParseInt(token).None?
  {
    assert !IntSpace(token[0]) && !IntSpace(token[1]);
    assert [] + token + [] == token;
    IntStripPadded([], token, []);
    assert CharValue(token[0]) == 16;
    assert !AllDigits(token, 10);
    assert token[0] != '-' && token[0] != '+';
    assert ParseSigned(token).None?;
    assert IntStrip(token) == token;
  }

  /** A character `int()` may accept somewhere in its argument. */
  predicate IntChar(c: char) {
    IntSpace(c) || CharValue(c) < 10 || c == '-' || c == '+'
  }

  /** CPython's default limit (since versions 3.11, 3.10.7, 3.9.14, 3.8.14 and
      3.7.14) on the number of digits in a decimal integer conversion: `int()` of a numeral with more digits,
      leading zeros included, raises ValueError, and so does `str()` of an
      integer whose decimal text would be longer. */
  const MaxStrDigits := 4300

  /** The decimal text of n fits within the conversion limit. */
  predicate StrFits(n: int) {
    |ToDigits(if n < 0 then -n else n, 10)| <= MaxStrDigits
  }

  /** Python `int(token)` on a string, restricted to ASCII digits: surrounding
      whitespace is dropped, then an optional sign and between one and
      MaxStrDigits digits must make up the rest; anything else is the
      ValueError branch (None). */
  function ParseInt(token: string): Option<int> {
    ParseSigned(IntStrip(token))
  }

  /** An optional sign followed by 1..MaxStrDigits decimal digits, nothing else. */
  function ParseSigned(t: string): Option<int> {
    if |t| == 0 then None
    else if t[0] == '-' || t[0] == '+' then
      var ds := t[1..];
      if 0 < |ds| <= MaxStrDigits && AllDigits(ds, 10) then
        var v: int := Value(ds, 10);
        Some(if t[0] == '-' then -v else v)
      else None
    else if |t| <= MaxStrDigits && AllDigits(t, 10) then Some(Value(t, 10))
    else None
  }

  /** A numeral of more than MaxStrDigits digits, however small its value
      (leading zeros count), is the ValueError branch. */
  lemma TooManyDigits(token: string)
    requires |token| > MaxStrDigits && AllDigits(token, 10)
    ensures ParseInt(token).None?
  {
  }

  /** Every integer `int()` returns can be printed again by `str()`: at most
      MaxStrDigits digits denote a number of at most that many digits. */
  lemma ParsedFits(token: string)
    requires ParseInt(token).Some?
    ensures StrFits(ParseInt(token).value)
  {
    var t := IntStrip(token);
    var ds := if t[0] == '-' || t[0] == '+' then t[1..] else t;
    assert 0 < |ds| <= MaxStrDigits && AllDigits(ds, 10);
    var m: int := Value(ds, 10);
    var n := ParseInt(token).value;
    assert n == m || n == -m;
    ValueUpper(ds, 10);
    DigitsWidth(m, 10, |ds|);
  }

  /** int() accepts only whitespace, digits and signs: a token with any other
      character (a letter, "0x", a decimal point) is the ValueError branch. */
  lemma ParseIntChars(token: string)
    requires ParseInt(token).Some?
    ensures forall k :: 0 <= k < |token| ==> IntChar(token[k])
  {
    var t := IntStrip(token);
    IntStripBounds(token);
    var i := SkipIntSpace(token, 0);
    var j := TrimIntEnd(token, i, |token|);
    assert forall k :: 0 <= k < |t| ==> IntChar(t[k]) by {
      if t[0] == '-' || t[0] == '+' {
        assert forall k :: 1 <= k < |t| ==> t[k] == t[1..][k - 1];
      }
    }
    forall k | 0 <= k < |token|
      ensures IntChar(token[k])
    {
      if i <= k < j {
        assert token[k] == t[k - i];
      }
    }
  }

  /** Python `format(n, "06X")`: upper-case hexadecimal zero-padded to width 6;
      the padding goes after the sign of a negative number, so the sign counts
      towards the width. Wider values keep all their digits. */
  function FormatHex06(n: int): string {
    if n >= 0 then PadZeros(ToDigits(n, 16), 6)
    else "-" + PadZeros(ToDigits(-n, 16), 5)
  }

  /** For 0 <= n <= 0xFFFFFF the result is exactly six upper-case hexadecimal
      digits denoting n; a larger n keeps all its digits, without a leading
      zero. A negative n is '-' and digits denoting -n: sign and digits are
      exactly six characters when -n <= 0xFFFFF, and otherwise the digits
      are all those of -n, without a leading zero. */
  lemma FormatHex06Value(n: int)
    ensures 0 <= n <= 0xFFFFFF ==> |FormatHex06(n)| == 6
    ensures n > 0xFFFFFF ==> |FormatHex06(n)| > 6 && FormatHex06(n)[0] != '0'
    ensures n >= 0 ==> AllDigits(FormatHex06(n), 16) && Value(FormatHex06(n), 16) == n
    ensures n < 0 ==> var r := FormatHex06(n);
      |r| >= 6 && r[0] == '-' && AllDigits(r[1..], 16) && Value(r[1..], 16) == -n
    ensures n < 0 && -n <= 0xFFFFF ==> |FormatHex06(n)| == 6
    ensures n < 0 && -n > 0xFFFFF ==> |FormatHex06(n)| > 6 && FormatHex06(n)[1] != '0'
  {
    var m := if n >= 0 then n else -n;
    ToDigitsValue(m, 16);
    var ds := ToDigits(m, 16);
    if n >= 0 {
      HexWidth(n);
      PadZerosValue(ds, 6, 16);
    } else {
      assert Pow(16, 5) == 0x100000;
      DigitsWidth(m, 16, 5);
      PadZerosValue(ds, 5, 16);
      var r := FormatHex06(n);
      assert r[1..] == PadZeros(ds, 5);
      if m > 0xFFFFF {
        assert r[1] == ds[0];
      }
    }
  }

  /** The `06X` text of a number is one line: digits and perhaps a sign. */
  lemma FormatHex06OneLine(n: int)
    ensures '\n' !in FormatHex06(n)
  {
    FormatHex06Value(n);
    var r := FormatHex06(n);
    forall t | 0 <= t < |r|
      ensures r[t] != '\n'
    {
      if n < 0 && t > 0 {
        assert r[t] == r[1..][t - 1];
      }
    }
  }

  /** Six hexadecimal digits are enough exactly up to 0xFFFFFF. */
  lemma HexWidth(n: nat)
    ensures n <= 0xFFFFFF ==> |ToDigits(n, 16)| <= 6
    ensures n > 0xFFFFFF ==> |ToDigits(n, 16)| > 6
  {
    assert Pow(16, 6) == 0x1000000;
    DigitsWidth(n, 16, 6);
  }

  /** n has at most k digits exactly when it is below base^k. */
  lemma DigitsWidth(n: nat, base: nat, k: nat)
    requires 2 <= base <= 16 && k >= 1
    ensures |ToDigits(n, base)| <= k <==> n < Pow(base, k)
  {
    var s := ToDigits(n, base);
    ToDigitsValue(n, base);
    if n < Pow(base, k) && |s| > k && n > 0 {
      ValueLower(s, base);
      PowMonotone(base, k, |s| - 1);
    }
    if n >= Pow(base, k) && |s| <= k {
      ValueUpper(s, base);
      PowMonotone(base, |s|, k);
    }
  }

  lemma {:induction false} PowMonotone(b: nat, i: nat, j: nat)
    requires b >= 2 && i <= j
    ensures Pow(b, i) <= Pow(b, j)
    decreases j
  {
    if i < j {
      PowMonotone(b, i, j - 1);
      PowPositive(b, j - 1);
      MulMonotone(1, b, Pow(b, j - 1));
    }
  }

  lemma {:induction false} PowPositive(b: nat, k: nat)
    requires b >= 1
    ensures Pow(b, k) >= 1
  {
    if k > 0 {
      PowPositive(b, k - 1);
    }
  }

  /** A k-digit string denotes less than base^k. */
  lemma {:induction false} ValueUpper(s: string, base: nat)
    requires base >= 2 && AllDigits(s, base)
    ensures Value(s, base) < Pow(base, |s|)
  {
    if |s| > 0 {
      var init := s[..|s| - 1];
      ValueUpper(init, base);
      var v := Value(init, base);
      var d := CharValue(s[|s| - 1]);
      var p := Pow(base, |init|);
      assert Value(s, base) == v * base + d;
      assert Pow(base, |s|) == base * p;
      StepBound(v, d, p, base);
    }
  }

  /** A k-digit string without a leading zero denotes at least base^(k-1). */
  lemma {:induction false} ValueLower(s: string, base: nat)
    requires base >= 2 && AllDigits(s, base) && |s| >= 1 && s[0] != '0'
    ensures Value(s, base) >= Pow(base, |s| - 1)
  {
    if |s| > 1 {
      var init := s[..|s| - 1];
      ValueLower(init, base);
      assert init[0] == s[0];
      assert Value(s, base) >= Value(init, base) * base;
      assert Pow(base, |s| - 1) == base * Pow(base, |init| - 1);
      MulMonotone(Pow(base, |init| - 1), Value(init, base), base);
    } else {
      assert s[..0] == [];
    }
  }

  lemma StepBound(v: nat, d: nat, p: nat, base: nat)
    requires v < p && d < base
    ensures v * base + d < base * p
  {
    assert (v + 1) * base == v * base + base;
    MulMonotone(v + 1, p, base);
  }

  lemma MulMonotone(a: nat, b: nat, c: nat)
    requires a <= b
    ensures a * c <= b * c
  {
  }

  /** Leading zeros do not change the value. */
  lemma {:induction false} PadZerosValue(s: string, width: nat, base: nat)
    requires base >= 2 && AllDigits(s, base)
    ensures |PadZeros(s, width)| == if |s| >= width then |s| else width
    ensures AllDigits(PadZeros(s, width), base)
    ensures Value(PadZeros(s, width), base) == Value(s, base)
  {
    if |s| < width {
      ZerosPrefixValue(width - |s|, s, base);
    }
  }

  lemma {:induction false} ZerosPrefixValue(k: nat, s: string, base: nat)
    requires base >= 2 && AllDigits(s, base)
    ensures AllDigits(Zeros(k) + s, base)
    ensures Value(Zeros(k) + s, base) == Value(s, base)
    decreases k
  {
    if k > 0 {
      ZerosPrefixValue(k - 1, s, base);
      assert Zeros(k) == ['0'] + Zeros(k - 1);
      assert Zeros(k) + s == ['0'] + (Zeros(k - 1) + s);
      LeadingZeroValue(Zeros(k - 1) + s, base);
    } else {
      assert Zeros(k) + s == s;
    }
  }

  lemma {:induction false} LeadingZeroValue(s: string, base: nat)
    requires base >= 2 && AllDigits(s, base)
    ensures AllDigits(['0'] + s, base)
    ensures Value(['0'] + s, base) == Value(s, base)
  {
    if |s| > 0 {
      var init := s[..|s| - 1];
      assert (['0'] + s)[..|s|] == ['0'] + init;
      LeadingZeroValue(init, base);
    } else {
      assert (['0'] + s)[..0] == [];
    }
  }

  /** `int(str(n)) == n`, also with whitespace around the digits, for every n
      whose decimal text is within the conversion limit; a longer numeral is
      refused. */
  lemma ParseIntToString(n: int, before: string, after: string)
    requires forall t :: 0 <= t < |before| ==> IntSpace(before[t])
    requires forall t :: 0 <= t < |after| ==> IntSpace(after[t])
    ensures ParseInt(before + IntToString(n) + after) == if StrFits(n) then Some(n) else None
  {
    IntToStringEnds(n);
    IntStripPadded(before, IntToString(n), after);
    ParseSignedToString(n);
  }

  /** str(n) starts and ends with a character `int()` does not skip. */
  lemma IntToStringEnds(n: int)
    ensures var s := IntToString(n);
      |s| >= 1 && !IntSpace(s[0]) && !IntSpace(s[|s| - 1])
  {
    var m := if n < 0 then -n else n;
    ToDigitsValue(m, 10);
    var ds := ToDigits(m, 10);
    var s := IntToString(n);
    DigitNotSpace(ds[0]);
    DigitNotSpace(ds[|ds| - 1]);
    if n < 0 {
      assert s[|s| - 1] == ds[|ds| - 1];
    }
  }

  /** A decimal digit is neither whitespace nor a sign. */
  lemma DigitNotSpace(c: char)
    requires CharValue(c) < 10
    ensures !IntSpace(c) && c != '-' && c != '+'
  {
  }

  /** The sign-and-digits reader reads str(n) back as n, within the limit. */
  lemma ParseSignedToString(n: int)
    ensures ParseSigned(IntToString(n)) == if StrFits(n) then Some(n) else None
  {
    var m := if n < 0 then -n else n;
    ToDigitsValue(m, 10);
    var ds := ToDigits(m, 10);
    assert CharValue(ds[0]) < 10;
    if n < 0 {
      ParseNegative(ds, n);
    }
  }

  lemma ParseNegative(ds: string, n: int)
    requires n < 0 && ds == ToDigits(-n, 10)
    requires AllDigits(ds, 10) && Value(ds, 10) == -n
    ensures ParseSigned(IntToString(n)) == if |ds| <= MaxStrDigits then Some(n) else None
  {
    var t := IntToString(n);
    assert t[0] == '-' && t[1..] == ds;
  }
}
