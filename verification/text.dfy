/**
 Python string primitives the color processor relies on: `str.split(sep)`,
 `str.rstrip(chars)`, the substring test `pat in s`, and the whitespace class
 `\s` of a regex.
 Strings are sequences of Unicode scalar values, as Python's `str` is.

 The functions here are kept free of quantified postconditions, because they
 are unfolded inside every parse; what they compute is stated by the lemmas
 next to them.
 */
module Text {

  /** Python's `str.isspace()`; the same class is `\s` in a `str` regex. */
  predicate IsSpace(c: char) {
    || c == ' '
    || '\t' <= c <= '\r'
    || '\U{1c}' <= c <= '\U{1f}'
    || c == '\U{85}'
    || c == '\U{a0}'
    || c == '\U{1680}'
    || '\U{2000}' <= c <= '\U{200a}'
    || c == '\U{2028}'
    || c == '\U{2029}'
    || c == '\U{202f}'
    || c == '\U{205f}'
    || c == '\U{3000}'
  }

  /** Every character of s[i..j] is whitespace. */
  ghost predicate AllSpace(s: string, i: nat, j: nat)
    requires i <= j <= |s|
  {
    forall t :: i <= t < j ==> IsSpace(s[t])
  }

  /** `sep.join(parts)`. */
  function Join(parts: seq<string>, sep: char): string
    requires |parts| >= 1
  {
    if |parts| == 1 then parts[0] else parts[0] + [sep] + Join(parts[1..], sep)
  }

  /** `s.split(sep)` with an explicit one-character separator. */
  function Split(s: string, sep: char): (parts: seq<string>)
    ensures |parts| >= 1
  {
    if |s| == 0 then [""]
    else
      var rest := Split(s[1..], sep);
      if s[0] == sep then [""] + rest
      else [[s[0]] + rest[0]] + rest[1..]
  }

  /** Split never returns a piece containing the separator, and joining the
      pieces back with the separator gives the original string. */
  lemma {:induction false} JoinSplit(s: string, sep: char)
    ensures forall k :: 0 <= k < |Split(s, sep)| ==> sep !in Split(s, sep)[k]
    ensures Join(Split(s, sep), sep) == s
  {
    if |s| > 0 {
      JoinSplit(s[1..], sep);
      var rest := Split(s[1..], sep);
      if s[0] == sep {
        assert ([""] + rest)[1..] == rest;
      } else {
        var parts := [[s[0]] + rest[0]] + rest[1..];
        assert parts[1..] == rest[1..];
        assert s == [s[0]] + s[1..];
        forall k | 0 <= k < |parts|
          ensures sep !in parts[k]
        {
          if k == 0 {
            assert forall t :: 0 <= t < |rest[0]| ==> parts[0][t + 1] == rest[0][t];
          } else {
            assert parts[k] == rest[k];
          }
        }
        if |rest| > 1 {
          assert rest == [rest[0]] + rest[1..];
        }
      }
    }
  }

  /** Joining never loses a separator and never invents one. */
  lemma {:induction false} JoinAppend(a: seq<string>, b: seq<string>, sep: char)
    requires |a| >= 1 && |b| >= 1
    ensures Join(a + b, sep) == Join(a, sep) + [sep] + Join(b, sep)
  {
    if |a| == 1 {
      assert (a + b)[1..] == b;
    } else {
      assert (a + b)[1..] == a[1..] + b;
      JoinAppend(a[1..], b, sep);
    }
  }

  /** Split undoes Join when no piece contains the separator. */
  lemma {:induction false} SplitJoin(parts: seq<string>, sep: char)
    requires |parts| >= 1
    requires forall k :: 0 <= k < |parts| ==> sep !in parts[k]
    ensures Split(Join(parts, sep), sep) == parts
  {
    if |parts| == 1 {
      SplitNoSep(parts[0], sep);
    } else {
      SplitJoin(parts[1..], sep);
      SplitPrefix(parts[0], Join(parts[1..], sep), sep);
      assert [parts[0]] + parts[1..] == parts;
    }
  }

  /** A string without the separator splits into itself. */
  lemma {:induction false} SplitNoSep(s: string, sep: char)
    requires sep !in s
    ensures Split(s, sep) == [s]
  {
    if |s| > 0 {
      assert sep !in s[1..] by {
        forall t | 0 <= t < |s[1..]| ensures s[1..][t] != sep {
          assert s[1..][t] == s[t + 1];
        }
      }
      SplitNoSep(s[1..], sep);
      assert [s[0]] + s[1..] == s;
    }
  }

  /** A separator-free piece followed by the separator becomes one more part. */
  lemma {:induction false} SplitPrefix(p: string, rest: string, sep: char)
    requires sep !in p
    ensures Split(p + [sep] + rest, sep) == [p] + Split(rest, sep)
  {
    if |p| == 0 {
      assert p + [sep] + rest == [sep] + rest;
      assert ([sep] + rest)[1..] == rest;
    } else {
      var s := p + [sep] + rest;
      assert s[1..] == p[1..] + [sep] + rest;
      assert sep !in p[1..] by {
        forall t | 0 <= t < |p[1..]| ensures p[1..][t] != sep {
          assert p[1..][t] == p[t + 1];
        }
      }
      SplitPrefix(p[1..], rest, sep);
      assert [p[0]] + p[1..] == p;
    }
  }

  /** Every character of a piece is a character of the joined text. */
  lemma {:induction false} InJoin(parts: seq<string>, sep: char, k: nat, c: char)
    requires k < |parts| && c in parts[k]
    ensures c in Join(parts, sep)
  {
    if k > 0 {
      InJoin(parts[1..], sep, k - 1, c);
    }
  }

  /** Text glued to the end of the last piece ends up at the end of the join. */
  lemma {:induction false} JoinExtendLast(parts: seq<string>, w: string, sep: char)
    requires |parts| >= 1
    ensures Join(parts[..|parts| - 1] + [parts[|parts| - 1] + w], sep) == Join(parts, sep) + w
  {
    var n := |parts|;
    var grown := parts[..n - 1] + [parts[n - 1] + w];
    if n == 1 {
      assert grown == [parts[0] + w];
    } else {
      var tail := parts[1..];
      JoinExtendLast(tail, w, sep);
      assert grown[0] == parts[0];
      assert grown[1..] == tail[..|tail| - 1] + [tail[|tail| - 1] + w];
      ConcatAssoc(parts[0] + [sep], Join(tail, sep), w);
    }
  }

  /** Associativity of concatenation, in the groupings the proofs use; stated
      once here so that each proof step regroups only what it needs. */
  lemma ConcatAssoc<T>(a: seq<T>, b: seq<T>, c: seq<T>)
    ensures (a + b) + c == a + (b + c)
  {
  }

  lemma ConcatAssoc5<T>(t: seq<T>, a: seq<T>, b: seq<T>, c: seq<T>, d: seq<T>)
    ensures t + a + b + c + d == t + (a + b + c + d)
  {
  }

  /** Four lines, each followed by a separator, regrouped. */
  lemma LinesAssoc<T>(cl: seq<T>, ob: seq<T>, pl: seq<T>, cb: seq<T>, nl: seq<T>)
    ensures (cl + nl) + (ob + nl) + (pl + nl) + (cb + nl) == cl + nl + ob + nl + pl + nl + (cb + nl)
  {
  }

  lemma LinesAssocEmpty<T>(cl: seq<T>, ob: seq<T>, cb: seq<T>, nl: seq<T>)
    ensures (cl + nl) + (ob + nl) + [] + (cb + nl) == cl + nl + ob + nl + (cb + nl)
  {
  }

  /** pat occurs in s starting at index i. */
  ghost predicate OccursAt(s: string, pat: string, i: int) {
    0 <= i <= |s| - |pat| && s[i..i + |pat|] == pat
  }

  /** `pat in s` for strings, by trying every start position from the left. */
  function Contains(s: string, pat: string): bool
    decreases |s|
  {
    if |s| < |pat| then false
    else if s[..|pat|] == pat then true
    else Contains(s[1..], pat)
  }

  /** Contains is true iff pat occurs at some position of s. */
  lemma {:induction false} ContainsIff(s: string, pat: string)
    ensures Contains(s, pat) <==> exists i :: OccursAt(s, pat, i)
    decreases |s|
  {
    if |s| < |pat| {
    } else if s[..|pat|] == pat {
      assert OccursAt(s, pat, 0);
    } else {
      ContainsIff(s[1..], pat);
      if Contains(s, pat) {
        var i :| OccursAt(s[1..], pat, i);
        assert s[i + 1..i + 1 + |pat|] == s[1..][i..i + |pat|];
        assert OccursAt(s, pat, i + 1);
      }
      if exists i :: OccursAt(s, pat, i) {
        var i :| OccursAt(s, pat, i);
        assert i != 0;
        assert s[1..][i - 1..i - 1 + |pat|] == s[i..i + |pat|];
        assert OccursAt(s[1..], pat, i - 1);
      }
    }
  }

  /** `s.rstrip(chars)`: the longest prefix of s that does not end in one of chars. */
  function RStrip(s: string, chars: set<char>): (r: string)
    ensures |r| <= |s| && r == s[..|r|]
    ensures |r| == 0 || r[|r| - 1] !in chars
    ensures forall t :: |r| <= t < |s| ==> s[t] in chars
  {
    if |s| > 0 && s[|s| - 1] in chars then
      var r := RStrip(s[..|s| - 1], chars);
      assert s[..|s| - 1][..|r|] == s[..|r|];
      r
    else s
  }

  /** Stripping a tail made only of stripped characters returns the text before it,
      provided that text ends in a kept character. */
  lemma {:induction false} RStripTail(x: string, tail: string, chars: set<char>)
    requires |x| > 0 && x[|x| - 1] !in chars
    requires forall t :: 0 <= t < |tail| ==> tail[t] in chars
    ensures RStrip(x + tail, chars) == x
  {
    if |tail| > 0 {
      assert (x + tail)[..|x + tail| - 1] == x + tail[..|tail| - 1];
      RStripTail(x, tail[..|tail| - 1], chars);
    } else {
      assert x + tail == x;
    }
  }

  /** Index of the first non-whitespace character of s at or after i (|s| if none). */
  function SkipSpace(s: string, i: nat): (j: nat)
    requires i <= |s|
    ensures i <= j <= |s|
    decreases |s| - i
  {
    if i < |s| && IsSpace(s[i]) then SkipSpace(s, i + 1) else i
  }

  /** SkipSpace stops at the end of the whitespace run that starts at i. */
  lemma {:induction false} SkipSpaceRun(s: string, i: nat)
    requires i <= |s|
    ensures AllSpace(s, i, SkipSpace(s, i))
    ensures SkipSpace(s, i) == |s| || !IsSpace(s[SkipSpace(s, i)])
    decreases |s| - i
  {
    if i < |s| && IsSpace(s[i]) {
      SkipSpaceRun(s, i + 1);
    }
  }

  /** A whitespace run from i reaches at least to every j up to which s[i..j]
      is all whitespace, and stops exactly at a non-whitespace character. */
  lemma {:induction false} SkipSpaceCovers(s: string, i: nat, j: nat)
    requires i <= j <= |s| && AllSpace(s, i, j)
    ensures j <= SkipSpace(s, i)
    ensures j < |s| && !IsSpace(s[j]) ==> SkipSpace(s, i) == j
    decreases j - i
  {
    if i < j {
      SkipSpaceCovers(s, i + 1, j);
    }
  }
}
