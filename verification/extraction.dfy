/**
 The extraction loop of `process_test_lua`: for each key i in 1..50 the
 content is searched for the pattern `{i}\s+:\s+([^\n]+)`, and when it is found
 the captured group is parsed into points and stored under i.

 The search is modelled in two layers. MatchSpan says declaratively which
 spans of the text the pattern can match; TryAt and Search are the matcher,
 which tries positions from left to right and, at a position, backtracks the
 greedy `\s+` before the colon, the greedy `\s+` after it and the greedy
 `[^\n]+`. The lemmas show that the matcher finds a match exactly when the
 pattern can match, at the leftmost position where it can, with the span a
 backtracking engine tries first.
 */
module Extraction {
  import opened Wrappers
  import opened Text
  import opened Numbers
  import opened ColorParser
  import opened LuaGen

  /** No character of s[i..j] is a newline. */
  ghost predicate NoNewline(s: string, i: nat, j: nat)
    requires i <= j <= |s|
  {
    forall t :: i <= t < j ==> s[t] != '\n'
  }

  /** One way for `{key}\s+:\s+([^\n]+)` to match s at pos: the characters of
      key at pos, whitespace up to the colon at index colon, at least one
      whitespace character after it up to start, and the captured group
      s[start..end], non-empty and without a newline. */
  ghost predicate MatchSpan(s: string, key: string, pos: nat, colon: nat, start: nat, end: nat) {
    && pos + |key| < colon < start < end <= |s|
    && s[pos..pos + |key|] == key
    && AllSpace(s, pos + |key|, colon)
    && s[colon] == ':'
    && colon + 1 < start
    && AllSpace(s, colon + 1, start)
    && NoNewline(s, start, end)
  }

  ghost predicate MatchesAt(s: string, key: string, pos: nat) {
    exists colon, start, end :: MatchSpan(s, key, pos, colon, start, end)
  }

  /** The pattern for key occurs somewhere in s. */
  ghost predicate Matches(s: string, key: string) {
    exists pos :: MatchesAt(s, key, pos)
  }

  /** The order in which a backtracking engine tries the spans at one
      position: a later start of the group first (the `\s+` before it is
      greedy), and for the same start a longer group first. */
  predicate TriedFirst(start: nat, end: nat, start': nat, end': nat) {
    start' < start || (start' == start && end' <= end)
  }

  /** A match: where it starts, where its colon is, and the captured group
      s[start..end]. */
  datatype Match = Match(pos: nat, colon: nat, start: nat, end: nat)

  /** The end of the run of non-newline characters that starts at i. */
  function LineEnd(s: string, i: nat): (j: nat)
    requires i <= |s|
    ensures i <= j <= |s|
    decreases |s| - i
  {
    if i < |s| && s[i] != '\n' then LineEnd(s, i + 1) else i
  }

  lemma {:induction false} LineEndRun(s: string, i: nat)
    requires i <= |s|
    ensures NoNewline(s, i, LineEnd(s, i))
    ensures LineEnd(s, i) == |s| || s[LineEnd(s, i)] == '\n'
    decreases |s| - i
  {
    if i < |s| && s[i] != '\n' {
      LineEndRun(s, i + 1);
    }
  }

  lemma {:induction false} LineEndCovers(s: string, i: nat, j: nat)
    requires i <= j <= |s| && NoNewline(s, i, j)
    ensures j <= LineEnd(s, i)
    decreases j - i
  {
    if i < j {
      LineEndCovers(s, i + 1, j);
    }
  }

  /** Backtracking of the `\s+` after the colon, which has taken s[lo..hi]:
      the largest start in lo+1..hi at which `[^\n]+` can match. */
  function BackOff(s: string, lo: nat, hi: nat): (r: Option<nat>)
    requires hi <= |s|
    ensures r.Some? ==> lo < r.value <= hi
    decreases hi
  {
    if hi <= lo then None
    else if hi < |s| && s[hi] != '\n' then Some(hi)
    else BackOff(s, lo, hi - 1)
  }

  /** BackOff returns a start at which the group can begin, and no later one
      is possible. */
  lemma {:induction false} BackOffSpec(s: string, lo: nat, hi: nat)
    requires hi <= |s|
    ensures BackOff(s, lo, hi).Some? ==> var b := BackOff(s, lo, hi).value; b < |s| && s[b] != '\n'
    ensures forall b :: lo < b <= hi && b < |s| && s[b] != '\n' ==>
      BackOff(s, lo, hi).Some? && b <= BackOff(s, lo, hi).value
    decreases hi
  {
    if hi > lo && !(hi < |s| && s[hi] != '\n') {
      BackOffSpec(s, lo, hi - 1);
    }
  }

  /** One attempt of the matcher at pos. */
  function TryAt(s: string, key: string, pos: nat): (r: Option<Match>)
    requires pos <= |s|
    ensures r.Some? ==> r.value.pos == pos && r.value.start <= r.value.end <= |s|
  {
    var k := pos + |key|;
    if k > |s| || s[pos..k] != key then None
    else
      var colon := SkipSpace(s, k);
      if colon == k || colon == |s| || s[colon] != ':' then None
      else
        match BackOff(s, colon + 1, SkipSpace(s, colon + 1))
        case None => None
        case Some(start) => Some(Match(pos, colon, start, LineEnd(s, start)))
  }

  /** A match the matcher reports is a way for the pattern to match. */
  lemma TryAtSound(s: string, key: string, pos: nat)
    requires pos <= |s| && TryAt(s, key, pos).Some?
    ensures var r := TryAt(s, key, pos).value;
      MatchSpan(s, key, pos, r.colon, r.start, r.end)
  {
    var r := TryAt(s, key, pos).value;
    var k := pos + |key|;
    SkipSpaceRun(s, k);
    SkipSpaceRun(s, r.colon + 1);
    BackOffSpec(s, r.colon + 1, SkipSpace(s, r.colon + 1));
    LineEndRun(s, r.start);
    assert AllSpace(s, r.colon + 1, r.start);
  }

  /** Any way for the pattern to match at pos is found by the matcher, which
      reports the same colon and a span it tries no later. */
  lemma TryAtComplete(s: string, key: string, pos: nat, colon: nat, start: nat, end: nat)
    requires MatchSpan(s, key, pos, colon, start, end)
    ensures pos <= |s| && TryAt(s, key, pos).Some?
    ensures var r := TryAt(s, key, pos).value;
      r.colon == colon && TriedFirst(r.start, r.end, start, end)
  {
    var k := pos + |key|;
    SkipSpaceCovers(s, k, colon);
    var run := SkipSpace(s, colon + 1);
    SkipSpaceCovers(s, colon + 1, start);
    assert s[start] != '\n';
    BackOffSpec(s, colon + 1, run);
    var b := BackOff(s, colon + 1, run).value;
    if b == start {
      LineEndCovers(s, start, end);
    }
  }

  /** The matcher succeeds at pos exactly when the pattern can match there. */
  lemma TryAtIff(s: string, key: string, pos: nat)
    requires pos <= |s|
    ensures TryAt(s, key, pos).Some? <==> MatchesAt(s, key, pos)
  {
    if TryAt(s, key, pos).Some? {
      TryAtSound(s, key, pos);
      var r := TryAt(s, key, pos).value;
      assert MatchSpan(s, key, pos, r.colon, r.start, r.end);
    }
    if MatchesAt(s, key, pos) {
      var colon, start, end :| MatchSpan(s, key, pos, colon, start, end);
      TryAtComplete(s, key, pos, colon, start, end);
    }
  }

  /** `re.search`: the positions from `from` on are tried in order, up to and
      including the end of the text. */
  function Search(s: string, key: string, from: nat): (r: Option<Match>)
    requires from <= |s|
    ensures r.Some? ==> from <= r.value.pos <= |s| && r.value.start <= r.value.end <= |s|
    decreases |s| - from
  {
    match TryAt(s, key, from)
    case Some(r) => Some(r)
    case None => if from == |s| then None else Search(s, key, from + 1)
  }

  /** Search reports the attempt at the first position from `from` on where
      the matcher succeeds, and nothing when there is none. */
  lemma {:induction false} SearchFirst(s: string, key: string, from: nat)
    requires from <= |s|
    ensures Search(s, key, from).Some? ==>
      var r := Search(s, key, from).value;
      && TryAt(s, key, r.pos) == Some(r)
      && forall p :: from <= p < r.pos ==> TryAt(s, key, p).None?
    ensures Search(s, key, from).None? ==> forall p :: from <= p <= |s| ==> TryAt(s, key, p).None?
    decreases |s| - from
  {
    if TryAt(s, key, from).None? && from < |s| {
      SearchFirst(s, key, from + 1);
      assert Search(s, key, from) == Search(s, key, from + 1);
      if Search(s, key, from).Some? {
        var r := Search(s, key, from).value;
        forall p | from <= p < r.pos
          ensures TryAt(s, key, p).None?
        {
          if p == from {
          }
        }
      } else {
        forall p | from <= p <= |s|
          ensures TryAt(s, key, p).None?
        {
          if p == from {
          }
        }
      }
    }
  }

  /** The pattern cannot match past the end of the text. */
  lemma MatchesAtBounded(s: string, key: string, pos: nat)
    requires MatchesAt(s, key, pos)
    ensures pos < |s|
  {
  }

  /** What the search finds: a match exactly when the pattern occurs, at the
      leftmost position where it can match, with the span a backtracking
      engine tries first there. */
  lemma SearchSpec(s: string, key: string)
    ensures Search(s, key, 0).Some? <==> Matches(s, key)
    ensures Search(s, key, 0).Some? ==>
      var r := Search(s, key, 0).value;
      && MatchSpan(s, key, r.pos, r.colon, r.start, r.end)
      && (forall p :: 0 <= p < r.pos ==> !MatchesAt(s, key, p))
      && (forall colon, start, end :: MatchSpan(s, key, r.pos, colon, start, end) ==>
            colon == r.colon && TriedFirst(r.start, r.end, start, end))
  {
    SearchFirst(s, key, 0);
    if Search(s, key, 0).Some? {
      var r := Search(s, key, 0).value;
      TryAtSound(s, key, r.pos);
      assert MatchesAt(s, key, r.pos);
      forall p | 0 <= p < r.pos
        ensures !MatchesAt(s, key, p)
      {
        TryAtIff(s, key, p);
      }
      forall colon, start, end | MatchSpan(s, key, r.pos, colon, start, end)
        ensures colon == r.colon && TriedFirst(r.start, r.end, start, end)
      {
        TryAtComplete(s, key, r.pos, colon, start, end);
      }
    } else {
      forall p | MatchesAt(s, key, p)
        ensures false
      {
        MatchesAtBounded(s, key, p);
        TryAtIff(s, key, p);
      }
    }
  }

  /** `pattern_match.group(1)` for the search for key i, if it succeeds. */
  function KeyGroup(content: string, i: int): Option<string> {
    match Search(content, IntToString(i), 0)
    case None => None
    case Some(r) => Some(content[r.start..r.end])
  }

  /** The map a loop over the keys FirstKey..i-1 builds when key k is stored
      with the points of group(k) whenever group(k) is found. */
  function Collect(group: int -> Option<string>, i: int): Patterns
    decreases i - FirstKey
  {
    if i <= FirstKey then map[]
    else
      var below := Collect(group, i - 1);
      match group(i - 1)
      case None => below
      case Some(g) => below[i - 1 := ColorPoints(g)]
  }

  /** Collect holds exactly the keys in FirstKey..i-1 whose group is found,
      each with the points of its own group. */
  lemma {:induction false} CollectSpec(group: int -> Option<string>, i: int, k: int)
    ensures k in Collect(group, i) <==> FirstKey <= k < i && group(k).Some?
    ensures k in Collect(group, i) ==> Collect(group, i)[k] == ColorPoints(group(k).value)
    decreases i - FirstKey
  {
    if i > FirstKey {
      CollectSpec(group, i - 1, k);
    }
  }

  /** The map the extraction loop has built before key i. */
  function PatternsBelow(content: string, i: int): Patterns {
    Collect(k => KeyGroup(content, k), i)
  }

  /** The patterns map of `process_test_lua`. */
  function ExtractPatterns(content: string): Patterns {
    PatternsBelow(content, LastKey + 1)
  }

  /** The map built before key i holds exactly the keys in FirstKey..i-1
      whose search succeeds, each with the points of its own group. */
  lemma PatternsBelowSpec(content: string, i: int, k: int)
    ensures k in PatternsBelow(content, i) <==> FirstKey <= k < i && KeyGroup(content, k).Some?
    ensures k in PatternsBelow(content, i) ==>
      PatternsBelow(content, i)[k] == ColorPoints(KeyGroup(content, k).value)
  {
    CollectSpec(k => KeyGroup(content, k), i, k);
  }

  /** `process_test_lua` without the file system: the extraction loop, the
      generated code and the number of patterns it reports. */
  method ProcessTestLua(content: string) returns (code: string, count: nat)
    ensures code == LuaCode(ExtractPatterns(content))
    ensures count == |ExtractPatterns(content)|
  {
    var patterns: Patterns := map[];
    for i := FirstKey to LastKey + 1
      invariant patterns == PatternsBelow(content, i)
    {
      var found := KeyGroup(content, i);
      if found.Some? {
        var points := ParseColorData(found.value);
        patterns := patterns[i := points];
      }
    }
    code := GenerateLuaCode(patterns);
    count := |patterns|;
  }

  /** A key is in the map exactly when it is in 1..50 and its pattern occurs
      in the content; its points are those of the group the search captures. */
  lemma ExtractKeys(content: string, i: int)
    ensures i in ExtractPatterns(content) <==> FirstKey <= i <= LastKey && Matches(content, IntToString(i))
    ensures i in ExtractPatterns(content) ==>
      Search(content, IntToString(i), 0).Some? &&
      var r := Search(content, IntToString(i), 0).value;
      ExtractPatterns(content)[i] == ColorPoints(content[r.start..r.end])
  {
    PatternsBelowSpec(content, LastKey + 1, i);
    SearchSpec(content, IntToString(i));
  }

  /** The group a search captures is one line: `[^\n]+` stops before a
      newline. */
  lemma CapturedOneLine(s: string, key: string)
    requires Search(s, key, 0).Some?
    ensures var r := Search(s, key, 0).value;
      r.start <= r.end <= |s| && '\n' !in s[r.start..r.end]
  {
    SearchSpec(s, key);
    var r := Search(s, key, 0).value;
    assert NoNewline(s, r.start, r.end);
    var group := s[r.start..r.end];
    forall t | 0 <= t < |group|
      ensures group[t] != '\n'
    {
      assert group[t] == s[r.start + t];
    }
  }

  /** Every entry written for the extracted map has the line layout of
      EntryLines: the captured group holds no newline, so neither does any
      colour parsed from it. */
  lemma ExtractedEntryLayout(content: string, k: int)
    requires k in ExtractPatterns(content)
    ensures Split(Entry(k, ExtractPatterns(content)[k]), '\n') == EntryLines(k, ExtractPatterns(content)[k])
  {
    ExtractKeys(content, k);
    var key := IntToString(k);
    CapturedOneLine(content, key);
    var r := Search(content, key, 0).value;
    ColorPointsOneLine(content[r.start..r.end]);
    EntryLayout(k, ExtractPatterns(content)[k]);
  }

  /** The set of keys 1..50 whose pattern occurs. */
  ghost function FoundKeys(content: string): set<int> {
    set i | FirstKey <= i <= LastKey && Matches(content, IntToString(i))
  }

  /** The reported count is the number of keys whose pattern occurs, at most 50. */
  lemma CountSpec(content: string)
    ensures |ExtractPatterns(content)| == |FoundKeys(content)| <= LastKey
  {
    var e := ExtractPatterns(content);
    var range := Interval(FirstKey, LastKey + 1);
    FoundKeysExact(content);
    IntervalSpec(FirstKey, LastKey + 1);
    forall i | i in e.Keys
      ensures i in range
    {
      PatternsBelowSpec(content, LastKey + 1, i);
    }
    SubsetCard(e.Keys, range);
    assert |e| == |e.Keys|;
  }

  lemma FoundKeysExact(content: string)
    ensures ExtractPatterns(content).Keys == FoundKeys(content)
  {
    forall i
      ensures i in ExtractPatterns(content) <==> i in FoundKeys(content)
    {
      ExtractKeys(content, i);
    }
  }

  /** The integers lo..hi-1. */
  ghost function Interval(lo: int, hi: int): set<int>
    decreases hi - lo
  {
    if hi <= lo then {} else Interval(lo, hi - 1) + {hi - 1}
  }

  lemma {:induction false} IntervalSpec(lo: int, hi: int)
    requires lo <= hi
    ensures forall i :: i in Interval(lo, hi) <==> lo <= i < hi
    ensures |Interval(lo, hi)| == hi - lo
    decreases hi - lo
  {
    if lo < hi {
      IntervalSpec(lo, hi - 1);
    }
  }

  lemma {:induction false} SubsetCard<T>(a: set<T>, b: set<T>)
    requires a <= b
    ensures |a| <= |b|
    decreases |a|
  {
    if a != {} {
      var x :| x in a;
      SubsetCard(a - {x}, b - {x});
    }
  }

  /** The key is matched as plain text, with nothing required before it: the
      line "11 : 7,8,9" satisfies the pattern for key 1, at the second digit. */
  lemma KeyInsideLongerNumber(s: string)
    requires s == "11 : 7,8,9"
    ensures MatchSpan(s, IntToString(1), 1, 3, 5, 10)
    ensures Matches(s, IntToString(1))
  {
    assert IntToString(1) == "1";
    assert s[1..2] == "1";
    assert MatchSpan(s, IntToString(1), 1, 3, 5, 10);
    assert MatchesAt(s, IntToString(1), 1);
  }

  /** End to end: in "1 : 1,2,255" only key 1 is found. The digits 2, 5 and
      25 inside the payload occur, but not before whitespace; the map holds
      the one point of the payload, under key 1. */
  lemma ExampleContent(content: string)
    requires content == "1 : 1,2,255"
    ensures ExtractPatterns(content) == map[1 := [Point(1, 2, "0x0000FF")]]
    ensures |ExtractPatterns(content)| == 1
  {
    ExampleKeys(content);
    ExampleValue(content);
    var e := ExtractPatterns(content);
    assert e == map[1 := [Point(1, 2, "0x0000FF")]];
  }

  lemma ExampleKeys(content: string)
    requires content == "1 : 1,2,255"
    ensures ExtractPatterns(content).Keys == {1}
  {
    var e := ExtractPatterns(content);
    forall k | k in e
      ensures k == 1
    {
      ExtractKeys(content, k);
      ExampleOnlyKeyOne(content, k);
    }
    ExtractKeys(content, 1);
    ExampleKeyOne(content);
  }

  lemma ExampleValue(content: string)
    requires content == "1 : 1,2,255"
    ensures 1 in ExtractPatterns(content) && ExtractPatterns(content)[1] == [Point(1, 2, "0x0000FF")]
  {
    ExtractKeys(content, 1);
    ExampleKeyOne(content);
    ExamplePayload(content);
    ExampleSingleGroup(content[4..11]);
  }

  lemma ExamplePayload(content: string)
    requires content == "1 : 1,2,255"
    ensures content[4..11] == "1,2,255"
  {
  }

  /** In "1 : 1,2,255" a key's text must end right before index 1 or 3, the
      only whitespace; before index 3 stands the colon, which ends no key. */
  lemma ExampleOnlyKeyOne(content: string, k: int)
    requires content == "1 : 1,2,255"
    requires FirstKey <= k <= LastKey && Matches(content, IntToString(k))
    ensures k == 1
  {
    ExampleSpaces(content);
    var key := IntToString(k);
    var pos: nat :| MatchesAt(content, key, pos);
    var colon: nat, start: nat, end: nat :| MatchSpan(content, key, pos, colon, start, end);
    var e := pos + |key|;
    assert AllSpace(content, e, colon) && e < colon;
    assert IsSpace(content[e]);
    KeyLastDigit(k);
    assert key[|key| - 1] == content[e - 1];
    assert e == 1 && pos == 0 && |key| == 1;
    assert key[0] == content[0];
    assert key == "1";
    assert Pow(10, 2) == 100;
    DigitsWidth(k, 10, 2);
    ParseSignedToString(k);
  }

  /** The characters of the example content that the proofs look at. */
  lemma ExampleSpaces(content: string)
    requires content == "1 : 1,2,255"
    ensures |content| == 11 && content[0] == '1' && content[2] == ':'
    ensures forall e :: 0 <= e < |content| && IsSpace(content[e]) ==> e == 1 || e == 3
  {
    assert content == ['1', ' ', ':', ' ', '1', ',', '2', ',', '2', '5', '5'];
  }

  /** The last character of a key's text is a decimal digit. */
  lemma KeyLastDigit(k: int)
    requires k >= 1
    ensures CharValue(IntToString(k)[|IntToString(k)| - 1]) < 10
  {
    ToDigitsValue(k, 10);
  }

  /** The search for key 1 in "1 : 1,2,255" captures "1,2,255". */
  lemma ExampleKeyOne(content: string)
    requires content == "1 : 1,2,255"
    ensures Matches(content, IntToString(1))
    ensures Search(content, IntToString(1), 0).Some?
    ensures var r := Search(content, IntToString(1), 0).value;
      r.start == 4 && r.end == 11
  {
    var key := IntToString(1);
    assert key == "1";
    assert MatchSpan(content, key, 0, 2, 4, 11);
    assert MatchesAt(content, key, 0);
    SearchSpec(content, key);
    var r := Search(content, key, 0).value;
    assert r.pos == 0 && r.colon == 2;
    assert TriedFirst(r.start, r.end, 4, 11);
    assert IsSpace(content[3]) && !IsSpace(content[4]);
    assert r.start == 4;
  }
}
