/**
 Parsing of one payload line into colour points (`parse_color_data`): the line
 is split on commas and read in non-overlapping groups of three tokens
 `x, y, color`; a group whose tokens do not parse contributes nothing, and a
 trailing group of one or two tokens is never read.
 */
module ColorParser {
  import opened Wrappers
  import opened Text
  import opened Numbers

  datatype Point = Point(x: int, y: int, color: string)

  /** The marker that makes a colour token be kept as written. */
  const HexMarker := "0x"

  /** Colour normalisation: a token containing "0x" anywhere is kept verbatim;
      any other token must be an integer and becomes "0x" followed by its
      zero-padded upper-case hexadecimal digits. */
  function NormalizeColor(token: string): Option<string> {
    if Contains(token, HexMarker) then Some(token)
    else
      match ParseInt(token)
      case None => None
      case Some(n) => Some(HexMarker + FormatHex06(n))
  }

  /** A colour token with "0x" at any position, not only at the front, is kept
      exactly as written. */
  lemma VerbatimHexColor(token: string, i: nat)
    requires OccursAt(token, HexMarker, i)
    ensures NormalizeColor(token) == Some(token)
  {
    ContainsIff(token, HexMarker);
  }

  /** A decimal colour n in 0..0xFFFFFF becomes "0x" and exactly six upper-case
      hexadecimal digits denoting n; a larger n keeps all its digits, so the
      colour is longer than eight characters and still denotes n. */
  lemma DecimalColor(token: string, n: int)
    requires forall i :: !OccursAt(token, HexMarker, i)
    requires ParseInt(token) == Some(n) && n >= 0
    ensures NormalizeColor(token).Some?
    ensures var c := NormalizeColor(token).value;
      && |c| >= 8 && c[..2] == HexMarker
      && AllDigits(c[2..], 16) && Value(c[2..], 16) == n
      && (|c| == 8 <==> n <= 0xFFFFFF)
  {
    ContainsIff(token, HexMarker);
    FormatHex06Value(n);
    var c := NormalizeColor(token).value;
    assert c[2..] == FormatHex06(n);
  }

  /** A negative decimal colour keeps its sign after the marker: "0x-" and the
      digits of -n, zero-padded so that sign and digits take exactly six
      characters when -n <= 0xFFFFF; a larger -n keeps all its digits, with no
      leading zero. */
  lemma NegativeDecimalColor(token: string, n: int)
    requires forall i :: !OccursAt(token, HexMarker, i)
    requires ParseInt(token) == Some(n) && n < 0
    ensures NormalizeColor(token).Some?
    ensures var c := NormalizeColor(token).value;
      && |c| >= 8 && c[..3] == "0x-"
      && AllDigits(c[3..], 16) && Value(c[3..], 16) == -n
      && (|c| == 8 <==> -n <= 0xFFFFF)
      && (|c| > 8 ==> c[3] != '0')
  {
    ContainsIff(token, HexMarker);
    FormatHex06Value(n);
    var f := FormatHex06(n);
    var c := HexMarker + f;
    assert c[..3] == "0x-";
    assert c[3..] == f[1..];
    if |c| > 8 {
      assert c[3] == f[1];
    }
  }

  /** A colour token that has no "0x" and is not an integer makes its group fail. */
  lemma BadColor(token: string)
    requires forall i :: !OccursAt(token, HexMarker, i)
    requires ParseInt(token).None?
    ensures NormalizeColor(token).None?
  {
    ContainsIff(token, HexMarker);
  }

  /** A normalised colour is one line when its token is. */
  lemma NormalizeColorOneLine(token: string)
    requires '\n' !in token && NormalizeColor(token).Some?
    ensures '\n' !in NormalizeColor(token).value
  {
    if !Contains(token, HexMarker) {
      var n := ParseInt(token).value;
      FormatHex06OneLine(n);
    }
  }

  /** The three tokens `x, y, color` of one group, as read from the line. */
  datatype Triple = Triple(xs: string, ys: string, cs: string)

  /** One group; None is the skipped ValueError branch. */
  function ParseTriple(t: Triple): Option<Point> {
    var x :- ParseInt(t.xs);
    var y :- ParseInt(t.ys);
    var color :- NormalizeColor(t.cs);
    Some(Point(x, y, color))
  }

  /** The fields of a parsed group are the parses of its tokens. */
  lemma TripleFields(t: Triple)
    requires ParseTriple(t).Some?
    ensures var p := ParseTriple(t).value;
      ParseInt(t.xs) == Some(p.x) && ParseInt(t.ys) == Some(p.y) && NormalizeColor(t.cs) == Some(p.color)
  {
  }

  /** The group of tokens parts[3j], parts[3j+1], parts[3j+2]. */
  function TripleAt(parts: seq<string>, j: nat): Triple
    requires 3 * j + 2 < |parts|
  {
    Triple(parts[3 * j], parts[3 * j + 1], parts[3 * j + 2])
  }

  /** The whole groups of parts, in order; a trailing one or two tokens form
      no group. */
  function Triples(parts: seq<string>): (ts: seq<Triple>)
    ensures 3 * |ts| <= |parts| < 3 * |ts| + 3
  {
    if |parts| < 3 then []
    else [Triple(parts[0], parts[1], parts[2])] + Triples(parts[3..])
  }

  /** The values f gives to the elements of xs, in order, leaving out the
      elements for which it gives None. */
  function FilterMap<A, B>(f: A -> Option<B>, xs: seq<A>): (ys: seq<B>)
    ensures |ys| <= |xs|
  {
    if |xs| == 0 then []
    else (if f(xs[0]).Some? then [f(xs[0]).value] else []) + FilterMap(f, xs[1..])
  }

  /** The points of the whole groups of parts that parse, in order. */
  function ParseGroups(parts: seq<string>): seq<Point> {
    FilterMap(ParseTriple, Triples(parts))
  }

  /** What `parse_color_data(line)` returns. */
  function ColorPoints(line: string): seq<Point> {
    ParseGroups(Split(line, ','))
  }

  /** The loop of `parse_color_data`: i runs over 0, 3, 6, ... while a whole
      group remains, so the three indices read are always in range; the
      result has at most one point per whole group. */
  method ParseColorData(line: string) returns (points: seq<Point>)
    ensures points == ParseGroups(Split(line, ','))
    ensures 3 * |points| <= |Split(line, ',')|
  {
    var parts := Split(line, ',');
    points := [];
    var i := 0;
    while i < |parts| - 2
      invariant 0 <= i <= |parts| && i % 3 == 0
      invariant points == ParseGroups(parts[..i])
    {
      points := ReadGroup(parts, i, points);
      i := i + 3;
    }
    LoopExit(parts, i);
  }

  /** One iteration: the group at i is parsed and its point, if any, appended. */
  method ReadGroup(parts: seq<string>, i: nat, points: seq<Point>) returns (next: seq<Point>)
    requires i % 3 == 0 && i + 3 <= |parts|
    requires points == ParseGroups(parts[..i])
    ensures next == ParseGroups(parts[..i + 3])
  {
    var point := ParseTriple(Triple(parts[i], parts[i + 1], parts[i + 2]));
    ReadOneGroup(parts, i);
    next := points;
    if point.Some? {
      next := points + [point.value];
    }
  }

  /** When the loop stops, the groups read are all the whole groups. */
  lemma LoopExit(parts: seq<string>, i: nat)
    requires i % 3 == 0 && |parts| - 2 <= i <= |parts|
    ensures ParseGroups(parts[..i]) == ParseGroups(parts)
    ensures 3 * |ParseGroups(parts)| <= |parts|
  {
    TrailingPartialGroupIgnored(parts[..i], parts[i..]);
    assert parts[..i] + parts[i..] == parts;
  }

  /** Reading the group after the first j whole groups adds its point, if it
      parses, at the end. */
  lemma ReadOneGroup(parts: seq<string>, i: nat)
    requires i % 3 == 0 && i + 3 <= |parts|
    ensures var t := ParseTriple(Triple(parts[i], parts[i + 1], parts[i + 2]));
      ParseGroups(parts[..i + 3])
        == ParseGroups(parts[..i]) + (if t.Some? then [t.value] else [])
  {
    var j := i / 3;
    assert 3 * j == i;
    var t := Triple(parts[i], parts[i + 1], parts[i + 2]);
    assert TripleAt(parts, j) == t;
    TriplesSnoc(parts, j);
    FilterMapAppend(ParseTriple, Triples(parts[..i]), [t]);
    FilterMapSingle(ParseTriple, t);
  }

  /** Groups are formed independently: when the first part is a whole number
      of groups, the groups of a concatenation are those of each part. */
  lemma {:induction false} TriplesAppend(a: seq<string>, b: seq<string>)
    requires |a| % 3 == 0
    ensures Triples(a + b) == Triples(a) + Triples(b)
  {
    if |a| == 0 {
      assert a + b == b;
    } else {
      assert (a + b)[3..] == a[3..] + b;
      assert (a + b)[..3] == a[..3];
      TriplesAppend(a[3..], b);
    }
  }

  lemma TriplesCons(group: seq<string>, after: seq<string>)
    requires |group| == 3
    ensures Triples(group + after) == [Triple(group[0], group[1], group[2])] + Triples(after)
  {
    var ga := group + after;
    assert ga[0] == group[0] && ga[1] == group[1] && ga[2] == group[2];
    assert ga[3..] == after;
  }

  /** One more whole group read by the loop adds that group at the end. */
  lemma TriplesSnoc(parts: seq<string>, j: nat)
    requires 3 * j + 3 <= |parts|
    ensures Triples(parts[..3 * j + 3]) == Triples(parts[..3 * j]) + [TripleAt(parts, j)]
  {
    var i := 3 * j;
    var group := parts[i..i + 3];
    assert parts[..i + 3] == parts[..i] + group;
    TriplesAppend(parts[..i], group);
    TriplesCons(group, []);
    assert group + [] == group;
  }

  /** Triples(parts)[j] is the j-th group. */
  lemma {:induction false} TriplesAt(parts: seq<string>, j: nat)
    requires 3 * j + 2 < |parts|
    ensures j < |Triples(parts)| && Triples(parts)[j] == TripleAt(parts, j)
  {
    if j > 0 {
      var rest := parts[3..];
      TriplesAt(rest, j - 1);
      assert rest[3 * (j - 1)] == parts[3 * j];
      assert rest[3 * (j - 1) + 1] == parts[3 * j + 1];
      assert rest[3 * (j - 1) + 2] == parts[3 * j + 2];
    }
  }

  lemma {:induction false} FilterMapAppend<A, B>(f: A -> Option<B>, a: seq<A>, b: seq<A>)
    ensures FilterMap(f, a + b) == FilterMap(f, a) + FilterMap(f, b)
  {
    if |a| == 0 {
      assert a + b == b;
    } else {
      var head := if f(a[0]).Some? then [f(a[0]).value] else [];
      var ab := a + b;
      assert ab[1..] == a[1..] + b;
      assert ab[0] == a[0];
      assert FilterMap(f, ab) == head + FilterMap(f, a[1..] + b);
      FilterMapAppend(f, a[1..], b);
      assert FilterMap(f, a) == head + FilterMap(f, a[1..]);
      ConcatAssoc(head, FilterMap(f, a[1..]), FilterMap(f, b));
    }
  }

  lemma FilterMapSingle<A, B>(f: A -> Option<B>, x: A)
    ensures FilterMap(f, [x]) == if f(x).Some? then [f(x).value] else []
  {
    assert [x][1..] == [];
  }

  /** A group that fails to parse is skipped and the next group starts right
      after it: the points around it are exactly those of the other groups. */
  lemma SkipWithoutResync(before: seq<string>, group: seq<string>, after: seq<string>)
    requires |before| % 3 == 0 && |group| == 3
    requires ParseTriple(Triple(group[0], group[1], group[2])).None?
    ensures ParseGroups(before + (group + after)) == ParseGroups(before) + ParseGroups(after)
  {
    var t := Triple(group[0], group[1], group[2]);
    TriplesAppend(before, group + after);
    TriplesCons(group, after);
    FilterMapAppend(ParseTriple, Triples(before), [t] + Triples(after));
    FilterMapAppend(ParseTriple, [t], Triples(after));
    FilterMapSingle(ParseTriple, t);
  }

  /** A group that parses contributes exactly its point, between the points of
      the groups before and after it. */
  lemma KeepParsedGroup(before: seq<string>, group: seq<string>, after: seq<string>)
    requires |before| % 3 == 0 && |group| == 3
    requires ParseTriple(Triple(group[0], group[1], group[2])).Some?
    ensures ParseGroups(before + (group + after))
      == ParseGroups(before) + ([ParseTriple(Triple(group[0], group[1], group[2])).value] + ParseGroups(after))
  {
    var t := Triple(group[0], group[1], group[2]);
    TriplesAppend(before, group + after);
    TriplesCons(group, after);
    FilterMapAppend(ParseTriple, Triples(before), [t] + Triples(after));
    FilterMapAppend(ParseTriple, [t], Triples(after));
    FilterMapSingle(ParseTriple, t);
  }

  /** One or two tokens left after the last whole group are ignored. */
  lemma TrailingPartialGroupIgnored(groups: seq<string>, rest: seq<string>)
    requires |groups| % 3 == 0 && |rest| < 3
    ensures ParseGroups(groups + rest) == ParseGroups(groups)
  {
    TriplesAppend(groups, rest);
    assert Triples(groups) + [] == Triples(groups);
  }

  /** The indices, from offset on, of the elements of xs to which f gives a value. */
  function SomeIndices<A, B>(f: A -> Option<B>, xs: seq<A>, offset: nat): (js: seq<nat>)
    ensures forall k :: 0 <= k < |js| ==> offset <= js[k] < offset + |xs| && f(xs[js[k] - offset]).Some?
  {
    if |xs| == 0 then []
    else (if f(xs[0]).Some? then [offset] else []) + SomeIndices(f, xs[1..], offset + 1)
  }

  lemma {:induction false} FilterMapCount<A, B>(f: A -> Option<B>, xs: seq<A>, offset: nat)
    ensures |FilterMap(f, xs)| == |SomeIndices(f, xs, offset)|
  {
    if |xs| > 0 {
      FilterMapCount(f, xs[1..], offset + 1);
    }
  }

  lemma {:induction false} FilterMapAt<A, B>(f: A -> Option<B>, xs: seq<A>, offset: nat, k: nat)
    requires k < |FilterMap(f, xs)| == |SomeIndices(f, xs, offset)|
    ensures f(xs[SomeIndices(f, xs, offset)[k] - offset]) == Some(FilterMap(f, xs)[k])
  {
    var tail := xs[1..];
    FilterMapCount(f, tail, offset + 1);
    var js' := SomeIndices(f, tail, offset + 1);
    if f(xs[0]).Some? {
      if k > 0 {
        FilterMapAt(f, tail, offset + 1, k - 1);
        assert tail[js'[k - 1] - (offset + 1)] == xs[js'[k - 1] - offset];
      }
    } else {
      FilterMapAt(f, tail, offset + 1, k);
      assert tail[js'[k] - (offset + 1)] == xs[js'[k] - offset];
    }
  }

  lemma {:induction false} SomeIndicesIncreasing<A, B>(f: A -> Option<B>, xs: seq<A>, offset: nat)
    ensures forall k, l :: 0 <= k < l < |SomeIndices(f, xs, offset)| ==>
      SomeIndices(f, xs, offset)[k] < SomeIndices(f, xs, offset)[l]
  {
    if |xs| > 0 {
      SomeIndicesIncreasing(f, xs[1..], offset + 1);
    }
  }

  lemma {:induction false} SomeIndicesComplete<A, B>(f: A -> Option<B>, xs: seq<A>, offset: nat, g: nat)
    requires g < |xs| && f(xs[g]).Some?
    ensures offset + g in SomeIndices(f, xs, offset)
  {
    if g > 0 {
      assert xs[1..][g - 1] == xs[g];
      SomeIndicesComplete(f, xs[1..], offset + 1, g - 1);
    }
  }

  /** The indices of the groups of parts that parse. */
  function Sources(parts: seq<string>): seq<nat> {
    SomeIndices(ParseTriple, Triples(parts), 0)
  }

  /** Order and origin: the k-th point is what group Sources(parts)[k] parses
      to, its fields are read from that group's three tokens, the groups are
      taken in increasing order, and no group that parses is missed. */
  lemma Origin(parts: seq<string>)
    ensures |ParseGroups(parts)| == |Sources(parts)|
    ensures forall k, l :: 0 <= k < l < |Sources(parts)| ==> Sources(parts)[k] < Sources(parts)[l]
    ensures forall k :: 0 <= k < |Sources(parts)| ==>
      3 * Sources(parts)[k] + 2 < |parts| && ParseTriple(TripleAt(parts, Sources(parts)[k])) == Some(ParseGroups(parts)[k])
    ensures forall k :: 0 <= k < |Sources(parts)| ==> PointFrom(parts, Sources(parts)[k], ParseGroups(parts)[k])
    ensures forall g: nat :: 3 * g + 2 < |parts| && ParseTriple(TripleAt(parts, g)).Some? ==> g in Sources(parts)
  {
    FilterMapCount(ParseTriple, Triples(parts), 0);
    SomeIndicesIncreasing(ParseTriple, Triples(parts), 0);
    forall k | 0 <= k < |Sources(parts)|
      ensures 3 * Sources(parts)[k] + 2 < |parts| && ParseTriple(TripleAt(parts, Sources(parts)[k])) == Some(ParseGroups(parts)[k])
      ensures PointFrom(parts, Sources(parts)[k], ParseGroups(parts)[k])
    {
      SourceAt(parts, k);
    }
    forall g: nat | 3 * g + 2 < |parts| && ParseTriple(TripleAt(parts, g)).Some?
      ensures g in Sources(parts)
    {
      SourceComplete(parts, g);
    }
  }

  lemma SourceAt(parts: seq<string>, k: nat)
    requires k < |Sources(parts)|
    ensures |ParseGroups(parts)| == |Sources(parts)|
    ensures 3 * Sources(parts)[k] + 2 < |parts|
    ensures ParseTriple(TripleAt(parts, Sources(parts)[k])) == Some(ParseGroups(parts)[k])
    ensures PointFrom(parts, Sources(parts)[k], ParseGroups(parts)[k])
  {
    var ts, js := Triples(parts), Sources(parts);
    FilterMapCount(ParseTriple, ts, 0);
    FilterMapAt(ParseTriple, ts, 0, k);
    assert js[k] < |ts|;
    TriplesAt(parts, js[k]);
    TripleFields(TripleAt(parts, js[k]));
  }

  /** Point p is read from group g of parts: x and y are `int()` of the
      group's first two tokens, and the colour is its third token normalised. */
  predicate PointFrom(parts: seq<string>, g: nat, p: Point)
    requires 3 * g + 2 < |parts|
  {
    && ParseInt(parts[3 * g]) == Some(p.x)
    && ParseInt(parts[3 * g + 1]) == Some(p.y)
    && NormalizeColor(parts[3 * g + 2]) == Some(p.color)
  }

  lemma SourceComplete(parts: seq<string>, g: nat)
    requires 3 * g + 2 < |parts| && ParseTriple(TripleAt(parts, g)).Some?
    ensures g in Sources(parts)
  {
    TriplesAt(parts, g);
    SomeIndicesComplete(ParseTriple, Triples(parts), 0, g);
  }

  /** The colours parsed from a line without a newline hold no newline. */
  lemma ColorPointsOneLine(line: string)
    requires '\n' !in line
    ensures forall t :: 0 <= t < |ColorPoints(line)| ==> '\n' !in ColorPoints(line)[t].color
  {
    var parts := Split(line, ',');
    JoinSplit(line, ',');
    forall i | 0 <= i < |parts|
      ensures '\n' !in parts[i]
    {
      if '\n' in parts[i] {
        InJoin(parts, ',', i, '\n');
      }
    }
    FilterMapCount(ParseTriple, Triples(parts), 0);
    forall t | 0 <= t < |ParseGroups(parts)|
      ensures '\n' !in ParseGroups(parts)[t].color
    {
      GroupColorOneLine(parts, t);
    }
  }

  /** Every coordinate parsed from a line can be printed by `str()`: it came
      from `int()`, which reads at most MaxStrDigits digits. */
  lemma ColorPointsFit(line: string)
    ensures forall t :: 0 <= t < |ColorPoints(line)| ==>
      StrFits(ColorPoints(line)[t].x) && StrFits(ColorPoints(line)[t].y)
  {
    var parts := Split(line, ',');
    FilterMapCount(ParseTriple, Triples(parts), 0);
    forall t | 0 <= t < |ParseGroups(parts)|
      ensures StrFits(ParseGroups(parts)[t].x) && StrFits(ParseGroups(parts)[t].y)
    {
      SourceAt(parts, t);
      var g := Sources(parts)[t];
      ParsedFits(parts[3 * g]);
      ParsedFits(parts[3 * g + 1]);
    }
  }

  /** Point k's colour is normalised from one of the tokens, so it is one
      line when every token is. */
  lemma GroupColorOneLine(parts: seq<string>, k: nat)
    requires forall i :: 0 <= i < |parts| ==> '\n' !in parts[i]
    requires k < |Sources(parts)|
    ensures k < |ParseGroups(parts)| && '\n' !in ParseGroups(parts)[k].color
  {
    SourceAt(parts, k);
    NormalizeColorOneLine(parts[3 * Sources(parts)[k] + 2]);
  }

  /** A group whose x starts with U+001F is skipped: `int()` does not treat
      that separator as whitespace, though `str.isspace()` does. */
  lemma SeparatorGroupSkipped(t: Triple)
    requires t == Triple("\U{1f}1", "2", "0xAA")
    ensures IsSpace(t.xs[0]) && ParseTriple(t).None?
  {
    assert !IntSpace(t.xs[0]) && !IntSpace(t.xs[1]);
    assert [] + t.xs + [] == t.xs;
    IntStripPadded([], t.xs, []);
    assert CharValue(t.xs[0]) == 16;
    assert !AllDigits(t.xs, 10);
    assert t.xs[0] != '-' && t.xs[0] != '+';
    assert ParseSigned(t.xs).None?;
    assert IntStrip(t.xs) == t.xs;
  }

  /** An example line: one decimal colour, one kept as written. */
  lemma ExampleLine(line: string)
    requires line == "1,2,255,3,4,0xAABBCC"
    ensures ColorPoints(line) == [Point(1, 2, "0x0000FF"), Point(3, 4, "0xAABBCC")]
  {
    var t1, t2 := Triple("1", "2", "255"), Triple("3", "4", "0xAABBCC");
    ExampleGroups(line, t1, t2);
    ExampleDecimal(t1);
    ExampleVerbatim(t2);
    FilterMapAppend(ParseTriple, [t1], [t2]);
    FilterMapSingle(ParseTriple, t1);
    FilterMapSingle(ParseTriple, t2);
    assert [t1, t2] == [t1] + [t2];
  }

  /** A line of one group with a decimal colour gives one point. */
  lemma ExampleSingleGroup(line: string)
    requires line == "1,2,255"
    ensures ColorPoints(line) == [Point(1, 2, "0x0000FF")]
  {
    var t := Triple("1", "2", "255");
    var g := [t.xs, t.ys, t.cs];
    assert line == t.xs + [','] + (t.ys + [','] + t.cs);
    assert ',' !in t.xs && ',' !in t.ys && ',' !in t.cs;
    SplitLastTriple(t);
    TriplesCons(g, []);
    assert g + [] == g;
    ExampleDecimal(t);
    FilterMapSingle(ParseTriple, t);
  }

  lemma ExampleGroups(line: string, t1: Triple, t2: Triple)
    requires line == "1,2,255,3,4,0xAABBCC"
    requires t1 == Triple("1", "2", "255") && t2 == Triple("3", "4", "0xAABBCC")
    ensures Triples(Split(line, ',')) == [t1, t2]
  {
    var g1, g2 := [t1.xs, t1.ys, t1.cs], [t2.xs, t2.ys, t2.cs];
    ExampleShape(line, t1, t2);
    ExampleCommaFree(t1, t2);
    SplitTwoTriples(t1, t2);
    TriplesCons(g1, g2);
    TriplesCons(g2, []);
    assert g2 + [] == g2;
  }

  lemma ExampleShape(line: string, t1: Triple, t2: Triple)
    requires line == "1,2,255,3,4,0xAABBCC"
    requires t1 == Triple("1", "2", "255") && t2 == Triple("3", "4", "0xAABBCC")
    ensures line == t1.xs + [','] + (t1.ys + [','] + (t1.cs + [','] + (t2.xs + [','] + (t2.ys + [','] + t2.cs))))
  {
  }

  lemma ExampleCommaFree(t1: Triple, t2: Triple)
    requires t1 == Triple("1", "2", "255") && t2 == Triple("3", "4", "0xAABBCC")
    ensures ',' !in t1.xs && ',' !in t1.ys && ',' !in t1.cs
    ensures ',' !in t2.xs && ',' !in t2.ys && ',' !in t2.cs
  {
  }

  lemma SplitTwoTriples(t1: Triple, t2: Triple)
    requires ',' !in t1.xs && ',' !in t1.ys && ',' !in t1.cs
    requires ',' !in t2.xs && ',' !in t2.ys && ',' !in t2.cs
    ensures Split(t1.xs + [','] + (t1.ys + [','] + (t1.cs + [','] + (t2.xs + [','] + (t2.ys + [','] + t2.cs)))), ',')
      == [t1.xs, t1.ys, t1.cs] + [t2.xs, t2.ys, t2.cs]
  {
    SplitTriple(t1, t2.xs + [','] + (t2.ys + [','] + t2.cs));
    SplitLastTriple(t2);
  }

  lemma SplitTriple(t: Triple, rest: string)
    requires ',' !in t.xs && ',' !in t.ys && ',' !in t.cs
    ensures Split(t.xs + [','] + (t.ys + [','] + (t.cs + [','] + rest)), ',')
      == [t.xs, t.ys, t.cs] + Split(rest, ',')
  {
    var r2 := t.cs + [','] + rest;
    var r1 := t.ys + [','] + r2;
    SplitPrefix(t.cs, rest, ',');
    SplitPrefix(t.ys, r2, ',');
    SplitPrefix(t.xs, r1, ',');
    var tail := Split(rest, ',');
    assert [t.xs] + ([t.ys] + ([t.cs] + tail)) == [t.xs, t.ys, t.cs] + tail;
  }

  lemma SplitLastTriple(t: Triple)
    requires ',' !in t.xs && ',' !in t.ys && ',' !in t.cs
    ensures Split(t.xs + [','] + (t.ys + [','] + t.cs), ',') == [t.xs, t.ys, t.cs]
  {
    SplitNoSep(t.cs, ',');
    SplitPrefix(t.ys, t.cs, ',');
    SplitPrefix(t.xs, t.ys + [','] + t.cs, ',');
  }

  lemma ExampleInt(token: string, n: int)
    requires token == IntToString(n) && 0 <= n < 1000
    ensures ParseInt(token) == Some(n)
  {
    assert Pow(10, 3) == 1000;
    DigitsWidth(n, 10, 3);
    ParseIntToString(n, [], []);
    assert [] + token + [] == token;
  }

  lemma ExampleDecimal(t: Triple)
    requires t == Triple("1", "2", "255")
    ensures ParseTriple(t) == Some(Point(1, 2, "0x0000FF"))
  {
    ExampleInt(t.xs, 1);
    ExampleInt(t.ys, 2);
    ExampleColor(t.cs);
  }

  lemma ExampleColor(c: string)
    requires c == "255"
    ensures NormalizeColor(c) == Some("0x0000FF")
  {
    ExampleInt(c, 255);
    assert !Contains(c[2..], HexMarker);
    assert c[1..][1..] == c[2..];
    assert !Contains(c, HexMarker);
    ExampleHex(255);
  }

  lemma ExampleHex(n: int)
    requires n == 255
    ensures HexMarker + FormatHex06(n) == "0x0000FF"
  {
    assert ToDigits(n, 16) == "FF";
    assert Zeros(4) == "0000";
    assert FormatHex06(n) == "0000FF";
  }

  lemma ExampleVerbatim(t: Triple)
    requires t == Triple("3", "4", "0xAABBCC")
    ensures ParseTriple(t) == Some(Point(3, 4, "0xAABBCC"))
  {
    ExampleInt(t.xs, 3);
    ExampleInt(t.ys, 4);
    VerbatimHexColor(t.cs, 0);
  }
}
