/**
 The Lua table writer (`generate_lua_code`): a fixed header, one entry per key
 1..50 present in the patterns map, in ascending key order, and a fixed
 footer. The writer appends one line per point, each ending in ",\n", and then
 strips every trailing ',' and '\n' from the whole text written so far; the
 reference layout below says what that leaves, and GenerateLuaCode is proved
 to produce it.
 */
module LuaGen {
  import opened Text
  import opened Numbers
  import opened ColorParser

  const FirstKey := 1
  const LastKey := 50

  const Title := "-- Định nghĩa ma trận màu cho các số 1-50\n"
  const OpenTable := "local matrix_color_number = {\n"
  const Header := Title + OpenTable
  const CloseTable := "}\n\n"
  const ReturnLine := "return matrix_color_number"
  const Footer := CloseTable + ReturnLine

  /** The characters the writer strips after the point lines of an entry. */
  const Stripped: set<char> := {',', '\n'}

  type Patterns = map<int, seq<Point>>

  /** One point as a Lua table constructor, without separator or newline. */
  function PointLine(p: Point): string {
    "        {x = " + IntToString(p.x) + ", y = " + IntToString(p.y) + ", color = " + p.color + "}"
  }

  /** The point lines of a non-empty entry, separated by ",\n" (no separator
      after the last). */
  function PointLines(ps: seq<Point>): string
    requires |ps| >= 1
  {
    if |ps| == 1 then PointLine(ps[0])
    else PointLines(ps[..|ps| - 1]) + ",\n" + PointLine(ps[|ps| - 1])
  }

  /** What sits between "    {\n" and "    }" in an entry: nothing for no
      points, otherwise the point lines and one newline. */
  function PointBlock(ps: seq<Point>): string {
    if |ps| == 0 then "" else PointLines(ps) + "\n"
  }

  function Comment(k: int): string {
    "    -- Số " + IntToString(k) + "\n"
  }

  /** The comma that separates an entry from the next; the entry for the last
      key has none. */
  function Separator(k: int): string {
    if k < LastKey then "," else ""
  }

  /** The closing brace of an entry, its separator and a newline. */
  function Closing(k: int): string {
    "    }" + Separator(k) + "\n"
  }

  /** The entry for key k: comment, opening brace, point lines, closing brace,
      separator and newline. */
  function Entry(k: int, ps: seq<Point>): string {
    Comment(k) + "    {\n" + PointBlock(ps) + Closing(k)
  }

  /** The entries for the keys of p in FirstKey..i-1, in ascending key order. */
  function EntriesBelow(p: Patterns, i: int): string
    decreases i - FirstKey
  {
    if i <= FirstKey then ""
    else EntriesBelow(p, i - 1) + (if i - 1 in p then Entry(i - 1, p[i - 1]) else "")
  }

  /** Everything between header and footer. */
  function Body(p: Patterns): string {
    EntriesBelow(p, LastKey + 1)
  }

  /** The text `generate_lua_code(p)` returns, by layout. */
  function LuaCode(p: Patterns): string {
    Header + Body(p) + Footer
  }

  /** The keys of p in FirstKey..i-1, ascending. */
  function KeysBelow(p: Patterns, i: int): seq<int>
    decreases i - FirstKey
  {
    if i <= FirstKey then []
    else KeysBelow(p, i - 1) + (if i - 1 in p then [i - 1] else [])
  }

  /** The keys the writer visits. */
  function Keys(p: Patterns): seq<int> {
    KeysBelow(p, LastKey + 1)
  }

  /** The entries for the keys ks, in the order of ks. */
  function Entries(p: Patterns, ks: seq<int>): string
    requires forall t :: 0 <= t < |ks| ==> ks[t] in p
  {
    if |ks| == 0 then ""
    else Entries(p, ks[..|ks| - 1]) + Entry(ks[|ks| - 1], p[ks[|ks| - 1]])
  }

  /** One point line as the writer appends it, with ",\n" after it. */
  function PointRow(p: Point): string {
    PointLine(p) + ",\n"
  }

  /** The lines the loop over one entry's points has appended. */
  ghost function TrailingLines(ps: seq<Point>): string {
    if |ps| == 0 then ""
    else TrailingLines(ps[..|ps| - 1]) + PointRow(ps[|ps| - 1])
  }

  /** `generate_lua_code`, statement by statement: the keys 1..50 in
      ascending order, one entry for each key present. */
  method GenerateLuaCode(patterns: Patterns) returns (code: string)
    ensures code == LuaCode(patterns)
  {
    code := Title;
    code := code + OpenTable;
    NoEntries(patterns);
    for i := FirstKey to LastKey + 1
      invariant code == Header + EntriesBelow(patterns, i)
    {
      code := VisitKey(code, patterns, i);
    }
    code := code + CloseTable;
    code := code + ReturnLine;
    ConcatAssoc(Header + Body(patterns), CloseTable, ReturnLine);
  }

  /** Before the first key nothing has been written after the header. */
  lemma NoEntries(p: Patterns)
    ensures Title + OpenTable == Header + EntriesBelow(p, FirstKey)
  {
    assert Header + "" == Header;
  }

  /** One pass of the key loop: the entry for key i when i is present. */
  method VisitKey(text: string, patterns: Patterns, i: int) returns (code: string)
    requires FirstKey <= i <= LastKey
    requires text == Header + EntriesBelow(patterns, i)
    ensures code == Header + EntriesBelow(patterns, i + 1)
  {
    code := text;
    if i in patterns {
      code := AppendEntry(code, i, patterns[i]);
      EntryAt(patterns, i + 1);
      ConcatAssoc(Header, EntriesBelow(patterns, i), Entry(i, patterns[i]));
    } else {
      NoEntryAt(patterns, i + 1);
    }
  }

  /** The body of the key loop for a present key: comment and opening brace,
      one line per point ending in ",\n", then the strip of every trailing
      ',' and '\n' from the whole text written so far, then the closing
      brace, the separator and a newline. */
  method AppendEntry(text: string, i: int, points: seq<Point>) returns (code: string)
    ensures code == text + Entry(i, points)
  {
    code := text + Comment(i);
    code := code + "    {\n";
    code := AppendPointRows(code, points);
    StripPointLines(text + Comment(i), points);
    code := RStrip(code, Stripped) + "\n";
    ghost var block := code;
    code := code + "    }";
    if i < LastKey {
      code := code + ",";
    }
    code := code + "\n";
    CloseEntry(block, i);
    ConcatAssoc5(text, Comment(i), "    {\n", PointBlock(points), Closing(i));
  }

  /** The inner loop: one row per point, in order. */
  method AppendPointRows(text: string, points: seq<Point>) returns (code: string)
    ensures code == text + TrailingLines(points)
  {
    code := text;
    for t := 0 to |points|
      invariant code == text + TrailingLines(points[..t])
    {
      TrailingSnoc(points, t);
      ConcatAssoc(text, TrailingLines(points[..t]), PointRow(points[t]));
      code := code + PointRow(points[t]);
    }
    assert points[..|points|] == points;
  }

  lemma CloseEntry(block: string, k: int)
    ensures block + "    }" + Separator(k) + "\n" == block + Closing(k)
  {
    ConcatAssoc5(block, "    }", Separator(k), "\n", []);
    assert Closing(k) + [] == Closing(k);
  }

  lemma TrailingSnoc(ps: seq<Point>, t: nat)
    requires t < |ps|
    ensures TrailingLines(ps[..t + 1]) == TrailingLines(ps[..t]) + PointRow(ps[t])
  {
    assert ps[..t + 1][..t] == ps[..t];
  }

  lemma SuffixOfAppend<T>(a: seq<T>, b: seq<T>, n: nat)
    requires n <= |b|
    ensures (a + b)[|a + b| - n..] == b[|b| - n..]
  {
  }

  /** Stripping ',' and '\n' after the point lines stops at the '}' of the
      last point or, with no points, at the '{' of the opening brace, so it
      leaves the opening brace, the point lines joined by ",\n", and no more. */
  lemma StripPointLines(prefix: string, ps: seq<Point>)
    ensures RStrip(prefix + "    {\n" + TrailingLines(ps), Stripped) + "\n"
      == prefix + "    {\n" + PointBlock(ps)
  {
    if |ps| == 0 {
      StripNoPoints(prefix);
    } else {
      StripSomePoints(prefix, ps);
    }
  }

  /** With no points the strip removes the newline after the opening brace. */
  lemma StripNoPoints(prefix: string)
    ensures RStrip(prefix + "    {\n" + TrailingLines([]), Stripped) + "\n" == prefix + "    {\n"
  {
    var x := prefix + "    {";
    assert prefix + "    {\n" + TrailingLines([]) == x + "\n";
    RStripTail(x, "\n", Stripped);
    assert x + "\n" == prefix + "    {\n";
  }

  /** With points the strip removes only the ",\n" after the last one. */
  lemma StripSomePoints(prefix: string, ps: seq<Point>)
    requires |ps| >= 1
    ensures RStrip(prefix + "    {\n" + TrailingLines(ps), Stripped) + "\n"
      == prefix + "    {\n" + (PointLines(ps) + "\n")
  {
    TrailingPointLines(ps);
    var x := prefix + "    {\n" + PointLines(ps);
    PointLinesEnd(ps);
    ConcatAssoc(prefix + "    {\n", PointLines(ps), ",\n");
    RStripTail(x, ",\n", Stripped);
    ConcatAssoc(prefix + "    {\n", PointLines(ps), "\n");
  }

  /** The appended lines of a non-empty entry are its point lines and one
      trailing ",\n". */
  lemma {:induction false} TrailingPointLines(ps: seq<Point>)
    requires |ps| >= 1
    ensures TrailingLines(ps) == PointLines(ps) + ",\n"
  {
    var init := ps[..|ps| - 1];
    if |ps| > 1 {
      TrailingPointLines(init);
    } else {
      assert TrailingLines(init) == "";
    }
  }

  /** Every point line, and so the point lines of an entry, ends with '}'. */
  lemma PointLinesEnd(ps: seq<Point>)
    requires |ps| >= 1
    ensures |PointLines(ps)| >= 1 && PointLines(ps)[|PointLines(ps)| - 1] == '}'
  {
  }

  lemma EntriesSnoc(p: Patterns, ks: seq<int>, k: int)
    requires forall t :: 0 <= t < |ks| ==> ks[t] in p
    requires k in p
    ensures Entries(p, ks + [k]) == Entries(p, ks) + Entry(k, p[k])
  {
    assert (ks + [k])[..|ks|] == ks;
  }

  /** The keys visited below i are exactly the keys of p in FirstKey..i-1,
      in strictly ascending order. */
  lemma {:induction false} KeysBelowSpec(p: Patterns, i: int)
    ensures forall k :: k in KeysBelow(p, i) <==> k in p && FirstKey <= k < i
    ensures forall s, t :: 0 <= s < t < |KeysBelow(p, i)| ==> KeysBelow(p, i)[s] < KeysBelow(p, i)[t]
    decreases i - FirstKey
  {
    if i > FirstKey {
      KeysBelowSpec(p, i - 1);
      var ks := KeysBelow(p, i - 1);
      assert forall t :: 0 <= t < |ks| ==> ks[t] in ks;
    }
  }

  /** The keys visited are exactly the keys of p in 1..50, each once, in
      strictly ascending order. */
  lemma KeysSpec(p: Patterns)
    ensures forall k :: k in Keys(p) <==> k in p && FirstKey <= k <= LastKey
    ensures forall s, t :: 0 <= s < t < |Keys(p)| ==> Keys(p)[s] < Keys(p)[t]
  {
    KeysBelowSpec(p, LastKey + 1);
  }

  /** The entries below i are those of the visited keys, in their order. */
  lemma {:induction false} EntriesBelowKeys(p: Patterns, i: int)
    requires forall t :: 0 <= t < |KeysBelow(p, i)| ==> KeysBelow(p, i)[t] in p
    ensures EntriesBelow(p, i) == Entries(p, KeysBelow(p, i))
    decreases i - FirstKey
  {
    if i > FirstKey {
      var ks := KeysBelow(p, i - 1);
      if i - 1 in p {
        assert KeysBelow(p, i) == ks + [i - 1];
        assert forall t :: 0 <= t < |ks| ==> ks[t] == KeysBelow(p, i)[t];
        EntriesBelowKeys(p, i - 1);
        KeysPresentStep(p, i, ks);
      } else {
        assert KeysBelow(p, i) == ks;
        EntriesBelowKeys(p, i - 1);
        NoEntryAt(p, i);
      }
    }
  }

  lemma KeysPresentStep(p: Patterns, i: int, ks: seq<int>)
    requires FirstKey < i && i - 1 in p
    requires ks == KeysBelow(p, i - 1)
    requires forall t :: 0 <= t < |ks| ==> ks[t] in p
    requires EntriesBelow(p, i - 1) == Entries(p, ks)
    ensures forall t :: 0 <= t < |KeysBelow(p, i)| ==> KeysBelow(p, i)[t] in p
    ensures EntriesBelow(p, i) == Entries(p, KeysBelow(p, i))
  {
    var ks' := KeysBelow(p, i);
    assert ks' == ks + [i - 1];
    forall t | 0 <= t < |ks'|
      ensures ks'[t] in p
    {
      if t < |ks| {
        assert ks'[t] == ks[t];
      }
    }
    EntriesSnoc(p, ks, i - 1);
    EntryAt(p, i);
  }

  /** Order: the body is the entries of the keys of p in 1..50, in ascending
      key order. */
  lemma BodyOrder(p: Patterns)
    ensures forall t :: 0 <= t < |Keys(p)| ==> Keys(p)[t] in p
    ensures Body(p) == Entries(p, Keys(p))
  {
    KeysSpec(p);
    var ks := Keys(p);
    assert forall t :: 0 <= t < |ks| ==> ks[t] in ks;
    EntriesBelowKeys(p, LastKey + 1);
  }

  lemma {:induction false} EntriesBelowEmpty(p: Patterns, i: int)
    ensures EntriesBelow(p, i) == "" <==> forall k :: k in p ==> !(FirstKey <= k < i)
    decreases i - FirstKey
  {
    if i > FirstKey {
      EntriesBelowEmpty(p, i - 1);
      if i - 1 in p {
        var e := Entry(i - 1, p[i - 1]);
        assert |EntriesBelow(p, i)| >= |e| > 0;
      }
    }
  }

  /** The body is empty exactly when no key of p lies in 1..50. */
  lemma BodyEmpty(p: Patterns)
    ensures Body(p) == "" <==> forall k :: k in p ==> !(FirstKey <= k <= LastKey)
  {
    EntriesBelowEmpty(p, LastKey + 1);
  }

  /** No patterns at all: just the header and the footer. */
  lemma EmptyPatterns()
    ensures LuaCode(map[]) == Header + Footer
  {
    BodyEmpty(map[]);
    assert Header + "" == Header;
  }

  /** Keys outside FirstKey..i-1 do not change the entries below i. */
  lemma {:induction false} KeysOutsideIgnored(p: Patterns, q: Patterns, i: int)
    requires forall k :: FirstKey <= k < i ==> (k in p <==> k in q)
    requires forall k :: FirstKey <= k < i && k in p ==> p[k] == q[k]
    ensures EntriesBelow(p, i) == EntriesBelow(q, i)
    decreases i - FirstKey
  {
    if i > FirstKey {
      KeysOutsideIgnored(p, q, i - 1);
    }
  }

  /** Only the keys 1..50 of the map matter. */
  lemma OnlyKeysInRange(p: Patterns)
    ensures LuaCode(p) == LuaCode(map k | k in p && FirstKey <= k <= LastKey :: p[k])
  {
    var q := map k | k in p && FirstKey <= k <= LastKey :: p[k];
    KeysOutsideIgnored(p, q, LastKey + 1);
  }

  /** Every entry but the one for key 50 ends with ",\n"; that one ends with
      "    }\n". */
  lemma EntryEnd(k: int, ps: seq<Point>)
    ensures var e := Entry(k, ps);
      (k < LastKey ==> |e| >= 2 && e[|e| - 2..] == ",\n")
      && (k >= LastKey ==> |e| >= 6 && e[|e| - 6..] == "    }\n")
  {
  }

  /** The lines of the point block of an entry: one per point, in order, each
      but the last followed by a comma. */
  function RowLines(ps: seq<Point>): seq<string> {
    seq(|ps|, t requires 0 <= t < |ps| => PointLine(ps[t]) + (if t < |ps| - 1 then "," else ""))
  }

  /** The lines of an entry: its comment, the opening brace, the point lines,
      the closing brace with its separator, and the empty rest after the
      final newline. */
  function EntryLines(k: int, ps: seq<Point>): seq<string> {
    ["    -- Số " + IntToString(k), "    {"] + RowLines(ps) + ["    }" + Separator(k), ""]
  }

  /** Entry layout: cut at its newlines, the entry for key k is its comment
      line, "    {", one line per point ending in "}," except the last, which
      ends in "}", and "    }" followed by a comma exactly when k < 50. With
      no points, "    {" is directly followed by the closing brace. */
  lemma EntryLayout(k: int, ps: seq<Point>)
    requires forall t :: 0 <= t < |ps| ==> '\n' !in ps[t].color
    ensures Split(Entry(k, ps), '\n') == EntryLines(k, ps)
    ensures |EntryLines(k, ps)| == |ps| + 4
  {
    EntryJoin(k, ps);
    EntryLinesOneLine(k, ps);
    SplitJoin(EntryLines(k, ps), '\n');
  }

  /** No line of an entry holds a newline when no colour does. */
  lemma EntryLinesOneLine(k: int, ps: seq<Point>)
    requires forall t :: 0 <= t < |ps| ==> '\n' !in ps[t].color
    ensures forall t :: 0 <= t < |EntryLines(k, ps)| ==> '\n' !in EntryLines(k, ps)[t]
  {
    var rows := RowLines(ps);
    forall t | 0 <= t < |rows|
      ensures '\n' !in rows[t]
    {
      PointLineOneLine(ps[t]);
    }
    IntToStringOneLine(k);
    var head, tail := ["    -- Số " + IntToString(k), "    {"], ["    }" + Separator(k), ""];
    var lines := EntryLines(k, ps);
    forall t | 0 <= t < |lines|
      ensures '\n' !in lines[t]
    {
      if t < 2 {
        assert lines[t] == head[t];
      } else if t < |rows| + 2 {
        assert lines[t] == rows[t - 2];
      } else {
        assert lines[t] == tail[t - 2 - |rows|];
      }
    }
  }

  /** A point line holds no newline when its colour holds none. */
  lemma PointLineOneLine(p: Point)
    requires '\n' !in p.color
    ensures '\n' !in PointLine(p)
  {
    IntToStringOneLine(p.x);
    IntToStringOneLine(p.y);
  }

  /** The point lines of an entry are its row lines joined by newlines. */
  lemma {:induction false} PointLinesJoin(ps: seq<Point>)
    requires |ps| >= 1
    ensures PointLines(ps) == Join(RowLines(ps), '\n')
  {
    var n := |ps|;
    if n == 1 {
      assert RowLines(ps) == [PointLine(ps[0]) + ""];
      assert PointLine(ps[0]) + "" == PointLine(ps[0]);
    } else {
      var init, last := ps[..n - 1], PointLine(ps[n - 1]);
      PointLinesJoin(init);
      var r' := RowLines(init);
      var grown := r'[..|r'| - 1] + [r'[|r'| - 1] + ","];
      RowLinesSnoc(ps);
      JoinAppend(grown, [last], '\n');
      JoinExtendLast(r', ",", '\n');
      GlueComma(PointLines(init), last);
    }
  }

  /** One more point turns the previous last row into a row with a comma. */
  lemma RowLinesSnoc(ps: seq<Point>)
    requires |ps| >= 2
    ensures var r' := RowLines(ps[..|ps| - 1]);
      RowLines(ps) == (r'[..|r'| - 1] + [r'[|r'| - 1] + ","]) + [PointLine(ps[|ps| - 1])]
  {
    var n := |ps|;
    var init := ps[..n - 1];
    var r, r' := RowLines(ps), RowLines(init);
    var want := (r'[..n - 2] + [r'[n - 2] + ","]) + [PointLine(ps[n - 1])];
    assert |r| == |want| == n;
    forall t | 0 <= t < n
      ensures r[t] == want[t]
    {
      if t < n - 2 {
        assert want[t] == r'[t] == PointLine(init[t]) + ",";
      } else if t == n - 2 {
        assert want[t] == r'[t] + ",";
        assert r'[t] == PointLine(init[t]) + "";
        assert PointLine(ps[t]) + "" == PointLine(ps[t]);
      } else {
        assert r[t] == PointLine(ps[t]) + "";
        assert PointLine(ps[t]) + "" == PointLine(ps[t]);
      }
    }
  }

  lemma GlueComma(x: string, l: string)
    ensures x + "," + "\n" + l == x + ",\n" + l
  {
    assert "," + "\n" == ",\n";
    ConcatAssoc(x, ",", "\n");
  }

  /** An entry is its lines joined by newlines. */
  lemma EntryJoin(k: int, ps: seq<Point>)
    ensures Entry(k, ps) == Join(EntryLines(k, ps), '\n')
  {
    EntryText(k, ps);
    JoinLastEmpty("    }" + Separator(k), '\n');
    if |ps| == 0 {
      EntryJoinEmpty(k, ps);
    } else {
      PointLinesJoin(ps);
      EntryJoinSome(k, ps);
    }
  }

  /** An entry cut into its comment line, brace lines and point block. */
  lemma EntryText(k: int, ps: seq<Point>)
    ensures Entry(k, ps)
      == ("    -- Số " + IntToString(k) + "\n") + ("    {" + "\n") + PointBlock(ps) + ("    }" + Separator(k) + "\n")
  {
    assert "    {\n" == "    {" + "\n";
  }

  /** EntryJoin for an entry without points. The requires are the two
      unfoldings EntryJoin has already proved, passed in so that this proof
      does not unfold Entry and Join again. */
  lemma EntryJoinEmpty(k: int, ps: seq<Point>)
    requires |ps| == 0
    requires Entry(k, ps)
      == ("    -- Số " + IntToString(k) + "\n") + ("    {" + "\n") + PointBlock(ps) + ("    }" + Separator(k) + "\n")
    requires Join(["    }" + Separator(k), ""], '\n') == "    }" + Separator(k) + "\n"
    ensures Entry(k, ps) == Join(EntryLines(k, ps), '\n')
  {
    var cl, ob, cb := "    -- Số " + IntToString(k), "    {", "    }" + Separator(k);
    var head, tail := [cl, ob], [cb, ""];
    assert Join(head, '\n') == cl + "\n" + ob;
    assert EntryLines(k, ps) == head + tail;
    JoinAppend(head, tail, '\n');
    LinesAssocEmpty(cl, ob, cb, "\n");
  }

  /** EntryJoin for an entry with points. Like EntryJoinEmpty it takes the
      unfoldings EntryJoin has proved, and the point lines joined by newlines,
      as requires rather than unfolding the definitions again. */
  lemma EntryJoinSome(k: int, ps: seq<Point>)
    requires |ps| >= 1
    requires Entry(k, ps)
      == ("    -- Số " + IntToString(k) + "\n") + ("    {" + "\n") + PointBlock(ps) + ("    }" + Separator(k) + "\n")
    requires Join(["    }" + Separator(k), ""], '\n') == "    }" + Separator(k) + "\n"
    requires PointLines(ps) == Join(RowLines(ps), '\n')
    ensures Entry(k, ps) == Join(EntryLines(k, ps), '\n')
  {
    var cl, ob, cb := "    -- Số " + IntToString(k), "    {", "    }" + Separator(k);
    var head, tail, rows := [cl, ob], [cb, ""], RowLines(ps);
    assert Join(head, '\n') == cl + "\n" + ob;
    JoinAppend(head, rows, '\n');
    JoinAppend(head + rows, tail, '\n');
    LinesAssoc(cl, ob, PointLines(ps), cb, "\n");
  }

  lemma JoinLastEmpty(x: string, sep: char)
    ensures Join([x, ""], sep) == x + [sep]
  {
    assert [x, ""][1..] == [""];
    assert x + [sep] + "" == x + [sep];
  }

  /** While key 50 is absent, the entries written so far end with a comma. */
  lemma {:induction false} EntriesBelowEnd(p: Patterns, i: int, k: int)
    requires i <= LastKey + 1 && LastKey !in p
    requires k in p && FirstKey <= k < i
    ensures var b := EntriesBelow(p, i); |b| >= 2 && b[|b| - 2..] == ",\n"
    decreases i - FirstKey
  {
    if i - 1 in p {
      LastEntryComma(p, i);
    } else {
      EntriesBelowEnd(p, i - 1, k);
      NoEntryAt(p, i);
    }
  }

  /** The entries below i end with those of key i-1 when it is present. */
  lemma LastEntryComma(p: Patterns, i: int)
    requires FirstKey < i <= LastKey && i - 1 in p
    ensures var b := EntriesBelow(p, i); |b| >= 2 && b[|b| - 2..] == ",\n"
  {
    var below, e := EntriesBelow(p, i - 1), Entry(i - 1, p[i - 1]);
    EntryEnd(i - 1, p[i - 1]);
    assert |e| >= 2 && e[|e| - 2..] == ",\n";
    EntryAt(p, i);
    SuffixOfAppend(below, e, 2);
  }

  /** A present key adds its entry after those of the smaller keys. */
  lemma EntryAt(p: Patterns, i: int)
    requires FirstKey < i && i - 1 in p
    ensures EntriesBelow(p, i) == EntriesBelow(p, i - 1) + Entry(i - 1, p[i - 1])
  {
  }

  /** An absent key adds nothing. */
  lemma NoEntryAt(p: Patterns, i: int)
    requires FirstKey < i && i - 1 !in p
    ensures EntriesBelow(p, i) == EntriesBelow(p, i - 1)
  {
    assert EntriesBelow(p, i - 1) + "" == EntriesBelow(p, i - 1);
  }

  /** The separator after the last entry: when key 50 is absent but some key
      in 1..50 is present, the body ends with ",\n", so the table has a comma
      before its closing brace; when key 50 is present it ends with "    }\n". */
  lemma TrailingComma(p: Patterns)
    ensures LastKey !in p && (exists k :: k in p && FirstKey <= k <= LastKey) ==>
      var b := Body(p); |b| >= 2 && b[|b| - 2..] == ",\n"
    ensures LastKey in p ==>
      var b := Body(p); |b| >= 6 && b[|b| - 6..] == "    }\n"
  {
    if LastKey !in p && (exists k :: k in p && FirstKey <= k <= LastKey) {
      var k :| k in p && FirstKey <= k <= LastKey;
      EntriesBelowEnd(p, LastKey + 1, k);
    }
    if LastKey in p {
      LastEntryClose(p);
    }
  }

  lemma LastEntryClose(p: Patterns)
    requires LastKey in p
    ensures var b := Body(p); |b| >= 6 && b[|b| - 6..] == "    }\n"
  {
    var e := Entry(LastKey, p[LastKey]);
    EntryEnd(LastKey, p[LastKey]);
    assert Body(p) == EntriesBelow(p, LastKey) + e;
    SuffixOfAppend(EntriesBelow(p, LastKey), e, 6);
  }
}
