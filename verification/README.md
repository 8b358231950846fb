# Colour matrix processor, modelled in Dafny

`test.py` turns a text file of numbered colour records into a Lua table.
Each record is a line such as `7 : 10,20,255,11,21,0xFF00FF`.
Three parts of the script are modelled here, as pure functions and methods over strings.

- `parse_color_data` splits a record's payload on commas.
  - It reads the tokens in non-overlapping groups of three, `x, y, color`.
  - A colour token containing `0x` is kept as written.
  - Any other colour token is read as an integer and printed as `0x` plus its upper-case hexadecimal digits, zero-padded to width 6, with a minus sign counting towards the width.
  - A group whose tokens do not parse is skipped.
- `generate_lua_code` writes the Lua text for a map from key to points.
  - It writes a fixed header.
  - It writes one entry for each key 1..50 present in the map, in ascending order.
  - It ends with a fixed footer.
- The extraction loop of `process_test_lua` does the following for each key i in 1..50.
  - It searches the content for `{i}\s+:\s+([^\n]+)`.
  - It parses the captured group with `parse_color_data`.
  - It stores the points under i.
  - It reports the number of keys it stored.

The modules are:

- `Wrappers`: the `Option` type used for Python's `ValueError` branch.
- `Text`: `str.split`, `str.rstrip(chars)`, the substring test `pat in s`, and `str.isspace()`, which is the regex class `\s`.
- `Numbers`: `int(token)` with the whitespace it skips, `str(n)` and `format(n, "06X")`.
- `ColorParser`: `parse_color_data`.
- `LuaGen`: `generate_lua_code`.
- `Extraction`: the search loop of `process_test_lua`.

Each operation is written twice: a reference definition of what it produces, and the step-by-step method that follows the Python code.
The method is proved equal to the reference definition, and the properties are proved about the reference definition:

- `ColorPoints` is the reference for `ParseColorData`.
- `LuaCode` is the reference for `GenerateLuaCode`.
- `ExtractPatterns` is the reference for `ProcessTestLua`.

Two regex layers are related in the same way:

- `MatchSpan` is a declarative predicate for the ways the pattern can match.
- `TryAt` and `Search` are a leftmost, backtracking matcher.

The generator model needs no assumption about colour strings.
`rstrip(",\n")` acts on the whole text written so far, but it always stops at the `}` that ends the last point line.
For an entry with no points, it stops at the `{` of the opening brace.
So an entry with no points is `    {\n    }`.

## Model

| member | source | states |
|---|---|---|
| ColorParser.ParseColorData | test.py:5-30 | the loop over groups returns exactly the points of the whole groups of comma-separated tokens that parse, in order, and at most one point per three tokens |
| ColorParser.ReadGroup | test.py:12-28 | one pass of the loop appends the group's point when all three tokens parse, and nothing otherwise |
| ColorParser.LoopExit | test.py:11 | when `i < len(parts) - 2` fails, every whole group has been read; the one or two tokens left over are never read, so the `IndexError` branch cannot be reached |
| ColorParser.TrailingPartialGroupIgnored | test.py:10-11 | one or two trailing tokens after whole groups add no point |
| ColorParser.SkipWithoutResync | test.py:25-28 | a group that fails adds nothing, and the groups after it are read from the next token on exactly as if it were absent |
| ColorParser.KeepParsedGroup | test.py:12-23 | a group that parses contributes exactly its point, between the points of the groups before and after it |
| ColorParser.Origin | test.py:10-30 | order and origin: point k comes from group Sources[k]; its x and y are `int()` of that group's first two tokens and its colour is the third token normalised; source groups strictly increase; every group that parses is a source |
| ColorParser.SourceAt | test.py:11-23 | point k's group lies inside the token list, parsing that group gives point k, and the point's fields are read from that group's three tokens |
| ColorParser.SourceComplete | test.py:12-26 | no group that parses is missing from the output |
| ColorParser.VerbatimHexColor | test.py:17-19 | a colour token with `0x` at any position, not only at the front, is kept unchanged |
| ColorParser.DecimalColor | test.py:20-21 | a colour n in 0..0xFFFFFF becomes `0x` plus exactly six hexadecimal digits denoting n; a larger n keeps all its digits |
| ColorParser.NegativeDecimalColor | test.py:20-21 | a negative colour becomes `0x-` plus hexadecimal digits denoting -n; sign and digits take exactly six characters when -n <= 0xFFFFF, and above that the digits have no leading zero |
| ColorParser.BadColor | test.py:20-26 | a colour token without `0x` that is not an integer makes the group fail |
| ColorParser.ExampleLine | test.py:5-30 | `"1,2,255,3,4,0xAABBCC"` gives the points (1, 2, `0x0000FF`) and (3, 4, `0xAABBCC`) |
| ColorParser.SeparatorGroupSkipped | test.py:13-26 | the group `\x1f1, 2, 0xAA` is skipped, because `int()` does not skip U+001F |
| ColorParser.ColorPointsOneLine | test.py:7-23 | a line without a newline yields colours without a newline, whether the colour was kept as written or reformatted |
| ColorParser.ColorPointsFit | test.py:13-14 | every x and y parsed from a line has a decimal text within the 4300-digit limit, so `str()` can print it |
| Numbers.ParseIntToString | test.py:13-14 | `int()` reads back the decimal text of any integer of at most 4300 digits, also with whitespace that `int()` skips around it, and refuses it for a longer integer |
| Numbers.ParseIntChars | test.py:13-14 | `int()` rejects any token with a character other than whitespace, a digit or a sign |
| Numbers.IntStripBounds | test.py:13-14 | `int()` skips only its own whitespace around the digits: `str.isspace()` characters other than U+001C..U+001F; the text it keeps neither starts nor ends with such whitespace |
| Numbers.TooManyDigits | test.py:13-14 | a numeral of more than 4300 digits, leading zeros included, makes `int()` take its ValueError branch |
| Numbers.ParsedFits | test.py:13-14 | every integer `int()` returns has a decimal text of at most 4300 digits |
| Numbers.SeparatorNotSkipped | test.py:13 | U+001C is whitespace to `str.isspace()` and `\s`, but `int("\x1c5")` fails |
| Numbers.FormatHex06Value | test.py:21 | `06X` is exactly six digits for 0..0xFFFFFF and more digits without a leading zero above; below 0 it is `-` plus digits, six characters in all when -n <= 0xFFFFF and without a leading zero above; the digits always denote the value |
| Numbers.HexWidth | test.py:21 | six hexadecimal digits suffice exactly up to 0xFFFFFF |
| Numbers.FormatHex06OneLine | test.py:21 | the `06X` text of any integer holds no newline |
| Numbers.ToDigitsValue | test.py:44 | the decimal text of a number denotes that number and has no leading zero |
| Text.JoinSplit | test.py:7 | no piece from `split(',')` contains a comma, and joining the pieces with commas restores the line |
| Text.SplitJoin | test.py:7 | splitting comma-free pieces joined by commas gives back those pieces |
| Text.ContainsIff | test.py:18 | the substring test holds exactly when the pattern occurs at some position |
| Text.RStrip | test.py:46 | `rstrip` returns a prefix that does not end in a stripped character, and removes only stripped characters |
| LuaGen.GenerateLuaCode | test.py:32-55 | the writer, including its `rstrip` of the whole text, produces exactly the reference layout: header, the entries of the keys 1..50 present, footer |
| LuaGen.VisitKey | test.py:37-50 | one pass of the key loop adds the entry of key i when i is present, and nothing otherwise |
| LuaGen.AppendEntry | test.py:38-50 | the statements for a present key append exactly that key's entry |
| LuaGen.AppendPointRows | test.py:43-44 | the inner loop appends one line per point, in order, each ending in `,\n` |
| LuaGen.StripPointLines | test.py:46 | `rstrip(",\n")` removes only the `,\n` after the last point line, or only the newline after `{` when there are no points |
| LuaGen.TrailingPointLines | test.py:43-44 | the appended rows are the point lines separated by `,\n`, with one more `,\n` at the end |
| LuaGen.KeysSpec | test.py:37-38 | the keys visited are exactly the keys of the map in 1..50, each once, strictly ascending |
| LuaGen.BodyOrder | test.py:37-50 | the body is the entries of the visited keys in ascending key order |
| LuaGen.BodyEmpty | test.py:37-38 | the body is empty exactly when no key of the map lies in 1..50 |
| LuaGen.EmptyPatterns | test.py:34-53 | an empty map gives the header followed directly by the footer |
| LuaGen.OnlyKeysInRange | test.py:37-38 | keys outside 1..50 do not change the output |
| LuaGen.TrailingComma | test.py:47-52 | when key 50 is absent but another key is present, a comma comes right before the closing brace of the table; when key 50 is present, no comma does |
| LuaGen.EntryJoin | test.py:40-50 | an entry is its lines joined by newlines: the comment line, `    {`, one line per point, the closing brace with its separator, and an empty last line |
| LuaGen.EntryLayout | test.py:40-50 | when no colour holds a newline, an entry cut at newlines is: the comment line, `    {`, one line per point with all but the last ending in `},` and the last in `}`, then `    }` followed by a comma exactly when the key is below 50; with no points this is `    {` directly followed by `    }` |
| Extraction.ProcessTestLua | test.py:57-79 | the extraction loop and the writer give the Lua text of the extracted map, and the reported count is the map's size |
| Extraction.SearchSpec | test.py:67 | the search finds a match exactly when the pattern occurs; the match is at the leftmost such position, with the span a backtracking engine tries first |
| Extraction.TryAtIff | test.py:67 | the matcher succeeds at a position exactly when the pattern can match there |
| Extraction.TryAtSound | test.py:67 | what the matcher reports is a way for the pattern to match |
| Extraction.TryAtComplete | test.py:67 | any way for the pattern to match at a position is found, with the same colon and a span tried no later |
| Extraction.BackOffSpec | test.py:67 | the `\s+` after the colon gives back characters only until `[^\n]+` can start, and no later start is possible |
| Extraction.PatternsBelowSpec | test.py:66-70 | the map built before key i holds exactly the earlier keys whose search succeeds, with the points of their groups |
| Extraction.ExtractKeys | test.py:66-70 | key i is in the map exactly when i is in 1..50 and its pattern occurs; its points are those of the captured group |
| Extraction.CountSpec | test.py:79 | the count is the number of keys whose pattern occurs, at most 50 |
| Extraction.KeyInsideLongerNumber | test.py:67 | the pattern for key 1 matches inside `11 : 7,8,9`, because nothing anchors the key |
| Extraction.ExampleContent | test.py:66-70 | the content `1 : 1,2,255` gives only key 1, with the single point (1, 2, `0x0000FF`): the numbers 2, 5 and 25 in the payload are never followed by whitespace |
| Extraction.CapturedOneLine | test.py:67 | the group `([^\n]+)` that a search captures never holds a newline |
| Extraction.ExtractedEntryLayout | test.py:67-70 | every entry the writer produces for the extracted map has that entry line layout, because each captured group is one line |

## Left out

- File input and output (test.py:62-63, 76-77) are left out. The content is a parameter of `ProcessTestLua`, and the Lua text is its result.
- The two messages printed at test.py:79-80 are left out. The reported count is an out-parameter.
- The start-up checks at test.py:82-90 are left out: `os.makedirs`, the existence check and `exit(1)`. They are process control with nothing to compute.
- Python's `int()` is modelled for ASCII digits with an optional sign and surrounding whitespace, and at most 4300 digits. Underscores between digits and non-ASCII decimal digits are not modelled: such tokens are treated as not parsing.
- Whitespace for `\s` is the character class of `str.isspace()`, written out. `int()` skips the same class without U+001C..U+001F, as CPython does. Unicode database versions may differ in rare characters.
- The regex engine is modelled only for the one pattern `{i}\s+:\s+([^\n]+)`, not in general.
- Python dictionaries are modelled as `map<int, seq<Point>>`. A key that is not an integer cannot be written. Integer keys outside 1..50 are allowed and shown to be ignored.
- A point dictionary is modelled as the `Point` datatype with fields x, y and color.
- Numbers.ParseIntChars: states only that an accepted token uses whitespace, digits and signs, not the full set of tokens `int()` accepts; ParseIntToString gives the converse for the decimal text of every integer within the digit limit.
- The limit of 4300 digits on decimal `int()` and `str()` is CPython's default since versions 3.11, 3.10.7, 3.9.14, 3.8.14 and 3.7.14. `sys.set_int_max_str_digits` can change it, and earlier releases have no limit. The model uses the default.
- LuaGen.GenerateLuaCode: prints every integer of the map in full. Python's `str()` would raise ValueError for an integer of more than 4300 digits. No map built by the extraction holds one (ColorParser.ColorPointsFit), so only maps from other callers are affected.
- The binary-plist to XML converter is not part of this model. It is a separate script that only calls a library codec.
