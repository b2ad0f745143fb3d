# Manifest text format: parser, writer and round trip

A manifest is a tree of named entries, for example files and directories.
Each entry carries a map of attributes: `size`, `mode`, `uid`, `gid`, `sha1`
or any other key. Its text format puts one entry per line:

    entry name { attr1: value1, attr2: value2 }   # comment

The indent of a line gives the entry's level. A deeper indent makes the
entry a child of the entry on the line before. A shallower indent climbs
back out, Python-style, to an indent that is already open.

This project models the front end and the back end of that format in Dafny:

- `ManifestLexer` is `Manifest.parse_lines` (manifest.py). On each line it
  drops the newline and any comment, expands tabs to eight blanks and
  measures the indent. It keeps a stack of open indent widths and yields
  `(level, token)` pairs. It stops with a broken-indent error when a dedent
  lands between two open widths.
- `Indentation` holds the per-line step that this lexer and the parser's
  own copy of the loop share: cleaning, measuring and the stack update.
- `ManifestFileParser` covers manifest_file.py:
  - `parse_uint`, with `int(s, 0)` modelled in `PyInt`;
  - `parse_sha1sum` and `parse_attr`;
  - `parse_token`, which splits off the attribute list at the last `{`;
  - `ManifestFileParser.parse_lines`, which yields `(level, name, attrs)`.
- `ManifestBuild` is `ManifestFileParser.build`. It adds every parsed entry
  to a fresh manifest:
  - under the entry before it when the entry is one level deeper;
  - under the node reached by `getparent()` steps when it is shallower;
  - beside the entry before it otherwise.
- `ManifestFileFormat` and `ManifestFileWriter` are `ManifestFileWriter`:
  - `format_attrs` writes the attributes in key order;
  - a mode is written as `0o%06o`;
  - `write` prints each child in name order, then its subtree one level
    deeper, each line indented by the indent repeated once per level.
- `ManifestTree` is the tree the parser builds, reduced to what the parser
  and the writer use:
  - a node is `Manifest(children, attrs)`;
  - a node is named by its path from the top;
  - `add` walks the path;
  - `getparent` drops the last component of the path.
- `PyStr` and `PyInt` model the Python string and integer operations the
  core relies on: `strip`, `lstrip`, `rstrip`, `lower`, `split`, `rsplit`,
  `replace`, `sorted`, `int(s, 0)`, `str(n)` and `"%06o"`.
- `ManifestRoundTrip` proves what the writer's docstring promises: the
  output of `write` can be read back by the parser. `WriteThenBuild` states
  it for every tree whose names, keys and text values are ASCII and avoid
  the characters the format gives a meaning to (`WellFormed`). With the
  default indent and no key filter, each printed line ends in its only
  newline, so iterating over the written text gives the printed lines
  back, and `build` of them gives back the same tree. The top node's
  attributes are not written, so the rebuilt top node has none.
- `ManifestExamples` gives concrete cases that mirror the repository's
  tests.

The parser's loops (`parse_lines`, the attribute loop of `parse_token`,
`build`) and the writer's methods are written as methods with loops. Each
is proved equal to a function, and the module's lemmas prove their
properties about that function. `write` prints to an `OutputFile` object,
whose `lines` field holds what has been printed so far.

Where the documentation and the code differ, the model follows the code.
The parser's docstring (manifest_file.py:26-28) says that the indent gives
the level at which an entry is added, and that a deeper indent makes an
entry a child of the entry before it. A first entry indented by any number
of blanks has no entry before it. The code still yields it at level 1
(`LexIndentedFirst`), and `build` adds it under the top node. When no
entry is at column 0, every entry then goes where it would go one level
up, and `build` gives the same tree as for the unindented text
(`BuildPaths`). A later entry at column 0 instead climbs from the top
node, whose `getparent()` is `None`, and the assertion in `build` fails
(`BuildPathsAboveTop`, `BuildAboveTop`, `BuildNoParent`).

## Model

| member | source | states |
|---|---|---|
| ManifestTree.GetParent | manifest_file.py:120-125 | the top node has no parent; any other node's parent is its path without the last component |
| ManifestTree.AddOutcome | test_Manifest_misc.py:11-40 | `add` succeeds exactly when every component is non-empty, the parent exists and the entry does not; it fails with an invalid path or a duplicate entry, and by which condition |
| ManifestTree.AddEffect | test_Manifest_misc.py:42-53 | after `add`, the new entry is a leaf with exactly the given attributes, and every other path has the attributes it had |
| ManifestTree.LookupPrefix | test_Manifest_misc.py:24-40 | every prefix of an existing path exists, so a parent is always present |
| ManifestTree.SameAttrsEverywhere | test_Manifest_misc.py:42-53 | two trees with the same attributes at every path are equal, so `AddEffect` fixes the whole new tree |
| Indentation.Popped | manifest.py:20-22 | popping stops at the first open width not above the indent; only widths above it are removed, and the rest is a prefix of the stack |
| Indentation.Reindent | manifest.py:18-26 | the loop's push, pop and broken-indent check compute `NextStack` |
| Indentation.PoppedAt | manifest.py:20-23 | a dedent to an open width pops back to exactly that width |
| Indentation.NextStackSpec | manifest.py:18-26 | a deeper indent is pushed; an indent already open pops back to it; the line fails exactly when the indent is shallower than the top and not open |
| Indentation.NextStackValid | manifest.py:9-22 | the stack keeps starting at 0 and strictly increasing, ends at the line's indent and grows by at most one width |
| Indentation.LineStep | manifest.py:12-28 | one line's outcome keeps the stack valid and grows it by at most one |
| Indentation.LineStepSpec | manifest.py:12-28 | a line is skipped exactly when nothing is left of it; it breaks exactly when the stack update fails, at an indent strictly between two open widths; otherwise it yields its stripped token with the new stack |
| Indentation.LineStepCases | manifest.py:12-28 | the outcome of a line in each of the three cases: blank, broken indent with the width it fell onto, or the new stack with the token |
| Indentation.TabStack | manifest.py:12-19 | `h` levels of tabs leave the stack of widths 0, 8, ..., 8h |
| Indentation.TabStep | manifest.py:12-22 | on a tab stack, a line of `d` tabs (d at most one deeper) leaves the tab stack of `d` levels |
| ManifestLexer.MeasuresAll | manifest.py:10-17 | the ghost measurements the loop walks are exactly each line's clean text, indent and token |
| ManifestLexer.LexLine | manifest.py:12-26 | the loop body on line `i` computes that line's step |
| ManifestLexer.LexTurn | manifest.py:10-29 | one turn of the loop: what is yielded so far plus the rest of the stream is unchanged |
| ManifestLexer.LexLines | manifest.py:9-29 | the loop yields exactly the stream `LexFrom` defines, and stops with its error |
| ManifestLexer.ParseLines | manifest.py:7-29 | `parse_lines` yields `Lex(lines)`: the pairs before the first broken indent, then that error |
| ManifestLexer.LexAdvance | manifest.py:14-29 | a blank line yields nothing; a broken line ends the stream with its line number, indent and the width it fell onto; an entry yields its level and token |
| ManifestLexer.LexFromClimbs | manifest.py:18-29 | from any valid stack, levels climb at most one at a time |
| ManifestLexer.LexClimbs | manifest.py:18-29 | the first level is at most 1 and each level is at most one above the one before |
| ManifestLexer.LexFromTokens | manifest.py:12-29 | the tokens yielded are a prefix of the non-blank lines' tokens, and all of them when no error stops the walk |
| ManifestLexer.MeasuredEntryTokens | manifest.py:12-28 | the measured tokens are the stripped tokens of the lines that hold an entry |
| ManifestLexer.LexTokens | manifest.py:12-29 | the yielded tokens are a prefix of the entry lines' tokens, and all of them when no error is raised |
| ManifestLexer.LexFromFailure | manifest.py:20-26 | a failure names an entry line, its measured indent and an open width below it |
| ManifestLexer.LexFailure | manifest.py:20-26 | a broken-indent error names an entry line whose indent is above the width it fell onto |
| PyStr.LStripCharSpec | manifest.py:13 | `lstrip(" ")` removes exactly the leading run of blanks |
| PyStr.RStripCharSpec | manifest.py:12 | `rstrip("\n")` removes exactly the trailing run of newlines |
| PyStr.LStripSpec | manifest_file.py:52 | `lstrip()` removes exactly the leading whitespace |
| PyStr.RStripSpec | manifest.py:28 | `rstrip()` removes exactly the trailing whitespace |
| PyStr.Strip | manifest_file.py:52-53 | `strip()` leaves no whitespace at either end and leaves stripped text alone |
| PyStr.BeforeFirstSpec | manifest.py:12 | `split('#', 1)[0]` is the longest prefix without `#` |
| PyStr.ExpandTabsSpec | manifest.py:12 | after `replace("\t", " " * 8)` no tab is left, and text without tabs is unchanged |
| PyStr.ExpandTabsAppend | manifest.py:12 | replacing tabs distributes over concatenation |
| PyStr.ExpandRepeatedTabs | manifest_file.py:164 | `n` tabs of indent become `8n` blanks |
| PyStr.Lower | manifest_file.py:52 | `lower()` keeps the length |
| PyStr.LowerNoUpper | manifest_file.py:52 | `lower()` leaves text without capitals unchanged |
| PyStr.Split | manifest_file.py:71 | `split(",")` gives at least one piece |
| PyStr.SplitSpec | manifest_file.py:71 | no piece holds the separator, and joining the pieces gives the text back |
| PyStr.SplitJoin | manifest_file.py:71 | splitting joined parts that hold no separator gives the parts back |
| PyStr.SplitFirstSpec | manifest_file.py:74 | `split(':', 1)` fails exactly without a `:`; otherwise it splits at the first one |
| PyStr.ReadJoinedLines | manifest_file.py:86 | iterating over a text made of lines that each end in their only newline yields exactly those lines |
| PyStr.RSplitLastSpec | manifest_file.py:65-67 | `rsplit('{', 1)` fails exactly without a `{`; otherwise it splits at the last one |
| PyStr.StrLessTransitive | manifest_file.py:160 | the order `sorted` uses on names is transitive |
| PyStr.StrLessTotal | manifest_file.py:160 | any two different names are ordered one way or the other |
| PyStr.SortedSetSpec | manifest_file.py:160 | sorting a set of names lists each of them once |
| PyStr.SortedSetSorted | manifest_file.py:160 | the list is strictly increasing |
| PyStr.SortedKeys | manifest_file.py:146 | `sorted(attrs.items())` lists as many keys as the map has, each one in it |
| PyStr.SortedKeysComplete | manifest_file.py:146 | every key of the map is listed |
| PyStr.SortedKeysSorted | manifest_file.py:146 | the keys are listed in strictly increasing order |
| PyInt.ParseIntLiteral | manifest_file.py:7 | `int(s, 0)` gives a negative number only for text whose stripped form starts with `-` |
| PyInt.ToDigits | manifest_file.py:139 | the digits of `n` in a base are valid digits, denote `n`, and start with `0` only for zero |
| PyInt.DecimalRoundTrip | manifest_file.py:137-141 | `int(str(n), 0) == n` |
| PyInt.ModeRoundTrip | manifest_file.py:139 | `int("0o%06o" % n, 0) == n` |
| PyInt.OctalLiteral | manifest_file.py:7 | `0o` and octal digits read back as their value |
| PyInt.PaddedValue | manifest_file.py:139 | `"%06o" % n` is octal digits with the value `n` |
| ManifestFileParser.ParseUint | manifest_file.py:6-10 | `parse_uint` refuses text that is not an integer literal, and a negative value, with an invalid-value error |
| ManifestFileParser.ParseSha1sum | manifest_file.py:12-16 | on success the value is the stripped, lowered text and it is 40 lower-case hex digits; otherwise the error names the text and the lowered text is not such a sum |
| ManifestFileParser.ParseAttr | manifest_file.py:50-53 | the key is stripped and lowered |
| ManifestFileParser.LowerStripCanonical | manifest_file.py:52 | a stripped, lowered key has no whitespace at its ends and no capitals |
| ManifestFileParser.ParseAttrParsed | manifest_file.py:38-53 | a parsed attribute has a canonical key; `mode`, `uid`, `gid` and `size` hold a number, `sha1` a sum, any other key stripped text |
| ManifestFileParser.AttrsFromErr | manifest_file.py:71-75 | once a piece fails, the list fails with that piece's error |
| ManifestFileParser.AttrsFromStep | manifest_file.py:71-75 | each piece extends the attributes collected from the pieces before it |
| ManifestFileParser.ParseAttrList | manifest_file.py:70-75 | the attribute loop computes `AttrsFrom` of the pieces, including the first error |
| ManifestFileParser.ParseToken | manifest_file.py:55-77 | `parse_token` computes `SplitToken`, including its errors |
| ManifestFileParser.SplitTokenNoBrace | manifest_file.py:64-67 | a token without `{` is the name as it is, with no attributes |
| ManifestFileParser.AttrsFromBlank | manifest_file.py:72-73 | pieces that are all blank give no attributes |
| ManifestFileParser.AddPieceSpec | manifest_file.py:72-75 | a blank piece changes nothing; any other piece sets its parsed key to its parsed value and leaves other keys |
| ManifestFileParser.AttrsFromInit | manifest_file.py:71-75 | a list that parses is its pieces before the last, then the last |
| ManifestFileParser.AttrsFromParsed | manifest_file.py:38-75 | every collected key is canonical and holds a value of the kind its validator gives |
| ManifestFileParser.NamedSnoc | manifest_file.py:71-75 | a key is named by the pieces exactly when it is named before the last piece or by the last |
| ManifestFileParser.AttrsFromKeys | manifest_file.py:71-75 | the collected keys are exactly those some piece names |
| ManifestFileParser.AttrsFromLast | manifest_file.py:75 | a key named more than once takes the value of its last piece |
| ManifestFileParser.SplitTokenErr | manifest_file.py:64-69 | a token can only fail when it holds a `{` |
| ManifestFileParser.AttrsFromErrorKind | manifest_file.py:71-75 | an attribute list fails only with a malformed list or an invalid value |
| ManifestFileParser.SplitTokenErrorKind | manifest_file.py:55-77 | a token fails only with a malformed list or an invalid value |
| ManifestFileParser.TokenizeCons | manifest_file.py:105-106 | a token that fails ends the stream with its error; one that splits yields its level, name and attributes ahead of the rest |
| ManifestFileParser.TokenizeShape | manifest_file.py:104-106 | each triple has its pair's level and its token's split; fewer triples than pairs only after a token error; the error is the lexer's or a token error |
| ManifestFileParser.FileAdvance | manifest_file.py:88-106 | the four outcomes of a line: skipped, broken indent, token error, or a yielded triple |
| ManifestFileParser.FileLexTurn | manifest_file.py:86-106 | one turn of the loop: what is yielded so far plus the rest of the stream is unchanged |
| ManifestFileParser.FileLexLines | manifest_file.py:84-106 | the loop yields the triples of the lexed pairs and stops with the first error |
| ManifestFileParser.ParseLines | manifest_file.py:79-106 | `parse_lines` yields `FileLex(lines)`: the lexer's pairs with tokens split |
| ManifestFileParser.FileLexClimbs | manifest_file.py:93-106 | the triples' levels start at most at 1 and climb by at most one at a time |
| ManifestFileParser.FileLexFailure | manifest_file.py:79-106 | a failure is a broken indent on an entry line, or a token error |
| ManifestBuild.ClimbSpec | manifest_file.py:120-125 | `n` `getparent()` steps drop the last `n` components, and reach `None` above the top |
| ManifestBuild.Ascend | manifest_file.py:120-125 | the climbing loop computes those steps |
| ManifestBuild.PlaceEntry | manifest_file.py:116-127 | one turn of the build loop computes `BuildStep` |
| ManifestBuild.Build | manifest_file.py:108-128 | `build` computes `BuildManifest`: the triples in order, stopping at the first error |
| ManifestBuild.BuildStepSpec | manifest_file.py:116-127 | going more than one level deeper is a skipped level; climbing above the top has no parent; otherwise the entry is added under the open node at its level and becomes `prev` |
| ManifestBuild.BuildItemsSnoc | manifest_file.py:115-127 | a later entry is processed from the state the earlier ones leave, and not at all after an error |
| ManifestBuild.BuildItemsErrors | manifest_file.py:113-128 | when levels climb by at most one, building fails only above the top or in `add` |
| ManifestBuild.BuildErrors | manifest_file.py:108-128 | `build` raises a broken indent of an entry line, a token error, a dedent above the top or an error of `add`, and never a skipped level |
| ManifestBuild.BuildItemsNoDedent | manifest_file.py:120-125 | entries that never go above the starting depth never climb past the top |
| ManifestBuild.BuildItemsNoParent | manifest_file.py:113-125 | the no-parent error needs a first entry at level 1 and a later entry at level 0 |
| ManifestBuild.BuildNoParent | manifest_file.py:108-125 | the same for the entries parsed from text lines |
| ManifestBuild.BuildItemsAppend | manifest_file.py:115-127 | entries processed in two runs: the second run starts from the state the first leaves, and is skipped after an error |
| ManifestBuild.PathAt | manifest_file.py:116-127 | in the reference, an entry lies under the path of the entry before it, cut at its own level, whether the first entry is at level 0 or 1 |
| ManifestBuild.BuildPaths | manifest_file.py:113-128 | when the first entry is at level 0, or no entry is, the build loop matches the reference: each entry added at its path, under the last entry one level up or under the top node |
| ManifestBuild.BuildPathsAboveTop | manifest_file.py:113-125 | a first entry at level 1 and a later one at level 0: building always fails, with the error of an entry before it or with no parent |
| ManifestBuild.BuildManifestPaths | manifest_file.py:108-128 | when the first entry is unindented, or no entry is: `build` gives the reference tree, the first `add` error, or the parser's error after all the entries before it were added |
| ManifestBuild.BuildManifestAboveTop | manifest_file.py:108-125 | the same failure for the entries parsed from text lines |
| ManifestFileFormat.FormatValueSpec | manifest_file.py:137-141 | a written number reads back with `int(s, 0)`, a mode in `0o` form too; text is written as it is |
| ManifestFileFormat.Filter | manifest_file.py:162-163 | the written attributes are those whose key is in `attrkeys`, with their values, or all of them when there is no filter |
| ManifestFileWriter.FormatAttrs | manifest_file.py:143-150 | `format_attrs` writes nothing for no attributes, and otherwise ` {k: v, ...}` in key order |
| ManifestFileWriter.OutputFile.Print | manifest_file.py:164 | `print` appends one line, ended by a newline, to what the file holds |
| ManifestFileWriter.LineText | manifest_file.py:161-164 | the printed text is the indent repeated once per level, the name and the filtered attributes |
| ManifestFileWriter.WriteChild | manifest_file.py:160-165 | one child's line, then its subtree one level deeper |
| ManifestFileWriter.Write | manifest_file.py:152-165 | `write` appends exactly `WriteLines`: each child in name order, then its subtree |
| ManifestRoundTrip.WellFormedModes | manifest_file.py:137-141 | in a tree the format can carry every mode is a number, so `write` can format it |
| ManifestRoundTrip.ParseAttrWritten | manifest_file.py:50-53 | `parse_attr` of a written `k: v` piece, after its pad, gives back the key and the value |
| ManifestRoundTrip.SplitJoinComma | manifest_file.py:71 | splitting at `,` what `", ".join` wrote gives the parts back, each but the first after one blank |
| ManifestRoundTrip.AddPieceWritten | manifest_file.py:72-75 | a written piece adds its key with its value |
| ManifestRoundTrip.AttrsFromWritten | manifest_file.py:70-75 | the written pieces parse back into those attributes |
| ManifestRoundTrip.SplitTokenWritten | manifest_file.py:55-77 | `parse_token` of a written token gives back its name and attributes |
| ManifestRoundTrip.MeasureWritten | manifest_file.py:88-104 | a written line reads back with indent 8 per level and the written token |
| ManifestRoundTrip.ChildrenWritten | manifest_file.py:152-165 | the lines `write` prints are, one by one, the written lines of the tree's entries in pre-order |
| ManifestRoundTrip.SubtreeWritten | manifest_file.py:160-165 | a child's lines are its own line, then its subtree's |
| ManifestRoundTrip.EntriesClimbing | manifest_file.py:165 | the written entries never drop below the starting level and climb by at most one |
| ManifestRoundTrip.LexWritten | manifest_file.py:93-106 | on a tab stack the lexer yields every written entry with its level, and no error |
| ManifestRoundTrip.TokenizeWritten | manifest_file.py:105-106 | splitting the lexed tokens gives the written entries back |
| ManifestRoundTrip.FileLexWritten | manifest_file.py:79-106 | `parse_lines` of written lines yields exactly their entries, and no error |
| ManifestRoundTrip.BuildEntries | manifest_file.py:108-128 | building a tree's entries from a fresh manifest gives that tree |
| ManifestRoundTrip.WrittenOneLine | manifest_file.py:164 | a printed entry line ends in its only newline and holds no carriage return |
| ManifestRoundTrip.PrintedLinesReadBack | manifest_file.py:152-165 | every line `write` prints is one line of the file, so iterating over the written text gives the printed lines back |
| ManifestRoundTrip.WriteThenBuild | manifest_file.py:133-165 | reading back the text `write` writes, with the default indent and no filter, gives the printed lines, and `build` of them gives back the written tree; the top node comes back without attributes |
| ManifestExamples.ParseUintOctal | test_ManifestFileParser.py:180-184 | `0o100644` parses as 33188 |
| ManifestExamples.ParseUintDecimal | test_ManifestFileParser.py:180-184 | `1000` parses as 1000 |
| ManifestExamples.ParseUintMinusZero | manifest_file.py:6-10 | `-0` is not negative, so it parses as 0 |
| ManifestExamples.ParseUintNegative | test_ManifestFileParser.py:186-189 | `-13` is refused |
| ManifestExamples.ParseUintNotInt | test_ManifestFileParser.py:186-189 | `not_int` is refused |
| ManifestExamples.ParseUintBadHex | test_ManifestFileParser.py:186-189 | `0x123foo` is refused |
| ManifestExamples.ParseSha1sumRefuses | test_ManifestFileParser.py:176-178 | `not_hex` and the too-short `123` are refused |
| ManifestExamples.SplitTokenEmptyList | test_ManifestFileParser.py:82-83 | `foo {}` is the name `foo` with no attributes |
| ManifestExamples.BuildChildAndSibling | test_ManifestFileParser.py:126-128 | `foo`, then `bar` one level deeper, then `fooz` at level 0 give `{foo: {bar}, fooz}` |
| ManifestExamples.BuildAboveTop | manifest_file.py:120-125 | an entry at level 1, then one at level 0, climbs above the top and fails |
| ManifestExamples.LexBrokenIndent | manifest.py:80-81 | indents 0, 8 and 9, then 2, yield levels 0, 1 and 2, then fail at line 3 on indent 2 against width 0 |
| ManifestExamples.LexMultiDedent | manifest.py:76-78 | indents 0, 8 and 9, then 0, yield levels 0, 1, 2 and 0 |
| ManifestExamples.LexIndentedFirst | manifest.py:83-85 | blank lines around one entry indented by two columns yield it at level 1 |
| ManifestExamples.NonAsciiNotCarried | manifest_file.py:104 | a name ending in U+00A0, which `rstrip` would remove, and a key holding U+00C9, which `lower` would change, are not `WellFormed` |

## Left out

- Whitespace and case: `IsSpace` is the whitespace of Python 3 `str.isspace` on ASCII: space, `\t`, `\n`, `\v`, `\f`, `\r` and `\x1c` to `\x1f`. Python 2 byte strings do not strip `\x1c` to `\x1f`, so under Python 2 a name or value with those characters at its ends reads differently. `LowerChar` is ASCII case folding. Unicode whitespace and `lower()` are not modelled.
- PyInt.ParseIntLiteral: models `int(s, 0)` as surrounding whitespace, an optional sign, then `0x`, `0o`, `0b` digits or a decimal without leading zeros. Two readings are not modelled: Python 2 reads a decimal with a leading zero, such as `010`, as legacy octal, and Python 3.6 and later accept underscores between digits. Non-ASCII digits are not modelled either.
- ManifestFileFormat.FormatValue: `"0o%06o"` on a mode that is not an integer raises `TypeError` in Python. Here it is a precondition, `ModeIsUint`, on the writer's members.
- Tree objects: a node is a value named by its path, not an object with a parent link. Aliasing between `prev`, `cur` and the tree is not modelled, and `getparent` is the path without its last component.
- ManifestTree.Add: the source of `Manifest.add` and `getparent` is not part of this model. `Add` follows the behaviour the repository's tests give them. A duplicate entry is an error; no test covers that case.
- ManifestFileWriter.OutputFile: the file is the list of printed lines, and its text is their concatenation. Iterating over a file is `ReadLines`, which breaks after each `\n`. Universal-newline reading also breaks at a lone `\r`; a line `write` prints never holds one. The file object, its encoding and I/O errors are not modelled.
- Generators: `parse_lines` is modelled as the list of values it yields before it raises, plus the error, if any. That preserves what `build` sees and the order of errors. Laziness is not modelled.
- Error text: exceptions are `Error` values. The text of their messages and the file name in them are not modelled. An `AssertionError` in `parse_token` and the `TypeError` of a piece without `:` are both `MalformedAttributes`. The assertions of `build` are `LevelSkipped` and `NoParent`.
- ManifestRoundTrip.WriteThenBuild: stated for the default indent `"\t"`, level 0 and no `attrkeys`, and for `WellFormed` trees. In such a tree names, keys and text values are ASCII: the model's `strip` and `lower` are ASCII only, and Python 3 also strips non-ASCII whitespace such as U+00A0 and lowers non-ASCII capitals such as U+00C9, so such text would not come back unchanged. Names are non-empty, have no blanks at their ends and hold no `{`, `#`, tab, newline or carriage return. Keys are canonical and hold no `:`, `{`, `,`, `#`, tab, newline or carriage return. Values are of the kind `parse_attr` gives, and text values hold none of those characters. Other trees do not survive the text (a `#` starts a comment, for one); this is not claimed for them. The top node's own attributes are not written, so they come back empty.
- Examples on text: the lexer examples are stated on measured lines (indent and token) rather than on raw text. The raw-text tests are covered by the general lemmas `LineStepSpec`, `MeasureWritten` and `LexTokens`. The SHA-1 lowering, size and unknown-key examples are not stated as concrete cases; `ParseSha1sum`, `ParseAttr` and `ParseAttrParsed` state them in general.
- Rest of the repository: directory and tar walkers, merge, diff, resolve and the tests' `Manifest` conveniences (`getattrs`, equality with dicts) are outside this core.
