/**
 * What `ManifestFileWriter` promises about `ManifestFileParser`: the text
 * `write` produces with its defaults (level 0, a tab per level, every
 * attribute) is read back by `build` as the same manifest, for names,
 * keys and values the text format can carry. The top node's own
 * attributes are not written, so `build` gives a top node without any.
 */
module ManifestRoundTrip {
  import opened Wrappers
  import opened PyStr
  import opened PyInt
  import opened ManifestTree
  import opened Indentation
  import opened ManifestFileParser
  import opened ManifestFileFormat
  import opened ManifestBuild
  import ManifestLexer

  // ---------------------------------------------------------------------
  // What the text format can carry
  // ---------------------------------------------------------------------

  /**
   * A character the format gives a meaning to inside a token: a comment, a
   * tab, an attribute list, a piece separator, or a line break (the file
   * is re-read line by line, and universal-newline reading also breaks at
   * a carriage return).
   */
  predicate Reserved(c: char) {
    c == '#' || c == '\t' || c == '{' || c == ',' || c == '\n' || c == '\r'
  }

  /** ASCII text without a reserved character. */
  predicate Plain(s: string) {
    Ascii(s) && forall i :: 0 <= i < |s| ==> !Reserved(s[i])
  }

  /**
   * A name that survives a line: not empty (`add` refuses that), no
   * whitespace at the ends (the indent and `rstrip` would eat it), no `{`
   * (the attribute list starts at one), no `#`, no tab and no line break;
   * and ASCII, since Python strips more whitespace than ASCII has.
   */
  predicate NameOk(n: string) {
    n != "" && Ascii(n) && Trimmed(n) && '{' !in n && '#' !in n && '\t' !in n && '\n' !in n && '\r' !in n
  }

  /** A key that survives a piece: canonical, and without `:` or a reserved character. */
  predicate KeyOk(k: string) {
    CanonicalKey(k) && ':' !in k && Plain(k)
  }

  /** A value that survives a piece: one `parse_attr` can give, and text without a reserved character. */
  predicate ValueOk(k: string, v: AttrValue) {
    ParsedValue(k, v) && (v.Text? ==> Plain(v.s))
  }

  predicate AttrsOk(attrs: Attrs) {
    forall k :: k in attrs ==> KeyOk(k) && ValueOk(k, attrs[k])
  }

  /** Every node below `m` has a name and attributes the format can carry. */
  predicate WellFormed(m: Manifest)
    decreases m
  {
    forall n :: n in m.children ==> NameOk(n) && AttrsOk(m.children[n].attrs) && WellFormed(m.children[n])
  }

  lemma AttrsOkModeIsUint(attrs: Attrs)
    requires AttrsOk(attrs)
    ensures ModeIsUint(attrs)
  {
    if "mode" in attrs {
      assert ParsedValue("mode", attrs["mode"]);
    }
  }

  lemma {:induction false} WellFormedModes(m: Manifest)
    requires WellFormed(m)
    ensures ModesUint(m)
    decreases m
  {
    forall n | n in m.children ensures ModeIsUint(m.children[n].attrs) && ModesUint(m.children[n]) {
      AttrsOkModeIsUint(m.children[n].attrs);
      WellFormedModes(m.children[n]);
    }
  }

  // ---------------------------------------------------------------------
  // One entry: its token and its line
  // ---------------------------------------------------------------------

  /** An entry the format can carry. */
  predicate ItemOk(it: Item) {
    NameOk(it.name) && AttrsOk(it.attrs)
  }

  /** The token of an entry's line: the name, then the attribute list. */
  function TokenText(it: Item): string
    requires ItemOk(it)
  {
    AttrsOkModeIsUint(it.attrs);
    it.name + AttrsText(it.attrs)
  }

  /** The line `write` prints for an entry: a tab per level, then the token. */
  function Written(it: Item): string
    requires ItemOk(it)
  {
    AttrsOkModeIsUint(it.attrs);
    EntryLine(it.name, it.attrs, it.level, "\t", None)
  }

  lemma PlainAppend(a: string, b: string)
    requires Plain(a) && Plain(b)
    ensures Plain(a + b)
  {
    forall i | 0 <= i < |a + b| ensures !Reserved((a + b)[i]) {
      if i >= |a| {
        assert (a + b)[i] == b[i - |a|];
      }
    }
  }

  lemma PlainNotIn(s: string)
    requires Plain(s)
    ensures '{' !in s && ',' !in s && '#' !in s && '\t' !in s && '\n' !in s && '\r' !in s
  {
    forall i | 0 <= i < |s| ensures s[i] != '{' && s[i] != ',' && s[i] != '#' && s[i] != '\t' && s[i] != '\n' && s[i] != '\r' {
      assert !Reserved(s[i]);
    }
  }

  /** Digits are plain and trimmed. */
  lemma DigitsPlain(s: string, base: nat)
    requires AllDigits(s, base)
    ensures Plain(s) && Trimmed(s)
  {
    forall i | 0 <= i < |s| ensures !Reserved(s[i]) {
      assert IsDigitIn(s[i], base);
    }
    DigitsTrimmed(s, base);
  }

  /** `"0o%06o" % n` is plain and trimmed. */
  lemma ModeTextPlain(n: nat)
    ensures Plain(ModeText(n)) && Trimmed(ModeText(n))
  {
    PaddedValue(n);
    var padded := ZeroPadded(ToDigits(n, 8), 6);
    DigitsPlain(padded, 8);
    assert Plain("0o");
    PlainAppend("0o", padded);
    var text := ModeText(n);
    assert text[|text| - 1] == padded[|padded| - 1];
  }

  /** A written value is plain and trimmed. */
  lemma FormatValuePlain(k: string, v: AttrValue)
    requires ValueOk(k, v)
    ensures k == "mode" ==> v.Uint?
    ensures Plain(FormatValue(k, v)) && Trimmed(FormatValue(k, v))
  {
    if v.Uint? {
      if k == "mode" {
        ModeTextPlain(v.n);
      } else {
        DigitsPlain(Decimal(v.n), 10);
      }
    }
  }

  /** Blanks only. */
  predicate Blanks(pad: string) {
    forall i :: 0 <= i < |pad| ==> pad[i] == ' '
  }

  /** `parse_attr` on a written piece, after the blanks that `", "` leaves, gives back the key and the value. */
  lemma ParseAttrWritten(pad: string, k: string, v: AttrValue)
    requires Blanks(pad) && KeyOk(k) && ValueOk(k, v)
    ensures k == "mode" ==> v.Uint?
    ensures ParseAttr(pad + k, " " + FormatValue(k, v)) == Ok((k, v))
  {
    FormatValuePlain(k, v);
    var text := FormatValue(k, v);
    StripAfterSpaces(pad, k);
    LowerNoUpper(k);
    StripAfterSpaces(" ", text);
    if k in UintKeys {
      FormatValueSpec(k, v);
      assert ParseUint(text) == Ok(v.n);
    } else if k == "sha1" {
      LowerNoUpper(v.s);
      assert ParseSha1sum(text) == Ok(v.s);
    }
  }

  /** Text with a non-blank character does not strip to nothing. */
  lemma StripKeeps(s: string, i: nat)
    requires i < |s| && !IsSpace(s[i])
    ensures Strip(s) != []
  {
    RStripSpec(s);
    var r := RStrip(s);
    LStripSpec(r);
    assert i < |r|;
    assert r[i] == s[i];
  }

  /** The blanks in front of piece `j` of `", ".join(...)` split at `,`: none for the first. */
  function Pad(j: nat): string {
    if j == 0 then "" else " "
  }

  /** The pieces `", ".join(parts).split(",")` gives: each part after its pad. */
  function Spaced(parts: seq<string>): (r: seq<string>)
    ensures |r| == |parts|
  {
    seq(|parts|, j requires 0 <= j < |parts| => Pad(j) + parts[j])
  }

  /** Splitting at `,` text that starts with a blank puts the blank in front of the first piece. */
  lemma SplitAfterBlank(t: string)
    ensures var rest := Split(t, ',');
      Split(" " + t, ',') == [" " + rest[0]] + rest[1..]
  {
    assert (" " + t)[0] == ' ' && (" " + t)[1..] == t;
  }

  /** The pieces of two or more parts: the first part, the second after a blank, then the rest. */
  lemma SpacedCons(parts: seq<string>)
    requires |parts| >= 2
    ensures Spaced(parts) == [parts[0]] + ([" " + Spaced(parts[1..])[0]] + Spaced(parts[1..])[1..])
  {
    var r := [parts[0]] + ([" " + Spaced(parts[1..])[0]] + Spaced(parts[1..])[1..]);
    forall j | 0 <= j < |parts| ensures r[j] == Spaced(parts)[j] {
      if j >= 2 {
        assert r[j] == Spaced(parts[1..])[j - 1];
      }
    }
  }

  /** Splitting at `,` what was joined with `", "` gives the parts, each but the first after one blank. */
  lemma {:induction false} SplitJoinComma(parts: seq<string>)
    requires |parts| >= 1 && forall j :: 0 <= j < |parts| ==> ',' !in parts[j]
    ensures Split(Join(", ", parts), ',') == Spaced(parts)
    decreases |parts|
  {
    if |parts| == 1 {
      SplitNoSep(parts[0], ',');
      assert Spaced(parts)[0] == parts[0];
    } else {
      var j' := Join(", ", parts[1..]);
      assert Join(", ", parts) == parts[0] + [','] + (" " + j');
      SplitAfter(parts[0], ',', " " + j');
      SplitJoinComma(parts[1..]);
      SplitAfterBlank(j');
      SpacedCons(parts);
    }
  }

  /** `"%s: %s" % (k, v)` pieces are plain when keys and values are. */
  lemma {:induction false} AttrItemsPlain(attrs: Attrs, keys: seq<string>)
    requires AttrsOk(attrs) && ModeIsUint(attrs) && forall i :: 0 <= i < |keys| ==> keys[i] in attrs
    ensures forall j :: 0 <= j < |keys| ==> Plain(AttrItems(attrs, keys)[j])
    decreases |keys|
  {
    if keys != [] {
      var init := keys[..|keys| - 1];
      var k := keys[|keys| - 1];
      AttrItemsPlain(attrs, init);
      FormatValuePlain(k, attrs[k]);
      assert Plain(": ");
      PlainAppend(k, ": ");
      PlainAppend(k + ": ", FormatValue(k, attrs[k]));
    }
  }

  /** One more part, one more piece. */
  lemma SpacedSnoc(parts: seq<string>, x: string)
    ensures Spaced(parts + [x]) == Spaced(parts) + [Pad(|parts|) + x]
  {
    var l := Spaced(parts + [x]);
    var r := Spaced(parts) + [Pad(|parts|) + x];
    forall j | 0 <= j < |l| ensures l[j] == r[j] {
      if j < |parts| {
        assert (parts + [x])[j] == parts[j];
      }
    }
  }

  /** A written piece adds its key with its value. */
  lemma AddPieceWritten(acc: Attrs, n: nat, k: string, v: AttrValue)
    requires KeyOk(k) && ValueOk(k, v)
    ensures k == "mode" ==> v.Uint?
    ensures AddPiece(acc, Pad(n) + (k + ": " + FormatValue(k, v))) == Ok(acc[k := v])
  {
    var text := FormatValue(k, v);
    var piece := Pad(n) + (k + ": " + text);
    ColonRegroup(Pad(n), k, text);
    StripKeeps(piece, |Pad(n) + k|);
    assert ':' !in Pad(n) + k;
    SplitFirstAt(Pad(n) + k, ':', " " + text);
    ParseAttrWritten(Pad(n), k, v);
  }

  lemma ColonRegroup(a: string, k: string, t: string)
    ensures a + (k + ": " + t) == (a + k) + [':'] + (" " + t)
  {
  }

  /** The entries of `keys` in `attrs`, added from the first to the last. */
  function KeysMap<V>(attrs: map<string, V>, keys: seq<string>): map<string, V>
    requires forall i :: 0 <= i < |keys| ==> keys[i] in attrs
    decreases |keys|
  {
    if keys == [] then map[]
    else KeysMap(attrs, keys[..|keys| - 1])[keys[|keys| - 1] := attrs[keys[|keys| - 1]]]
  }

  /** Every key of `keys`, and only those, with its value in `attrs`. */
  lemma {:induction false} KeysMapSpec<V>(attrs: map<string, V>, keys: seq<string>)
    requires forall i :: 0 <= i < |keys| ==> keys[i] in attrs
    ensures forall k :: k in KeysMap(attrs, keys) <==> k in keys
    ensures forall k :: k in KeysMap(attrs, keys) ==> KeysMap(attrs, keys)[k] == attrs[k]
    decreases |keys|
  {
    if keys != [] {
      var init := keys[..|keys| - 1];
      KeysMapSpec(attrs, init);
      assert keys == init + [keys[|keys| - 1]];
    }
  }

  /** Parsing the written pieces of `keys` gives the attributes of those keys. */
  lemma {:induction false} AttrsFromWritten(attrs: Attrs, keys: seq<string>)
    requires AttrsOk(attrs) && ModeIsUint(attrs) && forall i :: 0 <= i < |keys| ==> keys[i] in attrs
    ensures AttrsFrom(Spaced(AttrItems(attrs, keys))) == Ok(KeysMap(attrs, keys))
    decreases |keys|
  {
    if keys != [] {
      var n := |keys| - 1;
      var init := keys[..n];
      var k := keys[n];
      var items := AttrItems(attrs, init);
      var item := k + ": " + FormatValue(k, attrs[k]);
      AttrsFromWritten(attrs, init);
      assert AttrItems(attrs, keys) == items + [item];
      SpacedSnoc(items, item);
      var pieces := Spaced(items) + [Pad(n) + item];
      AttrsFromStep(pieces, n, KeysMap(attrs, init));
      AddPieceWritten(KeysMap(attrs, init), n, k, attrs[k]);
      assert pieces[..n + 1] == pieces;
    }
  }

  /** Text that fits in the token of one line: no attribute list, no comment, no tab, no line break. */
  predicate Inline(s: string) {
    '{' !in s && '#' !in s && '\t' !in s && '\n' !in s && '\r' !in s
  }

  /** Pieces that fit in a line, joined, fit in a line. */
  lemma {:induction false} JoinInline(parts: seq<string>)
    requires forall j :: 0 <= j < |parts| ==> Inline(parts[j])
    ensures Inline(Join(", ", parts))
    decreases |parts|
  {
    if |parts| > 1 {
      JoinInline(parts[1..]);
    }
  }

  /** The attribute list `format_attrs` writes for attributes the format can carry, and its pieces. */
  lemma AttrsTextPieces(attrs: Attrs)
    requires AttrsOk(attrs) && |attrs| > 0
    ensures ModeIsUint(attrs)
    ensures var keys := SortedKeys(attrs); var items := AttrItems(attrs, keys);
      AttrsText(attrs) == " {" + Join(", ", items) + "}" &&
      Inline(Join(", ", items)) && items != [] &&
      Split(Join(", ", items), ',') == Spaced(items) &&
      KeysMap(attrs, keys) == attrs
  {
    AttrsOkModeIsUint(attrs);
    var keys := SortedKeys(attrs);
    var items := AttrItems(attrs, keys);
    AttrItemsPlain(attrs, keys);
    PlainJoin(items);
    SplitJoinComma(items);
    SortedKeysComplete(attrs);
    KeysMapSpec(attrs, keys);
  }

  /** The attribute list ends in `}` and holds no comment, no tab and no line break. */
  lemma AttrsTextOutline(attrs: Attrs)
    requires AttrsOk(attrs) && |attrs| > 0
    ensures ModeIsUint(attrs)
    ensures var a := AttrsText(attrs);
      a != [] && a[|a| - 1] == '}' && '#' !in a && '\t' !in a && '\n' !in a && '\r' !in a
  {
    ItemsInline(attrs);
    BracedOutline(Join(", ", AttrItems(attrs, SortedKeys(attrs))));
  }

  /** The written attribute items, joined, fit in a line. */
  lemma ItemsInline(attrs: Attrs)
    requires AttrsOk(attrs)
    ensures ModeIsUint(attrs) && Inline(Join(", ", AttrItems(attrs, SortedKeys(attrs))))
  {
    AttrsOkModeIsUint(attrs);
    AttrItemsPlain(attrs, SortedKeys(attrs));
    PlainJoin(AttrItems(attrs, SortedKeys(attrs)));
  }

  /** Plain parts hold no `,` and fit in a line, and so does their join. */
  lemma PlainJoin(parts: seq<string>)
    requires forall j :: 0 <= j < |parts| ==> Plain(parts[j])
    ensures forall j :: 0 <= j < |parts| ==> Inline(parts[j]) && ',' !in parts[j]
    ensures Inline(Join(", ", parts))
  {
    forall j | 0 <= j < |parts| ensures Inline(parts[j]) && ',' !in parts[j] {
      PlainNotIn(parts[j]);
    }
    JoinInline(parts);
  }

  lemma BracedOutline(list: string)
    requires Inline(list)
    ensures var a := " {" + list + "}";
      a != [] && a[|a| - 1] == '}' && '#' !in a && '\t' !in a && '\n' !in a && '\r' !in a
  {
  }

  /** `parse_token` on `name {list}`: the name, and the attributes of the list's pieces. */
  lemma SplitTokenAt(token: string, name: string, list: string, attrs: Attrs)
    requires token == name + " {" + list + "}"
    requires name == [] || !IsSpace(name[|name| - 1])
    requires '{' !in list && AttrsFrom(Split(list, ',')) == Ok(attrs)
    ensures SplitToken(token) == Ok((name, attrs))
  {
    BraceRegroup(name, list);
    RSplitLastAt(name + " ", '{', list + "}");
    assert (list + "}")[..|list|] == list;
    RStripTrailingBlank(name);
  }

  lemma BraceRegroup(name: string, list: string)
    ensures name + " {" + list + "}" == (name + " ") + ['{'] + (list + "}")
  {
  }

  /** `parse_token` reads back the name and the attributes of a written token. */
  lemma SplitTokenWritten(it: Item)
    requires ItemOk(it)
    ensures SplitToken(TokenText(it)) == Ok((it.name, it.attrs))
  {
    if |it.attrs| == 0 {
      assert TokenText(it) == it.name;
      SplitTokenBare(it.name, it.attrs);
    } else {
      SplitTokenListed(it.name, it.attrs);
    }
  }

  lemma SplitTokenBare(name: string, attrs: Attrs)
    requires NameOk(name) && |attrs| == 0
    ensures SplitToken(name) == Ok((name, attrs))
  {
    RSplitLastSpec(name, '{');
  }

  lemma SplitTokenListed(name: string, attrs: Attrs)
    requires NameOk(name) && AttrsOk(attrs) && |attrs| > 0
    ensures ModeIsUint(attrs)
    ensures SplitToken(name + AttrsText(attrs)) == Ok((name, attrs))
  {
    AttrsTextPieces(attrs);
    var keys := SortedKeys(attrs);
    var list := Join(", ", AttrItems(attrs, keys));
    AttrsFromWritten(attrs, keys);
    AppendAssoc(name, " {" + list, "}");
    AppendAssoc(name, " {", list);
    SplitTokenAt(name + AttrsText(attrs), name, list, attrs);
  }

  /** The token starts with the name's first character, ends in a non-blank and fits in a line. */
  lemma TokenTextShape(it: Item)
    requires ItemOk(it)
    ensures var t := TokenText(it);
      t != [] && t[0] == it.name[0] && !IsSpace(t[|t| - 1]) && '#' !in t && '\t' !in t &&
      '\n' !in t && '\r' !in t
  {
    var t := TokenText(it);
    if |it.attrs| > 0 {
      AttrsTextOutline(it.attrs);
      var a := AttrsText(it.attrs);
      assert t == it.name + a;
      assert t[|t| - 1] == a[|a| - 1];
    } else {
      assert t == it.name;
    }
  }

  // ---------------------------------------------------------------------
  // One written line, as `parse_lines` measures it
  // ---------------------------------------------------------------------

  lemma BeforeFirstAbsent(s: string, c: char)
    requires c !in s
    ensures BeforeFirst(s, c) == s
  {
    BeforeFirstSpec(s, c);
  }

  lemma {:induction false} LStripCharAfter(pad: string, s: string, c: char)
    requires forall i :: 0 <= i < |pad| ==> pad[i] == c
    requires s == [] || s[0] != c
    ensures LStripChar(pad + s, c) == s
  {
    if pad != [] {
      assert (pad + s)[0] == c && (pad + s)[1..] == pad[1..] + s;
      LStripCharAfter(pad[1..], s, c);
    } else {
      assert pad + s == s;
    }
  }

  /** The line `write` prints for an entry: its tabs, its token, the newline. */
  lemma WrittenIs(it: Item)
    requires ItemOk(it)
    ensures Written(it) == Repeat("\t", it.level) + TokenText(it) + "\n"
  {
    AttrsOkModeIsUint(it.attrs);
    assert Filter(it.attrs, None) == it.attrs;
    AppendAssoc(Repeat("\t", it.level), it.name, AttrsText(it.attrs));
  }

  /**
   * A line of `l` tabs, a token and a newline: not blank, indented by
   * eight blanks a tab, and the token itself.
   */
  lemma MeasureTabbed(l: nat, t: string)
    requires t != [] && !IsSpace(t[0]) && !IsSpace(t[|t| - 1]) && '#' !in t && '\t' !in t
    ensures Measure(Repeat("\t", l) + t + "\n") == Measured(false, 8 * l, t)
  {
    var tabs := Repeat("\t", l);
    var line := tabs + t + "\n";
    assert line[..|line| - 1] == tabs + t;
    assert RStripChar(line, '\n') == tabs + t;
    RepeatChar('\t', l);
    assert '#' !in tabs;
    BeforeFirstAbsent(tabs + t, '#');
    ExpandTabsAppend(tabs, t);
    ExpandRepeatedTabs(l);
    ExpandTabsSpec(t);
    var blanks := Repeat(" ", 8 * l);
    assert CleanLine(line) == blanks + t;
    RepeatChar(' ', 8 * l);
    LStripCharAfter(blanks, t, ' ');
  }

  /** What `parse_lines` reads off the line of an entry: its level in tabs and its token. */
  lemma MeasureWritten(it: Item)
    requires ItemOk(it)
    ensures Measure(Written(it)) == Measured(false, 8 * it.level, TokenText(it))
  {
    WrittenIs(it);
    TokenTextShape(it);
    MeasureTabbed(it.level, TokenText(it));
  }

  // ---------------------------------------------------------------------
  // The entries of a manifest, in the order `write` prints them
  // ---------------------------------------------------------------------

  /** The entries of the first `i` children of `m` in order of name, each followed by its subtree. */
  function Entries(m: Manifest, level: nat, i: nat): seq<Item>
    requires i <= |m.children|
    decreases m, 1, i
  {
    if i == 0 then []
    else Entries(m, level, i - 1) + SubtreeEntries(m, SortedKeys(m.children)[i - 1], level)
  }

  /** A child's entry, then the entries below it one level deeper. */
  function SubtreeEntries(m: Manifest, name: string, level: nat): seq<Item>
    requires name in m.children
    decreases m, 0
  {
    var child := m.children[name];
    [Item(level, name, child.attrs)] + Entries(child, level + 1, |child.children|)
  }

  /** `lines` are the written lines of `items`, one each. */
  predicate LinesOf(lines: seq<string>, items: seq<Item>) {
    |lines| == |items| && forall k :: 0 <= k < |items| ==> ItemOk(items[k]) && lines[k] == Written(items[k])
  }

  lemma LinesOfAppend(l1: seq<string>, i1: seq<Item>, l2: seq<string>, i2: seq<Item>)
    requires LinesOf(l1, i1) && LinesOf(l2, i2)
    ensures LinesOf(l1 + l2, i1 + i2)
  {
    forall k | 0 <= k < |i1 + i2| ensures ItemOk((i1 + i2)[k]) && (l1 + l2)[k] == Written((i1 + i2)[k]) {
      if k >= |i1| {
        assert (i1 + i2)[k] == i2[k - |i1|] && (l1 + l2)[k] == l2[k - |l1|];
      } else {
        assert (i1 + i2)[k] == i1[k] && (l1 + l2)[k] == l1[k];
      }
    }
  }

  /** The lines `write` prints for the first `i` children are those of their entries. */
  lemma {:induction false} ChildrenWritten(m: Manifest, level: nat, i: nat)
    requires WellFormed(m) && ModesUint(m) && i <= |m.children|
    ensures LinesOf(ChildrenLines(m, i, level, "\t", None), Entries(m, level, i))
    decreases m, 1, i
  {
    if i > 0 {
      var name := SortedKeys(m.children)[i - 1];
      ChildrenWritten(m, level, i - 1);
      SubtreeWritten(m, name, level);
      LinesOfAppend(ChildrenLines(m, i - 1, level, "\t", None), Entries(m, level, i - 1),
        SubtreeLines(m, name, level, "\t", None), SubtreeEntries(m, name, level));
    }
  }

  lemma {:induction false} SubtreeWritten(m: Manifest, name: string, level: nat)
    requires WellFormed(m) && ModesUint(m) && name in m.children
    ensures LinesOf(SubtreeLines(m, name, level, "\t", None), SubtreeEntries(m, name, level))
    decreases m, 0
  {
    var child := m.children[name];
    var it := Item(level, name, child.attrs);
    ChildrenWritten(child, level + 1, |child.children|);
    assert LinesOf([Written(it)], [it]);
    LinesOfAppend([Written(it)], [it], WriteLines(child, level + 1, "\t", None),
      Entries(child, level + 1, |child.children|));
  }

  /** No entry above `level`. */
  predicate AtLeast(items: seq<Item>, level: nat) {
    forall k :: 0 <= k < |items| ==> level <= items[k].level
  }

  /** Each entry at most one level below the one before it. */
  predicate Steps(items: seq<Item>) {
    forall k :: 0 < k < |items| ==> items[k].level <= items[k - 1].level + 1
  }

  /**
   * The levels of the entries: none above `level`, the first at `level`,
   * and each at most one below the one before.
   */
  predicate Climbing(items: seq<Item>, level: nat) {
    AtLeast(items, level) && (items != [] ==> items[0].level == level) && Steps(items)
  }

  lemma AtLeastAppend(a: seq<Item>, b: seq<Item>, level: nat)
    requires AtLeast(a, level) && AtLeast(b, level)
    ensures AtLeast(a + b, level)
  {
    forall k | 0 <= k < |a + b| ensures level <= (a + b)[k].level {
      if k >= |a| {
        assert (a + b)[k] == b[k - |a|];
      } else {
        assert (a + b)[k] == a[k];
      }
    }
  }

  lemma StepsAppend(a: seq<Item>, b: seq<Item>)
    requires Steps(a) && Steps(b) && a != [] && b != [] && b[0].level <= a[|a| - 1].level + 1
    ensures Steps(a + b)
  {
    var c := a + b;
    forall k | 0 < k < |c| ensures c[k].level <= c[k - 1].level + 1 {
      if k > |a| {
        assert c[k] == b[k - |a|] && c[k - 1] == b[k - 1 - |a|];
      } else if k == |a| {
        assert c[k] == b[0] && c[k - 1] == a[k - 1];
      } else {
        assert c[k] == a[k] && c[k - 1] == a[k - 1];
      }
    }
  }

  lemma ClimbingAppend(a: seq<Item>, b: seq<Item>, level: nat)
    requires Climbing(a, level) && Climbing(b, level)
    ensures Climbing(a + b, level)
  {
    AtLeastAppend(a, b, level);
    if a == [] {
      assert a + b == b;
    } else if b == [] {
      assert a + b == a;
    } else {
      assert level <= a[|a| - 1].level;
      StepsAppend(a, b);
      assert (a + b)[0] == a[0];
    }
  }

  lemma {:induction false} EntriesClimbing(m: Manifest, level: nat, i: nat)
    requires i <= |m.children|
    ensures Climbing(Entries(m, level, i), level)
    decreases m, 1, i
  {
    if i > 0 {
      var name := SortedKeys(m.children)[i - 1];
      EntriesClimbing(m, level, i - 1);
      SubtreeClimbing(m, name, level);
      ClimbingAppend(Entries(m, level, i - 1), SubtreeEntries(m, name, level), level);
    }
  }

  lemma {:induction false} SubtreeClimbing(m: Manifest, name: string, level: nat)
    requires name in m.children
    ensures Climbing(SubtreeEntries(m, name, level), level)
    decreases m, 0
  {
    var child := m.children[name];
    var below := Entries(child, level + 1, |child.children|);
    EntriesClimbing(child, level + 1, |child.children|);
    var c := [Item(level, name, child.attrs)] + below;
    forall k | 0 < k < |c| ensures c[k].level <= c[k - 1].level + 1 && level <= c[k].level {
      assert c[k] == below[k - 1];
      if k > 1 {
        assert c[k - 1] == below[k - 2];
      }
    }
  }

  // ---------------------------------------------------------------------
  // Reading the written lines back into entries
  // ---------------------------------------------------------------------

  predicate AllOk(items: seq<Item>) {
    forall k :: 0 <= k < |items| ==> ItemOk(items[k])
  }

  /** The (level, token) pairs the lexer is to yield for written entries. */
  function LexedOf(items: seq<Item>): (r: seq<ManifestLexer.Line>)
    requires AllOk(items)
    ensures |r| == |items|
    decreases |items|
  {
    if items == [] then []
    else [ManifestLexer.Line(items[0].level, TokenText(items[0]))] + LexedOf(items[1..])
  }

  /**
   * From line `k` on, with the tab stack of level `h` open, the lexer
   * yields each written entry's level and token and stops without error.
   */
  lemma {:induction false} LexWritten(items: seq<Item>, ms: seq<Measured>, k: nat, h: nat)
    requires AllOk(items) && Steps(items) && |ms| == |items| && k <= |items|
    requires forall j :: 0 <= j < |items| ==> ms[j] == Measured(false, 8 * items[j].level, TokenText(items[j]))
    requires k < |items| ==> items[k].level <= h + 1
    ensures ManifestLexer.LexFrom(TabStack(h), ms, k) == Stream(LexedOf(items[k..]), None)
    decreases |items| - k
  {
    if k < |items| {
      var it := items[k];
      LexEntryStep(ms, k, h, it.level, TokenText(it));
      if k + 1 < |items| {
        assert items[k + 1].level <= items[k].level + 1;
      }
      LexWritten(items, ms, k + 1, it.level);
      assert items[k..][0] == it && items[k..][1..] == items[k + 1..];
    }
  }

  /** A line of `d` tabs and a token, on the tab stack of level `h`, yields level `d` and the token. */
  lemma LexEntryStep(ms: seq<Measured>, k: nat, h: nat, d: nat, token: string)
    requires k < |ms| && d <= h + 1 && ms[k] == Measured(false, 8 * d, token)
    ensures ManifestLexer.LexFrom(TabStack(h), ms, k) ==
      Prepend([ManifestLexer.Line(d, token)], ManifestLexer.LexFrom(TabStack(d), ms, k + 1))
  {
    TabStep(h, d);
    LineStepCases(TabStack(h), ms[k]);
  }

  /** Each token of the lexed pairs splits back into its entry. */
  lemma {:induction false} TokenizeWritten(items: seq<Item>)
    requires AllOk(items)
    ensures Tokenize(Stream(LexedOf(items), None)) == Stream(items, None)
    decreases |items|
  {
    if items != [] {
      SplitTokenWritten(items[0]);
      var s := Stream(LexedOf(items), None);
      assert s.items[1..] == LexedOf(items[1..]);
      TokenizeWritten(items[1..]);
      assert [items[0]] + items[1..] == items;
    }
  }

  /** The parser's generator yields exactly the entries whose written lines it reads. */
  lemma FileLexWritten(lines: seq<string>, items: seq<Item>)
    requires LinesOf(lines, items) && Steps(items) && (items != [] ==> items[0].level == 0)
    ensures FileLex(lines) == Stream(items, None)
  {
    var ms := ManifestLexer.MeasureAll(lines);
    forall j | 0 <= j < |items| ensures ms[j] == Measured(false, 8 * items[j].level, TokenText(items[j])) {
      ManifestLexer.MapSeqAt(Measure, lines, j);
      MeasureWritten(items[j]);
    }
    assert TabStack(0) == [0];
    LexWritten(items, ms, 0, 0);
    assert items[0..] == items;
    TokenizeWritten(items);
  }

  // ---------------------------------------------------------------------
  // Building the entries back into the manifest
  // ---------------------------------------------------------------------

  /** `m` with the node at `p` replaced by `x`. */
  function Graft(m: Manifest, p: seq<string>, x: Manifest): Manifest
    requires Lookup(m, p).Some?
    decreases |p|
  {
    if p == [] then x
    else m.(children := m.children[p[0] := Graft(m.children[p[0]], p[1..], x)])
  }

  /** What lies below `p` in a graft is what was grafted there. */
  lemma {:induction false} LookupGraft(m: Manifest, p: seq<string>, x: Manifest, q: seq<string>)
    requires Lookup(m, p).Some?
    ensures Lookup(Graft(m, p, x), p + q) == Lookup(x, q)
    decreases |p|
  {
    if p != [] {
      var g := Graft(m, p, x);
      assert g.children[p[0]] == Graft(m.children[p[0]], p[1..], x);
      assert (p + q)[0] == p[0] && (p + q)[1..] == p[1..] + q;
      assert Lookup(g, p + q) == Lookup(g.children[p[0]], p[1..] + q);
      LookupGraft(m.children[p[0]], p[1..], x, q);
    } else {
      assert p + q == q;
    }
  }

  /** Grafting the node that is already there changes nothing. */
  lemma {:induction false} GraftSame(m: Manifest, p: seq<string>, x: Manifest)
    requires Lookup(m, p) == Some(x)
    ensures Graft(m, p, x) == m
    decreases |p|
  {
    if p != [] {
      GraftSame(m.children[p[0]], p[1..], x);
    }
  }

  /** A graft below a graft is one graft of the changed node. */
  lemma {:induction false} GraftGraft(m: Manifest, p: seq<string>, x: Manifest, c: string, y: Manifest)
    requires Lookup(m, p).Some? && c in x.children
    ensures Lookup(Graft(m, p, x), p + [c]).Some?
    ensures Graft(Graft(m, p, x), p + [c], y) == Graft(m, p, x.(children := x.children[c := y]))
    decreases |p|
  {
    LookupGraft(m, p, x, [c]);
    if p != [] {
      assert (p + [c])[0] == p[0] && (p + [c])[1..] == p[1..] + [c];
      GraftGraft(m.children[p[0]], p[1..], x, c, y);
    }
  }

  predicate NoEmptyPart(p: seq<string>) {
    forall j :: 0 <= j < |p| ==> p[j] != ""
  }

  /** Adding a new child below a grafted node adds it to that node. */
  lemma {:induction false} GraftAdd(m: Manifest, p: seq<string>, x: Manifest, c: string, attrs: Attrs)
    requires Lookup(m, p).Some? && NoEmptyPart(p) && c != "" && c !in x.children
    ensures Add(Graft(m, p, x), p + [c], attrs) ==
      Ok(Graft(m, p, x.(children := x.children[c := Manifest(map[], attrs)])))
    decreases |p|
  {
    if p == [] {
      assert [] + [c] == [c];
    } else {
      assert (p + [c])[0] == p[0] && (p + [c])[1..] == p[1..] + [c];
      assert NoEmptyPart(p[1..]) by {
        forall j | 0 <= j < |p[1..]| ensures p[1..][j] != "" {
          assert p[1..][j] == p[j + 1];
        }
      }
      GraftAdd(m.children[p[0]], p[1..], x, c, attrs);
      var g := Graft(m, p, x);
      var y := Graft(m.children[p[0]], p[1..], x.(children := x.children[c := Manifest(map[], attrs)]));
      assert g.children[p[0]] == Graft(m.children[p[0]], p[1..], x);
      assert g.children[p[0] := y] == m.children[p[0] := y];
    }
  }

  /**
   * The shape of the `build` variables between entries: before the first
   * one, everything at the top; after one, `prev` is the entry added last
   * and `cur` its parent, at its level.
   */
  predicate Open(st: BuildState) {
    if st.prev == [] then st.cur == [] && st.level == 0
    else st.level + 1 == |st.prev| && st.cur == st.prev[..st.level]
  }

  /** From an open state, an entry not deeper than one below `prev` is added under `prev`'s ancestor at its level. */
  lemma OpenStep(st: BuildState, item: Item)
    requires Open(st) && item.level <= |st.prev|
    ensures var under := st.prev[..item.level];
      BuildStep(st, item) ==
        match Add(st.tree, under + [item.name], item.attrs)
        case Err(e) => Err(e)
        case Ok(t) => Ok(BuildState(t, under + [item.name], under, item.level))
  {
    if item.level < st.level {
      ClimbSpec(st.cur, st.level - item.level);
      assert st.cur[..|st.cur| - (st.level - item.level)] == st.prev[..item.level];
    } else if item.level == st.level + 1 {
      assert st.prev[..item.level] == st.prev;
    }
  }

  /** `st` is open, its tree is `base` with `x` at `p`, and the entry added last lies at or below `p`. */
  predicate At(st: BuildState, base: Manifest, p: seq<string>, x: Manifest) {
    Lookup(base, p).Some? && st.tree == Graft(base, p, x) && Open(st) &&
    |p| <= |st.prev| && st.prev[..|p|] == p
  }

  /** The node `m` restricted to its first `i` children in order of name. */
  function FirstChildren(m: Manifest, i: nat, attrs: Attrs): Manifest
    requires i <= |m.children|
  {
    Manifest(KeysMap(m.children, SortedKeys(m.children)[..i]), attrs)
  }

  /**
   * Building the entries of the first `i` children of `m`, from a state
   * whose node at `p` is still childless, gives that node those children.
   */
  lemma {:induction false} BuildChildren(m: Manifest, i: nat, p: seq<string>, base: Manifest, attrs: Attrs, st: BuildState)
    requires WellFormed(m) && i <= |m.children| && NoEmptyPart(p)
    requires At(st, base, p, Manifest(map[], attrs))
    ensures var r := BuildItems(st, Entries(m, |p|, i));
      r.Ok? && At(r.value, base, p, FirstChildren(m, i, attrs))
    decreases m, 1, i
  {
    var keys := SortedKeys(m.children);
    if i == 0 {
      assert KeysMap(m.children, keys[..0]) == map[];
    } else {
      var c := keys[i - 1];
      BuildChildren(m, i - 1, p, base, attrs, st);
      NextChild(m, i, attrs);
      BuildSubtree(m, c, p, base, FirstChildren(m, i - 1, attrs), BuildItems(st, Entries(m, |p|, i - 1)).value);
      BuildItemsAppend(st, Entries(m, |p|, i - 1), SubtreeEntries(m, c, |p|));
    }
  }

  /** The next child in order of name is not among those before it, and adding it gives the next prefix. */
  lemma NextChild(m: Manifest, i: nat, attrs: Attrs)
    requires 0 < i <= |m.children|
    ensures var c := SortedKeys(m.children)[i - 1];
      var before := FirstChildren(m, i - 1, attrs);
      c !in before.children && FirstChildren(m, i, attrs) == before.(children := before.children[c := m.children[c]])
  {
    var keys := SortedKeys(m.children);
    KeysMapSpec(m.children, keys[..i - 1]);
    SortedKeysSorted(m.children);
    SortedDistinct(keys);
    assert keys[..i][..i - 1] == keys[..i - 1] && keys[..i][i - 1] == keys[i - 1];
  }

  /** An entry that is added, then the rest from the state it leaves. */
  lemma BuildItemsCons(st: BuildState, it: Item, rest: seq<Item>, next: BuildState)
    requires BuildStep(st, it) == Ok(next)
    ensures BuildItems(st, [it] + rest) == BuildItems(next, rest)
  {
    assert ([it] + rest)[0] == it && ([it] + rest)[1..] == rest;
  }

  /** Building a child's entry and its subtree's entries adds that child with its whole subtree. */
  lemma {:induction false} BuildSubtree(m: Manifest, c: string, p: seq<string>, base: Manifest, x: Manifest, st: BuildState)
    requires WellFormed(m) && c in m.children && NoEmptyPart(p) && c !in x.children
    requires At(st, base, p, x)
    ensures var r := BuildItems(st, SubtreeEntries(m, c, |p|));
      r.Ok? && At(r.value, base, p, x.(children := x.children[c := m.children[c]]))
    decreases m, 0
  {
    var child := m.children[c];
    var it := Item(|p|, c, child.attrs);
    var x1 := x.(children := x.children[c := Manifest(map[], child.attrs)]);
    var base1 := Graft(base, p, x1);
    var st1 := BuildState(base1, p + [c], p, |p|);
    EnterChild(st, base, p, x, c, child.attrs);
    BuildChildren(child, |child.children|, p + [c], base1, child.attrs, st1);
    var rest := Entries(child, |p| + 1, |child.children|);
    BuildItemsCons(st, it, rest, st1);
    FullChildren(child);
    LeaveChild(base, p, x, c, child, BuildItems(st1, rest).value);
  }

  /** The entry of a new child `c` of the node at `p` is added there as a leaf, and becomes `prev`. */
  lemma EnterChild(st: BuildState, base: Manifest, p: seq<string>, x: Manifest, c: string, attrs: Attrs)
    requires At(st, base, p, x) && NoEmptyPart(p) && c != "" && c !in x.children
    ensures var x1 := x.(children := x.children[c := Manifest(map[], attrs)]);
      var st1 := BuildState(Graft(base, p, x1), p + [c], p, |p|);
      BuildStep(st, Item(|p|, c, attrs)) == Ok(st1) &&
      At(st1, Graft(base, p, x1), p + [c], Manifest(map[], attrs)) &&
      |p + [c]| == |p| + 1 && NoEmptyPart(p + [c])
  {
    var x1 := x.(children := x.children[c := Manifest(map[], attrs)]);
    var p1 := p + [c];
    OpenStep(st, Item(|p|, c, attrs));
    GraftAdd(base, p, x, c, attrs);
    LookupGraft(base, p, x1, [c]);
    GraftSame(Graft(base, p, x1), p1, Manifest(map[], attrs));
    assert p1[..|p|] == p && p1[..|p1|] == p1;
  }

  /** A node with all its children in order of name is the node itself. */
  lemma FullChildren(m: Manifest)
    ensures FirstChildren(m, |m.children|, m.attrs) == m
  {
    var keys := SortedKeys(m.children);
    assert keys[..|m.children|] == keys;
    KeysMapSpec(m.children, keys);
    SortedKeysComplete(m.children);
  }

  /** Once the child's subtree is complete, the node at `p` holds the whole child. */
  lemma LeaveChild(base: Manifest, p: seq<string>, x: Manifest, c: string, child: Manifest, r: BuildState)
    requires Lookup(base, p).Some?
    requires var x1 := x.(children := x.children[c := Manifest(map[], child.attrs)]);
      At(r, Graft(base, p, x1), p + [c], child)
    ensures At(r, base, p, x.(children := x.children[c := child]))
  {
    var x1 := x.(children := x.children[c := Manifest(map[], child.attrs)]);
    GraftGraft(base, p, x1, c, child);
    ReplaceChild(x, c, Manifest(map[], child.attrs), child);
    PrefixOfPrefix(r.prev, p, c);
  }

  lemma ReplaceChild(x: Manifest, c: string, a: Manifest, b: Manifest)
    ensures var xa := x.(children := x.children[c := a]);
      xa.(children := xa.children[c := b]) == x.(children := x.children[c := b])
  {
    var xa := x.(children := x.children[c := a]);
    assert xa.children[c := b] == x.children[c := b];
  }

  lemma PrefixOfPrefix(s: seq<string>, p: seq<string>, c: string)
    requires |p| + 1 <= |s| && s[..|p| + 1] == p + [c]
    ensures s[..|p|] == p
  {
    assert s[..|p|] == s[..|p| + 1][..|p|];
  }

  /** Building every entry of `m`, one level below the top, from a fresh manifest gives `m`'s tree. */
  lemma BuildEntries(m: Manifest)
    requires WellFormed(m)
    ensures var r := BuildItems(Start, Entries(m, 0, |m.children|));
      r.Ok? && r.value.tree == Manifest(m.children, map[])
  {
    assert Lookup(Empty, []) == Some(Empty);
    assert At(Start, Empty, [], Manifest(map[], map[]));
    BuildChildren(m, |m.children|, [], Empty, map[], Start);
    FullChildren(m);
    assert FirstChildren(m, |m.children|, map[]) == Manifest(m.children, map[]);
  }

  /** The line `write` prints for an entry ends in its only newline and holds no carriage return. */
  lemma WrittenOneLine(it: Item)
    requires ItemOk(it)
    ensures OneLine(Written(it)) && '\r' !in Written(it)
  {
    WrittenIs(it);
    TokenTextShape(it);
    RepeatChar('\t', it.level);
    var body := Repeat("\t", it.level) + TokenText(it);
    assert Written(it) == body + "\n";
    assert Written(it)[..|Written(it)| - 1] == body;
  }

  /**
   * Each line `write` prints for a well-formed tree is one line of the
   * file, so iterating over the file's text gives the printed lines back.
   */
  lemma PrintedLinesReadBack(m: Manifest)
    requires WellFormed(m)
    ensures ModesUint(m)
    ensures var lines := WriteLines(m, 0, "\t", None);
      (forall k :: 0 <= k < |lines| ==> OneLine(lines[k]) && '\r' !in lines[k]) &&
      ReadLines(Join("", lines)) == lines
  {
    WellFormedModes(m);
    var lines := WriteLines(m, 0, "\t", None);
    var items := Entries(m, 0, |m.children|);
    ChildrenWritten(m, 0, |m.children|);
    forall k | 0 <= k < |lines|
      ensures OneLine(lines[k]) && '\r' !in lines[k]
    {
      WrittenOneLine(items[k]);
    }
    ReadJoinedLines(lines);
  }

  /**
   * The round trip of the text format: for a well-formed tree, printing it
   * with the default indent and no key filter, then reading the written
   * file back line by line and building those lines, gives back the same
   * tree (the top node carries no attributes in the text, so its own come
   * back empty).
   */
  lemma WriteThenBuild(m: Manifest)
    requires WellFormed(m)
    ensures ModesUint(m)
    ensures var lines := WriteLines(m, 0, "\t", None);
      ReadLines(Join("", lines)) == lines &&
      BuildManifest(ReadLines(Join("", lines))) == Ok(Manifest(m.children, map[]))
  {
    WellFormedModes(m);
    var lines := WriteLines(m, 0, "\t", None);
    var items := Entries(m, 0, |m.children|);
    PrintedLinesReadBack(m);
    ChildrenWritten(m, 0, |m.children|);
    EntriesClimbing(m, 0, |m.children|);
    FileLexWritten(lines, items);
    BuildEntries(m);
  }
}
