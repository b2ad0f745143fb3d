/**
 * The text `ManifestFileWriter` (manifest_file.py) produces for a manifest,
 * as functions: each node below the top becomes one line, the indent
 * repeated once per level, the name, and the attribute list; the children
 * of a node follow its line, one level deeper, in order of name.
 */
module ManifestFileFormat {
  import opened Wrappers
  import opened PyStr
  import opened PyInt
  import opened ManifestTree

  /** Every `mode` holds a number: `"%06o"` refuses anything else (TypeError). */
  predicate ModeIsUint(attrs: Attrs) {
    "mode" in attrs ==> attrs["mode"].Uint?
  }

  /** `formatter.get(k, str)(v)`: `"0o%06o"` for a mode, `str` for every other value. */
  function FormatValue(k: string, v: AttrValue): string
    requires k == "mode" ==> v.Uint?
  {
    if k == "mode" then ModeText(v.n)
    else
      match v
      case Uint(n) => Decimal(n)
      case Text(s) => s
  }

  /** A number is written so that `int(s, 0)` reads it back; text is written as it is. */
  lemma FormatValueSpec(k: string, v: AttrValue)
    requires k == "mode" ==> v.Uint?
    ensures v.Uint? ==> ParseIntLiteral(FormatValue(k, v)) == Some(v.n)
    ensures v.Text? ==> FormatValue(k, v) == v.s
  {
    if v.Uint? {
      if k == "mode" {
        ModeRoundTrip(v.n);
      } else {
        DecimalRoundTrip(v.n);
      }
    }
  }

  /** `"%s: %s" % (k, formatted v)` for each key in `keys`. */
  function AttrItems(attrs: Attrs, keys: seq<string>): (r: seq<string>)
    requires ModeIsUint(attrs) && forall i :: 0 <= i < |keys| ==> keys[i] in attrs
    ensures |r| == |keys|
    decreases |keys|
  {
    if keys == [] then []
    else
      var k := keys[|keys| - 1];
      AttrItems(attrs, keys[..|keys| - 1]) + [k + ": " + FormatValue(k, attrs[k])]
  }

  /** What `format_attrs` returns: nothing for no attributes, else ` {k: v, ...}` in key order. */
  function AttrsText(attrs: Attrs): string
    requires ModeIsUint(attrs)
  {
    if |attrs| == 0 then ""
    else " {" + Join(", ", AttrItems(attrs, SortedKeys(attrs))) + "}"
  }

  /** The attributes written for a node: all of them, or those whose key is in `attrkeys`. */
  function Filter(attrs: Attrs, attrkeys: Option<set<string>>): (r: Attrs)
    ensures forall k :: k in r <==> k in attrs && (attrkeys.Some? ==> k in attrkeys.value)
    ensures forall k :: k in r ==> r[k] == attrs[k]
  {
    if attrkeys.None? then attrs
    else map k | k in attrs && k in attrkeys.value :: attrs[k]
  }

  /** Every node below `m` has a numeric mode, if any. */
  predicate ModesUint(m: Manifest)
    decreases m
  {
    forall n :: n in m.children ==> ModeIsUint(m.children[n].attrs) && ModesUint(m.children[n])
  }

  lemma FilterModeIsUint(attrs: Attrs, attrkeys: Option<set<string>>)
    requires ModeIsUint(attrs)
    ensures ModeIsUint(Filter(attrs, attrkeys))
  {
  }

  /** The line written for a node called `name` at `level`, as `print` ends it. */
  function EntryLine(name: string, attrs: Attrs, level: nat, indent: string, attrkeys: Option<set<string>>): string
    requires ModeIsUint(attrs)
  {
    FilterModeIsUint(attrs, attrkeys);
    Repeat(indent, level) + name + AttrsText(Filter(attrs, attrkeys)) + "\n"
  }

  /** The lines `write(m, f, level, indent, attrkeys)` prints. */
  function WriteLines(m: Manifest, level: nat, indent: string, attrkeys: Option<set<string>>): seq<string>
    requires ModesUint(m)
    decreases m, 2
  {
    ChildrenLines(m, |m.children|, level, indent, attrkeys)
  }

  /** The lines of the first `i` children in order of name. */
  function ChildrenLines(m: Manifest, i: nat, level: nat, indent: string, attrkeys: Option<set<string>>): seq<string>
    requires ModesUint(m) && i <= |m.children|
    decreases m, 1, i
  {
    if i == 0 then []
    else
      var names := SortedKeys(m.children);
      ChildrenLines(m, i - 1, level, indent, attrkeys) +
      SubtreeLines(m, names[i - 1], level, indent, attrkeys)
  }

  /** A child's own line, then the lines of its children one level deeper. */
  function SubtreeLines(m: Manifest, name: string, level: nat, indent: string, attrkeys: Option<set<string>>): seq<string>
    requires ModesUint(m) && name in m.children
    decreases m, 0
  {
    var child := m.children[name];
    [EntryLine(name, child.attrs, level, indent, attrkeys)] + WriteLines(child, level + 1, indent, attrkeys)
  }
}

/**
 * `ManifestFileWriter` (manifest_file.py): the methods that print a
 * manifest, each proved to print the text `ManifestFileFormat` describes.
 */
module ManifestFileWriter {
  import opened Wrappers
  import opened PyStr
  import opened ManifestTree
  import opened ManifestFileFormat

  /** `format_attrs(attrs)`: the items collected in key order, then joined. */
  method FormatAttrs(attrs: Attrs) returns (s: string)
    requires ModeIsUint(attrs)
    ensures s == AttrsText(attrs)
  {
    if |attrs| == 0 {
      return "";
    }
    var keys := SortedKeys(attrs);
    var l: seq<string> := [];
    var i := 0;
    while i < |keys|
      invariant 0 <= i <= |keys|
      invariant l == AttrItems(attrs, keys[..i])
    {
      var k := keys[i];
      assert keys[..i + 1][..i] == keys[..i];
      l := l + [k + ": " + FormatValue(k, attrs[k])];
      i := i + 1;
    }
    assert keys[..|keys|] == keys;
    return " {" + Join(", ", l) + "}";
  }

  /** The file `write` prints to: the lines printed so far, each ended by a newline. */
  class OutputFile {
    var lines: seq<string>

    constructor ()
      ensures lines == []
    {
      lines := [];
    }

    /** `print(s, file=f)`. */
    method Print(s: string)
      modifies this
      ensures lines == old(lines) + [s + "\n"]
    {
      lines := lines + [s + "\n"];
    }
  }

  /** `write(m, f, level, indent, attrkeys)`: each child in order of name, its line and then its subtree. */
  method Write(m: Manifest, f: OutputFile, level: nat, indent: string, attrkeys: Option<set<string>>)
    requires ModesUint(m)
    modifies f
    ensures f.lines == old(f.lines) + WriteLines(m, level, indent, attrkeys)
    decreases m, 1
  {
    var names := SortedKeys(m.children);
    var i := 0;
    while i < |names|
      invariant 0 <= i <= |names|
      invariant f.lines == old(f.lines) + ChildrenLines(m, i, level, indent, attrkeys)
    {
      WriteChild(m, names[i], f, level, indent, attrkeys);
      AppendAssoc(old(f.lines), ChildrenLines(m, i, level, indent, attrkeys), SubtreeLines(m, names[i], level, indent, attrkeys));
      i := i + 1;
    }
  }

  /** One turn of the loop in `write`: the child's line, then its subtree one level deeper. */
  method WriteChild(m: Manifest, name: string, f: OutputFile, level: nat, indent: string, attrkeys: Option<set<string>>)
    requires ModesUint(m) && name in m.children
    modifies f
    ensures f.lines == old(f.lines) + SubtreeLines(m, name, level, indent, attrkeys)
    decreases m, 0
  {
    var child := m.children[name];
    var text := LineText(name, child.attrs, level, indent, attrkeys);
    f.Print(text);
    Write(child, f, level + 1, indent, attrkeys);
    AppendAssoc(old(f.lines), [text + "\n"], WriteLines(child, level + 1, indent, attrkeys));
  }

  /** The text `print` is given for one node: `attrs` filtered by `attrkeys`, then formatted. */
  method LineText(name: string, attrs: Attrs, level: nat, indent: string, attrkeys: Option<set<string>>) returns (s: string)
    requires ModeIsUint(attrs)
    ensures s + "\n" == EntryLine(name, attrs, level, indent, attrkeys)
  {
    var kept := attrs;
    if attrkeys.Some? {
      kept := map k | k in attrs && k in attrkeys.value :: attrs[k];
    }
    assert kept == Filter(attrs, attrkeys);
    FilterModeIsUint(attrs, attrkeys);
    var text := FormatAttrs(kept);
    s := Repeat(indent, level) + name + text;
  }
}
