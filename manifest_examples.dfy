/**
 * Concrete cases of the validators, the token splitter, the lexer and
 * the tree builder, taken from the behaviour the test suite pins down.
 */
module ManifestExamples {
  import opened Wrappers
  import opened PyStr
  import opened PyInt
  import opened ManifestTree
  import opened ManifestFileParser
  import ManifestRoundTrip
  import opened ManifestBuild
  import opened Indentation

  /** One more digit on the right. */
  lemma DigitsSnoc(s: string, c: char, base: nat)
    requires AllDigits(s + [c], base)
    ensures AllDigits(s, base) && IsDigitIn(c, base)
    ensures DigitsValue(s + [c], base) == DigitsValue(s, base) * base + DigitValue(c).value
  {
    assert (s + [c])[..|s|] == s;
    assert (s + [c])[|s|] == c;
    assert forall i :: 0 <= i < |s| ==> s[i] == (s + [c])[i];
  }

  /** `parse_uint` reads an octal mode as the number it denotes. */
  lemma ParseUintOctal()
    ensures ParseUint("0o100644") == Ok(33188)
  {
    assert Trimmed("0o100644");
    assert "0o100644"[2..] == "100644";
    assert LowerChar('o') == 'o';
    OctalDigits();
  }

  lemma OctalDigits()
    ensures AllDigits("100644", 8) && DigitsValue("100644", 8) == 33188
  {
    assert AllDigits("100644", 8);
    assert "100644" == "10064" + ['4'] && "10064" == "1006" + ['4'] && "1006" == "100" + ['6'];
    assert "100" == "10" + ['0'] && "10" == "1" + ['0'] && "1" == "" + ['1'];
    DigitsSnoc("10064", '4', 8);
    DigitsSnoc("1006", '4', 8);
    DigitsSnoc("100", '6', 8);
    DigitsSnoc("10", '0', 8);
    DigitsSnoc("1", '0', 8);
    DigitsSnoc("", '1', 8);
  }

  /** `parse_uint` reads a decimal number. */
  lemma ParseUintDecimal()
    ensures ParseUint("1000") == Ok(1000)
  {
    assert Trimmed("1000");
    assert AllDigits("1000", 10);
    assert "1000" == "100" + ['0'] && "100" == "10" + ['0'] && "10" == "1" + ['0'] && "1" == "" + ['1'];
    DigitsSnoc("100", '0', 10);
    DigitsSnoc("10", '0', 10);
    DigitsSnoc("1", '0', 10);
    DigitsSnoc("", '1', 10);
  }

  /** `int("-0", 0)` is zero, which `parse_uint` accepts. */
  lemma ParseUintMinusZero()
    ensures ParseUint("-0") == Ok(0)
  {
    assert Trimmed("-0");
    assert "-0"[1..] == "0";
    DigitsSnoc("", '0', 10);
  }

  /** A negative number is refused. */
  lemma ParseUintNegative()
    ensures ParseUint("-13") == Err(InvalidAttributeValue("-13"))
  {
    assert Trimmed("-13");
    assert "-13"[1..] == "13";
    DigitsSnoc("", '1', 10);
    DigitsSnoc("1", '3', 10);
  }

  /** Text that is no integer literal is refused. */
  lemma ParseUintNotInt()
    ensures ParseUint("not_int") == Err(InvalidAttributeValue("not_int"))
  {
    assert Trimmed("not_int");
    assert !IsDigitIn('n', 10);
  }

  /** A hexadecimal prefix followed by a non-hex digit is refused. */
  lemma ParseUintBadHex()
    ensures ParseUint("0x123foo") == Err(InvalidAttributeValue("0x123foo"))
  {
    assert Trimmed("0x123foo");
    assert "0x123foo"[2..][4] == 'o' && !IsDigitIn('o', 16);
  }

  /** A value too short for a SHA-1, and one with letters beyond `f`, are refused. */
  lemma ParseSha1sumRefuses()
    ensures ParseSha1sum("123") == Err(InvalidAttributeValue("123"))
    ensures ParseSha1sum("not_hex") == Err(InvalidAttributeValue("not_hex"))
  {
    assert Trimmed("123") && Trimmed("not_hex");
  }

  /** An empty attribute list gives no attributes. */
  lemma SplitTokenEmptyList()
    ensures SplitToken("foo {}") == Ok(("foo", map[]))
  {
    assert Split("", ',') == [""];
    assert AttrsFrom([""]) == Ok(map[]) by {
      assert [""][..0] == [];
      assert Strip("") == [];
    }
    assert "foo {}" == "foo" + " {" + "" + "}";
    ManifestRoundTrip.SplitTokenAt("foo {}", "foo", "", map[]);
  }

  /** A child, then a sibling of its parent: `{"foo": {"bar": {}}, "fooz": {}}`. */
  lemma BuildChildAndSibling()
    ensures var leaf := Manifest(map[], map[]);
      BuildItems(Start, [Item(0, "foo", map[]), Item(1, "bar", map[]), Item(0, "fooz", map[])]) ==
      Ok(BuildState(Manifest(map["foo" := Manifest(map["bar" := leaf], map[]), "fooz" := leaf], map[]),
        ["fooz"], [], 0))
  {
    var leaf := Manifest(map[], map[]);
    var foo, bar, fooz := Item(0, "foo", map[]), Item(1, "bar", map[]), Item(0, "fooz", map[]);
    var t1 := Manifest(map["foo" := leaf], map[]);
    var t2 := Manifest(map["foo" := Manifest(map["bar" := leaf], map[])], map[]);
    var t3 := Manifest(map["foo" := Manifest(map["bar" := leaf], map[]), "fooz" := leaf], map[]);
    var s1, s2, s3 := BuildState(t1, ["foo"], [], 0), BuildState(t2, ["foo", "bar"], ["foo"], 1), BuildState(t3, ["fooz"], [], 0);
    assert [] + ["foo"] == ["foo"];
    assert Add(Empty, ["foo"], map[]) == Ok(t1);
    assert BuildStep(Start, foo) == Ok(s1);
    assert ["foo"] + ["bar"] == ["foo", "bar"] && ["foo", "bar"][1..] == ["bar"];
    assert t1.children["foo" := Manifest(map["bar" := leaf], map[])] == t2.children;
    assert BuildStep(s1, bar) == Ok(s2);
    assert Climb(["foo"], 1) == Some([]);
    assert [] + ["fooz"] == ["fooz"];
    assert t2.children["fooz" := leaf] == t3.children;
    assert BuildStep(s2, fooz) == Ok(s3);
    var items := [foo, bar, fooz];
    assert items[0] == foo && items[1..] == [bar, fooz] && items[1..][1..] == [fooz] && [fooz][1..] == [];
  }

  /** An entry at level one first, then one at level zero: the walk climbs above the top. */
  lemma BuildAboveTop()
    ensures BuildItems(Start, [Item(1, "foo", map[]), Item(0, "bar", map[])]) == Err(NoParent)
  {
  }

  /** The measured lines of the broken-indent case. */
  function Dedented(): seq<Measured> {
    [Measured(false, 0, "foo"), Measured(false, 8, "bar"), Measured(false, 9, "baz"), Measured(false, 2, "xyzzy")]
  }

  lemma LexDedentStep()
    ensures LineStep([0, 8, 9], Dedented()[3]) == Broken(2, 0)
  {
    LineStepCases([0, 8, 9], Dedented()[3]);
    assert Popped([0, 8, 9], 2) == [0];
  }

  lemma LexOpenSteps()
    ensures LineStep([0], Dedented()[0]) == Entry([0], "foo")
    ensures LineStep([0], Dedented()[1]) == Entry([0, 8], "bar")
    ensures LineStep([0, 8], Dedented()[2]) == Entry([0, 8, 9], "baz")
  {
    LineStepCases([0], Dedented()[0]);
    LineStepCases([0], Dedented()[1]);
    LineStepCases([0, 8], Dedented()[2]);
    assert [0] + [8] == [0, 8] && [0, 8] + [9] == [0, 8, 9];
  }

  /**
   * Lines indented by 0, 8 and 9 columns open three levels; a line at
   * column 2 then dedents onto no open level and stops the generator.
   */
  lemma LexBrokenIndent()
    ensures ManifestLexer.LexFrom([0], Dedented(), 0) ==
      Stream([ManifestLexer.Line(0, "foo"), ManifestLexer.Line(1, "bar"), ManifestLexer.Line(2, "baz")],
        Some(BrokenIndent(3, 2, 0)))
  {
    LexDedentStep();
    LexOpenSteps();
  }

  /** The measured lines of the multi-level dedent case. */
  function Redented(): seq<Measured> {
    [Measured(false, 0, "foo"), Measured(false, 8, "bar"), Measured(false, 9, "baz"), Measured(false, 0, "xyzzy")]
  }

  lemma LexRedentStep()
    ensures LineStep([0, 8, 9], Redented()[3]) == Entry([0], "xyzzy")
  {
    LineStepCases([0, 8, 9], Redented()[3]);
    assert Popped([0, 8, 9], 0) == [0];
  }

  lemma LexRedentOpen()
    ensures LineStep([0], Redented()[0]) == Entry([0], "foo")
    ensures LineStep([0], Redented()[1]) == Entry([0, 8], "bar")
    ensures LineStep([0, 8], Redented()[2]) == Entry([0, 8, 9], "baz")
  {
    LineStepCases([0], Redented()[0]);
    LineStepCases([0], Redented()[1]);
    LineStepCases([0, 8], Redented()[2]);
    assert [0] + [8] == [0, 8] && [0, 8] + [9] == [0, 8, 9];
  }

  /** A dedent to column 0 pops every level opened since: levels 0, 1, 2, then 0. */
  lemma LexMultiDedent()
    ensures ManifestLexer.LexFrom([0], Redented(), 0) ==
      Stream([ManifestLexer.Line(0, "foo"), ManifestLexer.Line(1, "bar"), ManifestLexer.Line(2, "baz"),
        ManifestLexer.Line(0, "xyzzy")], None)
  {
    LexRedentStep();
    LexRedentOpen();
  }

  /** Blank lines around a lone entry indented by two columns: it comes out at level one. */
  lemma LexIndentedFirst()
    ensures ManifestLexer.LexFrom([0], [Measured(true, 0, ""), Measured(false, 2, "foo"), Measured(true, 8, "")], 0) ==
      Stream([ManifestLexer.Line(1, "foo")], None)
  {
    var ms := [Measured(true, 0, ""), Measured(false, 2, "foo"), Measured(true, 8, "")];
    LineStepCases([0], ms[0]);
    LineStepCases([0], ms[1]);
    LineStepCases([0, 2], ms[2]);
    assert [0] + [2] == [0, 2];
  }

  /**
   * A name ending in a no-break space and a key with an accented capital
   * are outside the round trip: Python 3 would strip the one and lower the
   * other.
   */
  lemma NonAsciiNotCarried()
    ensures !ManifestRoundTrip.NameOk("a\U{00A0}")
    ensures !ManifestRoundTrip.KeyOk("\U{00C9}")
    ensures !ManifestRoundTrip.WellFormed(Manifest(map["a\U{00A0}" := Empty], map[]))
  {
    assert "a\U{00A0}"[1] as int == 0xA0;
    assert "\U{00C9}"[0] as int == 0xC9;
    assert "a\U{00A0}" in Manifest(map["a\U{00A0}" := Empty], map[]).children;
  }
}
