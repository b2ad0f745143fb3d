/**
 * The indentation machine that both `parse_lines` implementations share:
 * cleaning one physical line, measuring its indent, and the stack of open
 * indent widths that the indent is checked against.
 */
module Indentation {
  import opened Wrappers
  import opened PyStr
  import opened ManifestTree

  /** Trailing newlines removed, the comment from the first `#` dropped, tabs as eight blanks. */
  function CleanLine(line: string): string {
    ExpandTabs(BeforeFirst(RStripChar(line, '\n'), '#'))
  }

  /** `line.lstrip(" ")`: the token starts after the indent. */
  function TokenStart(clean: string): string {
    LStripChar(clean, ' ')
  }

  /** The number of blanks in front of the token. */
  function Indent(clean: string): nat {
    |clean| - |TokenStart(clean)|
  }

  /** The stack of open indent widths: it starts at 0 and strictly increases. */
  predicate ValidStack(s: seq<nat>) {
    |s| >= 1 && s[0] == 0 && forall i, j :: 0 <= i < j < |s| ==> s[i] < s[j]
  }

  /** `while indent < indents[-1]: indents.pop()`. */
  function Popped(s: seq<nat>, w: nat): (r: seq<nat>)
    requires |s| >= 1 && s[0] <= w
    ensures 1 <= |r| <= |s| && r == s[..|r|] && r[|r| - 1] <= w
    ensures forall i :: |r| <= i < |s| ==> w < s[i]
    decreases |s|
  {
    if w < s[|s| - 1] then Popped(s[..|s| - 1], w) else s
  }

  /**
   * The stack after a line indented by `w`: pushed when the indent grows,
   * popped back when it shrinks, and None when the popped stack does not
   * end at `w` (the broken dedent).
   */
  function NextStack(s: seq<nat>, w: nat): Option<seq<nat>>
    requires |s| >= 1 && s[0] == 0
  {
    if w > s[|s| - 1] then Some(s + [w])
    else if w < s[|s| - 1] then
      var p := Popped(s, w);
      if w != p[|p| - 1] then None else Some(p)
    else Some(s)
  }

  /**
   * The stack update of one `parse_lines` iteration, as the loop it is:
   * push a deeper indent, pop back to a shallower one, and report None
   * when the popped stack does not end at it.
   */
  method Reindent(indents: seq<nat>, indent: nat) returns (r: Option<seq<nat>>)
    requires |indents| >= 1 && indents[0] == 0
    ensures r == NextStack(indents, indent)
  {
    var stack := indents;
    if indent > stack[|stack| - 1] {
      stack := stack + [indent];
    } else if indent < stack[|stack| - 1] {
      while indent < stack[|stack| - 1]
        invariant 1 <= |stack| && stack[0] == 0
        invariant Popped(stack, indent) == Popped(indents, indent)
        decreases |stack|
      {
        stack := stack[..|stack| - 1];
      }
      if indent != stack[|stack| - 1] {
        return None;
      }
    }
    return Some(stack);
  }

  /** Popping a strictly increasing stack to a width it holds keeps exactly the entries up to it. */
  lemma {:induction false} PoppedAt(s: seq<nat>, w: nat, k: nat)
    requires ValidStack(s) && k < |s| && s[k] == w
    ensures Popped(s, w) == s[..k + 1]
    decreases |s|
  {
    if k < |s| - 1 {
      assert w < s[|s| - 1];
      var t := s[..|s| - 1];
      assert ValidStack(t);
      PoppedAt(t, w, k);
      assert t[..k + 1] == s[..k + 1];
    }
  }

  /**
   * What a line does to the stack, stated without the pop loop: a deeper
   * line pushes its width, a line at an open width closes every deeper
   * level, and any other shallower line is a broken dedent.
   */
  lemma NextStackSpec(s: seq<nat>, w: nat)
    requires ValidStack(s)
    ensures s[|s| - 1] < w ==> NextStack(s, w) == Some(s + [w])
    ensures forall k :: 0 <= k < |s| && s[k] == w ==> NextStack(s, w) == Some(s[..k + 1])
    ensures NextStack(s, w).None? <==> w < s[|s| - 1] && w !in s
  {
    forall k | 0 <= k < |s| && s[k] == w ensures NextStack(s, w) == Some(s[..k + 1]) {
      if k == |s| - 1 {
        assert s[..k + 1] == s;
      } else {
        assert w < s[|s| - 1];
        PoppedAt(s, w, k);
      }
    }
    if w < s[|s| - 1] && w !in s {
      var p := Popped(s, w);
      assert p[|p| - 1] == s[|p| - 1];
    }
  }

  /** The stack stays valid, ends at the line's width, and grows by at most one entry. */
  lemma NextStackValid(s: seq<nat>, w: nat)
    requires ValidStack(s) && NextStack(s, w).Some?
    ensures ValidStack(NextStack(s, w).value)
    ensures NextStack(s, w).value[|NextStack(s, w).value| - 1] == w
    ensures |NextStack(s, w).value| <= |s| + 1
  {
    var r := NextStack(s, w).value;
    if w < s[|s| - 1] {
      var p := Popped(s, w);
      assert r == p == s[..|p|];
    }
  }

  /**
   * What the loop reads off one physical line: whether nothing is left
   * after the comment and the indent, the width of the indent, and the
   * token right-stripped.
   */
  datatype Measured = Measured(blank: bool, indent: nat, token: string)

  function Measure(line: string): Measured {
    var clean := CleanLine(line);
    var token := TokenStart(clean);
    Measured(token == [], Indent(clean), RStrip(token))
  }

  /** What one physical line contributes. */
  datatype Step =
    | Blank
    | Broken(indent: nat, expected: nat)
    | Entry(stack: seq<nat>, token: string)

  /**
   * One iteration of the `parse_lines` loop before the token is emitted:
   * a blank line does nothing, a broken dedent reports the indent and the
   * open width it fell onto, otherwise the new stack and the token.
   */
  function LineStep(stack: seq<nat>, m: Measured): (r: Step)
    requires ValidStack(stack)
    ensures r.Entry? ==> ValidStack(r.stack) && |r.stack| <= |stack| + 1
  {
    if m.blank then Blank
    else
      match NextStack(stack, m.indent)
      case None =>
        var p := Popped(stack, m.indent);
        Broken(m.indent, p[|p| - 1])
      case Some(next) =>
        NextStackValid(stack, m.indent);
        Entry(next, m.token)
  }

  /**
   * A non-blank line either makes its indent the top of the stack, or is a
   * shallower indent that no open level has, reported with the open width
   * it fell onto, which is below it.
   */
  lemma LineStepSpec(stack: seq<nat>, m: Measured)
    requires ValidStack(stack)
    ensures var r := LineStep(stack, m);
      (r.Blank? <==> m.blank) &&
      (r.Broken? <==> !m.blank && NextStack(stack, m.indent).None?) &&
      (r.Entry? ==> r.stack == NextStack(stack, m.indent).value && r.token == m.token) &&
      (r.Entry? ==> r.stack[|r.stack| - 1] == m.indent) &&
      (r.Broken? ==> r.indent == m.indent) &&
      (r.Broken? ==> r.expected < r.indent < stack[|stack| - 1] && r.indent !in stack)
  {
    var w := m.indent;
    NextStackSpec(stack, w);
    if !m.blank {
      match NextStack(stack, w)
      case None =>
        var p := Popped(stack, w);
        assert p[|p| - 1] == stack[|p| - 1];
      case Some(next) =>
        NextStackValid(stack, w);
    }
  }

  /** The three outcomes of `LineStep`, each stated exactly. */
  lemma LineStepCases(stack: seq<nat>, m: Measured)
    requires ValidStack(stack)
    ensures m.blank ==> LineStep(stack, m) == Blank
    ensures !m.blank && NextStack(stack, m.indent).None? ==>
      var p := Popped(stack, m.indent); LineStep(stack, m) == Broken(m.indent, p[|p| - 1])
    ensures !m.blank && NextStack(stack, m.indent).Some? ==>
      LineStep(stack, m) == Entry(NextStack(stack, m.indent).value, m.token)
  {
  }

  /**
   * The items a generator yields before it stops, and the exception that
   * stopped it, if any.
   */
  datatype Stream<T> = Stream(items: seq<T>, failure: Option<Error>)

  /** Items yielded before those of `rest`. */
  function Prepend<T>(items: seq<T>, rest: Stream<T>): Stream<T> {
    Stream(items + rest.items, rest.failure)
  }

  /** The stack `[0, 8, 16, ..., 8 * h]` that `h` levels of tab indentation leave. */
  function TabStack(h: nat): (r: seq<nat>)
    ensures |r| == h + 1 && ValidStack(r)
    ensures forall i :: 0 <= i < |r| ==> r[i] == 8 * i
  {
    seq(h + 1, i requires 0 <= i <= h => 8 * i)
  }

  /** A line indented by `d` tabs on a stack of `h` tab levels opens, keeps or closes levels down to `d`. */
  lemma TabStep(h: nat, d: nat)
    requires d <= h + 1
    ensures NextStack(TabStack(h), 8 * d) == Some(TabStack(d))
  {
    var s := TabStack(h);
    NextStackSpec(s, 8 * d);
    if d == h + 1 {
      assert s + [8 * d] == TabStack(d);
    } else {
      assert s[d] == 8 * d;
      assert s[..d + 1] == TabStack(d);
    }
  }
}
