/**
 * `Manifest.parse_lines` (manifest.py): the attribute-less lexer that turns
 * the lines of a manifest file into `(level, token)` pairs, where the level
 * is the number of indent widths open above the token.
 */
module ManifestLexer {
  import opened Wrappers
  import opened PyStr
  import opened ManifestTree
  import opened Indentation

  /** One yielded pair: the nesting level and the token. */
  datatype Line = Line(level: nat, token: string)

  /** `map(f, s)`. */
  function MapSeq<A, B>(f: A -> B, s: seq<A>): (r: seq<B>)
    ensures |r| == |s|
  {
    if s == [] then [] else [f(s[0])] + MapSeq(f, s[1..])
  }

  lemma {:induction false} MapSeqAt<A, B>(f: A -> B, s: seq<A>, k: nat)
    requires k < |s|
    ensures MapSeq(f, s)[k] == f(s[k])
  {
    if k > 0 {
      MapSeqAt(f, s[1..], k - 1);
    }
  }

  /** The measurements of all lines, in order. */
  function MeasureAll(lines: seq<string>): seq<Measured> {
    MapSeq(Measure, lines)
  }

  /** `ms[k]` is the measurement of line `k`. */
  predicate MeasuredAt(ms: seq<Measured>, lines: seq<string>, k: nat) {
    k < |ms| && k < |lines| && ms[k] == Measure(lines[k])
  }

  /** `ms` holds the measurement of every line. */
  predicate Measures(ms: seq<Measured>, lines: seq<string>) {
    |ms| == |lines| && forall k: nat :: k < |lines| ==> MeasuredAt(ms, lines, k)
  }

  /** `MeasureAll` is the only sequence that measures every line. */
  lemma MeasuresAll(ms: seq<Measured>, lines: seq<string>)
    ensures Measures(ms, lines) <==> ms == MeasureAll(lines)
  {
    forall k: nat | k < |lines| ensures MeasureAll(lines)[k] == Measure(lines[k]) {
      MapSeqAt(Measure, lines, k);
    }
    if Measures(ms, lines) {
      forall k | 0 <= k < |lines| ensures ms[k] == MeasureAll(lines)[k] {
        assert MeasuredAt(ms, lines, k);
      }
    }
  }

  /** What the generator yields from line number `i` on, with `stack` open. */
  function LexFrom(stack: seq<nat>, ms: seq<Measured>, i: nat): Stream<Line>
    requires ValidStack(stack) && i <= |ms|
    decreases |ms| - i
  {
    if i == |ms| then Stream([], None)
    else
      match LineStep(stack, ms[i])
      case Blank => LexFrom(stack, ms, i + 1)
      case Broken(w, e) => Stream([], Some(BrokenIndent(i, w, e)))
      case Entry(next, token) => Prepend([Line(|next| - 1, token)], LexFrom(next, ms, i + 1))
  }

  /** `list(Manifest.parse_lines(lines))`, starting with the stack `[0]`. */
  function Lex(lines: seq<string>): Stream<Line> {
    LexFrom([0], MeasureAll(lines), 0)
  }

  /**
   * The body of the `parse_lines` loop for line number `i`: clean the line,
   * split off the indent, skip it when nothing is left, and otherwise
   * update the stack of open widths.
   */
  method LexLine(indents: seq<nat>, lines: seq<string>, ghost ms: seq<Measured>, i: nat) returns (step: Step)
    requires ValidStack(indents) && i < |lines| && Measures(ms, lines)
    ensures step == LineStep(indents, ms[i])
  {
    assert MeasuredAt(ms, lines, i);
    ghost var m := ms[i];
    LineStepCases(indents, m);
    var line := CleanLine(lines[i]);
    var token := TokenStart(line);
    assert m.blank == (token == []);
    if token == [] {
      return Blank;
    }
    var indent := |line| - |token|;
    assert m.indent == indent && m.token == RStrip(token);
    var next := Reindent(indents, indent);
    if next.None? {
      var popped := Popped(indents, indent);
      return Broken(indent, popped[|popped| - 1]);
    }
    return Entry(next.value, RStrip(token));
  }

  /** The `parse_lines` loop over all lines, given their measurements. */
  method LexLines(lines: seq<string>, ghost ms: seq<Measured>) returns (items: seq<Line>, failure: Option<Error>)
    requires Measures(ms, lines)
    ensures Stream(items, failure) == LexFrom([0], ms, 0)
  {
    var indents: seq<nat> := [0];
    items := [];
    var i := 0;
    while i < |lines|
      invariant 0 <= i <= |lines|
      invariant ValidStack(indents)
      invariant LexFrom([0], ms, 0) == Prepend(items, LexFrom(indents, ms, i))
    {
      var stop;
      indents, items, stop, failure := LexTurn(indents, lines, ms, i, items, LexFrom([0], ms, 0));
      if stop {
        return;
      }
      i := i + 1;
    }
    failure := None;
  }

  /**
   * One turn of the loop in `parse_lines`: a blank line yields nothing, a
   * broken dedent stops with its error, any other line yields its pair and
   * moves to the new stack.
   */
  method LexTurn(indents: seq<nat>, lines: seq<string>, ghost ms: seq<Measured>, i: nat, items: seq<Line>, ghost whole: Stream<Line>)
    returns (indents': seq<nat>, items': seq<Line>, stop: bool, failure: Option<Error>)
    requires ValidStack(indents) && i < |lines| && Measures(ms, lines)
    requires whole == Prepend(items, LexFrom(indents, ms, i))
    ensures ValidStack(indents')
    ensures stop ==> whole == Stream(items', failure)
    ensures !stop ==> whole == Prepend(items', LexFrom(indents', ms, i + 1))
  {
    var step := LexLine(indents, lines, ms, i);
    LexAdvance(indents, ms, i, items, whole);
    indents', items', stop, failure := indents, items, false, None;
    if step.Broken? {
      stop, failure := true, Some(BrokenIndent(i, step.indent, step.expected));
    } else if step.Entry? {
      indents' := step.stack;
      items' := items + [Line(|step.stack| - 1, step.token)];
    }
  }

  /** `Manifest.parse_lines`. */
  method ParseLines(lines: seq<string>) returns (items: seq<Line>, failure: Option<Error>)
    ensures Stream(items, failure) == Lex(lines)
  {
    ghost var ms := MeasureAll(lines);
    MeasuresAll(ms, lines);
    items, failure := LexLines(lines, ms);
  }

  /**
   * One line's worth of the stream, with `whole` the stream of all lines and
   * `items` what was yielded before line `i`: a blank line yields nothing,
   * a broken dedent ends the stream, any other line yields one pair.
   */
  lemma LexAdvance(stack: seq<nat>, ms: seq<Measured>, i: nat, items: seq<Line>, whole: Stream<Line>)
    requires ValidStack(stack) && i < |ms| && whole == Prepend(items, LexFrom(stack, ms, i))
    ensures var step := LineStep(stack, ms[i]);
      (step.Blank? ==> whole == Prepend(items, LexFrom(stack, ms, i + 1))) &&
      (step.Broken? ==> whole == Stream(items, Some(BrokenIndent(i, step.indent, step.expected)))) &&
      (step.Entry? ==> whole == Prepend(items + [Line(|step.stack| - 1, step.token)], LexFrom(step.stack, ms, i + 1)))
  {
    var step := LineStep(stack, ms[i]);
    if step.Broken? {
      assert items + [] == items;
    } else if step.Entry? {
      PrependAppend(items, [Line(|step.stack| - 1, step.token)], LexFrom(step.stack, ms, i + 1));
    }
  }

  lemma PrependAppend<T>(a: seq<T>, b: seq<T>, rest: Stream<T>)
    ensures Prepend(a, Prepend(b, rest)) == Prepend(a + b, rest)
  {
    assert a + (b + rest.items) == (a + b) + rest.items;
  }

  /** Each level is at most one more than the previous one; the first is at most `start + 1`. */
  predicate ClimbsByOne(start: nat, items: seq<Line>) {
    (items != [] ==> items[0].level <= start + 1) &&
    forall k :: 0 < k < |items| ==> items[k].level <= items[k - 1].level + 1
  }

  /**
   * The level is the stack height minus one, and the stack grows by at most
   * one entry per line, so levels climb by at most one at a time.
   */
  lemma {:induction false} LexFromClimbs(stack: seq<nat>, ms: seq<Measured>, i: nat)
    requires ValidStack(stack) && i <= |ms|
    ensures ClimbsByOne(|stack| - 1, LexFrom(stack, ms, i).items)
    decreases |ms| - i
  {
    if i < |ms| {
      match LineStep(stack, ms[i])
      case Blank => LexFromClimbs(stack, ms, i + 1);
      case Broken(_, _) =>
      case Entry(next, token) =>
        LexFromClimbs(next, ms, i + 1);
        var rest := LexFrom(next, ms, i + 1).items;
        var all := [Line(|next| - 1, token)] + rest;
        assert forall k :: 0 < k < |all| ==> all[k] == rest[k - 1];
    }
  }

  /** The first level is at most one, and each later one at most one more than the one before. */
  lemma LexClimbs(lines: seq<string>)
    ensures ClimbsByOne(0, Lex(lines).items)
  {
    LexFromClimbs([0], MeasureAll(lines), 0);
  }

  /** Whether a line holds an entry: something is left after the comment and the indent. */
  predicate HoldsEntry(line: string) {
    TokenStart(CleanLine(line)) != []
  }

  /** A reference definition of the tokens: those of the lines that hold an entry, right-stripped. */
  function EntryTokens(lines: seq<string>): seq<string> {
    if lines == [] then []
    else if HoldsEntry(lines[0]) then [RStrip(TokenStart(CleanLine(lines[0])))] + EntryTokens(lines[1..])
    else EntryTokens(lines[1..])
  }

  /** The tokens of the yielded pairs, in order. */
  function Tokens(items: seq<Line>): seq<string> {
    if items == [] then [] else [items[0].token] + Tokens(items[1..])
  }

  /** The tokens of the measured lines from `i` on that are not blank. */
  function MeasuredTokens(ms: seq<Measured>, i: nat): seq<string>
    requires i <= |ms|
    decreases |ms| - i
  {
    if i == |ms| then []
    else if ms[i].blank then MeasuredTokens(ms, i + 1)
    else [ms[i].token] + MeasuredTokens(ms, i + 1)
  }

  lemma {:induction false} LexFromTokens(stack: seq<nat>, ms: seq<Measured>, i: nat)
    requires ValidStack(stack) && i <= |ms|
    ensures var s := LexFrom(stack, ms, i);
      Tokens(s.items) <= MeasuredTokens(ms, i) &&
      (s.failure.None? ==> Tokens(s.items) == MeasuredTokens(ms, i))
    decreases |ms| - i
  {
    if i < |ms| {
      var step := LineStep(stack, ms[i]);
      LineStepCases(stack, ms[i]);
      if step.Blank? {
        LexFromTokens(stack, ms, i + 1);
      } else if step.Entry? {
        LexFromTokens(step.stack, ms, i + 1);
        var rest := LexFrom(step.stack, ms, i + 1);
        var items := [Line(|step.stack| - 1, step.token)] + rest.items;
        assert LexFrom(stack, ms, i).items == items;
        assert items[1..] == rest.items;
      }
    }
  }

  lemma {:induction false} MeasuredEntryTokens(lines: seq<string>, i: nat)
    requires i <= |lines|
    ensures MeasuredTokens(MeasureAll(lines), i) == EntryTokens(lines[i..])
    decreases |lines| - i
  {
    if i < |lines| {
      MapSeqAt(Measure, lines, i);
      MeasuredEntryTokens(lines, i + 1);
      assert lines[i..][0] == lines[i] && lines[i..][1..] == lines[i + 1..];
    }
  }

  /**
   * Blank and comment-only lines yield nothing and every other line yields
   * its own token: the tokens yielded are those of the lines that hold an
   * entry, all of them when no dedent is broken and a prefix of them otherwise.
   */
  lemma LexTokens(lines: seq<string>)
    ensures Tokens(Lex(lines).items) <= EntryTokens(lines)
    ensures Lex(lines).failure.None? ==> Tokens(Lex(lines).items) == EntryTokens(lines)
  {
    LexFromTokens([0], MeasureAll(lines), 0);
    MeasuredEntryTokens(lines, 0);
    assert lines[0..] == lines;
  }

  /**
   * A broken dedent reported as line `e.line`: that line holds an entry,
   * and its indent is deeper than the open width it fell onto.
   */
  predicate BrokenAt(lines: seq<string>, e: Error) {
    e.BrokenIndent? && e.line < |lines| &&
    HoldsEntry(lines[e.line]) &&
    e.indent == Indent(CleanLine(lines[e.line])) &&
    e.expected < e.indent
  }

  lemma {:induction false} LexFromFailure(stack: seq<nat>, lines: seq<string>, i: nat)
    requires ValidStack(stack) && i <= |lines|
    ensures var s := LexFrom(stack, MeasureAll(lines), i);
      s.failure.Some? ==> BrokenAt(lines, s.failure.value)
    decreases |lines| - i
  {
    var ms := MeasureAll(lines);
    if i < |lines| {
      var step := LineStep(stack, ms[i]);
      LineStepSpec(stack, ms[i]);
      MapSeqAt(Measure, lines, i);
      if !step.Broken? {
        var next := if step.Entry? then step.stack else stack;
        LexFromFailure(next, lines, i + 1);
        assert LexFrom(stack, ms, i).failure == LexFrom(next, ms, i + 1).failure;
      }
    }
  }

  /** The only failure is a broken dedent, at a line that holds an entry. */
  lemma LexFailure(lines: seq<string>)
    ensures Lex(lines).failure.Some? ==> BrokenAt(lines, Lex(lines).failure.value)
  {
    LexFromFailure([0], lines, 0);
  }
}
