/**
 * `ManifestFileParser` (manifest_file.py): the attribute validators, the
 * split of a token into an entry name and its attribute list, the
 * `parse_lines` generator that yields `(level, name, attrs)`. `build` is
 * in module ManifestBuild.
 */
module ManifestFileParser {
  import opened Wrappers
  import opened PyStr
  import opened PyInt
  import opened ManifestTree
  import opened Indentation
  import ManifestLexer

  // ---------------------------------------------------------------------
  // Attribute validators
  // ---------------------------------------------------------------------

  /** `parse_uint(s)`: `int(s, 0)`, refused when it is not an integer or is negative. */
  function ParseUint(s: string): (r: Result<nat, Error>)
    ensures r.Err? ==> r.error == InvalidAttributeValue(s)
  {
    match ParseIntLiteral(s)
    case None => Err(InvalidAttributeValue(s))
    case Some(v) => if v < 0 then Err(InvalidAttributeValue(s)) else Ok(v)
  }

  /** A character the SHA-1 pattern `[0-9a-f]` accepts. */
  predicate IsLowerHex(c: char) {
    '0' <= c <= '9' || 'a' <= c <= 'f'
  }

  /** Text the pattern `^[0-9a-f]{40}$` matches. */
  predicate IsSha1Text(t: string) {
    |t| == 40 && forall i :: 0 <= i < |t| ==> IsLowerHex(t[i])
  }

  /** `parse_sha1sum(s)`: the stripped, lowered text when it is 40 lower-case hex digits. */
  function ParseSha1sum(s: string): (r: Result<string, Error>)
    ensures r.Ok? ==> IsSha1Text(r.value) && r.value == Lower(Strip(s))
    ensures r.Err? ==> r.error == InvalidAttributeValue(s) && !IsSha1Text(Lower(Strip(s)))
  {
    var t := Lower(Strip(s));
    if IsSha1Text(t) then Ok(t) else Err(InvalidAttributeValue(s))
  }

  /** The keys whose values go through `parse_uint`. */
  const UintKeys: set<string> := {"mode", "uid", "gid", "size"}

  /** A key as `parse_attr` leaves it: stripped and lower-case. */
  predicate CanonicalKey(k: string) {
    Trimmed(k) && forall i :: 0 <= i < |k| ==> !('A' <= k[i] <= 'Z')
  }

  /**
   * A value as `parse_attr` leaves it for key `k`: a number for the integer
   * keys, a SHA-1 text for `sha1`, and stripped text for every other key.
   */
  predicate ParsedValue(k: string, v: AttrValue) {
    if k in UintKeys then v.Uint?
    else if k == "sha1" then v.Text? && IsSha1Text(v.s)
    else v.Text? && Trimmed(v.s)
  }

  /**
   * `parse_attr(key_s, value_s)`: the key stripped and lowered, the value
   * stripped and passed through the validator of that key, if it has one.
   */
  function ParseAttr(keyText: string, valueText: string): (r: Result<(string, AttrValue), Error>)
    ensures r.Ok? ==> r.value.0 == Lower(Strip(keyText))
  {
    var key := Lower(Strip(keyText));
    var value := Strip(valueText);
    if key in UintKeys then
      match ParseUint(value)
      case Err(e) => Err(e)
      case Ok(n) => Ok((key, Uint(n)))
    else if key == "sha1" then
      match ParseSha1sum(value)
      case Err(e) => Err(e)
      case Ok(t) => Ok((key, Text(t)))
    else Ok((key, Text(value)))
  }

  lemma LowerKeepsSpace(c: char)
    ensures IsSpace(LowerChar(c)) == IsSpace(c)
    ensures !('A' <= LowerChar(c) <= 'Z')
  {
  }

  /** Stripping and lowering gives a canonical key. */
  lemma LowerStripCanonical(s: string)
    ensures CanonicalKey(Lower(Strip(s)))
  {
    var t := Strip(s);
    var k := Lower(t);
    forall i | 0 <= i < |k| ensures !('A' <= k[i] <= 'Z') {
      LowerKeepsSpace(t[i]);
    }
    if k != [] {
      LowerKeepsSpace(t[0]);
      LowerKeepsSpace(t[|t| - 1]);
    }
  }

  /** The key is canonical and the value has the form its validator gives. */
  lemma ParseAttrParsed(keyText: string, valueText: string)
    requires ParseAttr(keyText, valueText).Ok?
    ensures var r := ParseAttr(keyText, valueText).value; CanonicalKey(r.0) && ParsedValue(r.0, r.1)
  {
    LowerStripCanonical(keyText);
  }

  // ---------------------------------------------------------------------
  // parse_token
  // ---------------------------------------------------------------------

  /**
   * One comma-separated piece of an attribute list added to `acc`: a blank
   * piece is skipped, a piece without `:` is malformed, otherwise a later
   * key replaces an earlier one.
   */
  function AddPiece(acc: Attrs, piece: string): Result<Attrs, Error> {
    if Strip(piece) == [] then Ok(acc)
    else
      match SplitFirst(piece, ':')
      case None => Err(MalformedAttributes(piece))
      case Some((k, v)) =>
        match ParseAttr(k, v)
        case Err(e) => Err(e)
        case Ok((key, value)) => Ok(acc[key := value])
  }

  /** The attributes of the pieces, added from the first to the last. */
  function AttrsFrom(pieces: seq<string>): Result<Attrs, Error>
    decreases |pieces|
  {
    if pieces == [] then Ok(map[])
    else
      match AttrsFrom(pieces[..|pieces| - 1])
      case Err(e) => Err(e)
      case Ok(acc) => AddPiece(acc, pieces[|pieces| - 1])
  }

  /**
   * `parse_token(token)`: a token without `{` is an entry without
   * attributes; otherwise the text after the last `{` must end in `}` and
   * holds the comma-separated attributes, and the entry is the text before
   * it, right-stripped.
   */
  function SplitToken(token: string): Result<(string, Attrs), Error> {
    match RSplitLast(token, '{')
    case None => Ok((token, map[]))
    case Some((entry, attrText)) =>
      if attrText == [] || attrText[|attrText| - 1] != '}' then Err(MalformedAttributes(token))
      else
        match AttrsFrom(Split(attrText[..|attrText| - 1], ','))
        case Err(e) => Err(e)
        case Ok(attrs) => Ok((RStrip(entry), attrs))
  }

  /** Once a piece fails, the whole list fails with that piece's error. */
  lemma {:induction false} AttrsFromErr(pieces: seq<string>, j: nat)
    requires j <= |pieces| && AttrsFrom(pieces[..j]).Err?
    ensures AttrsFrom(pieces) == AttrsFrom(pieces[..j])
    decreases |pieces|
  {
    if j < |pieces| {
      var init := pieces[..|pieces| - 1];
      assert init[..j] == pieces[..j];
      AttrsFromErr(init, j);
    } else {
      assert pieces[..j] == pieces;
    }
  }

  /** The loop of `parse_token` over the comma-separated pieces, filling `attrs` in place. */
  method ParseAttrList(pieces: seq<string>) returns (r: Result<Attrs, Error>)
    ensures r == AttrsFrom(pieces)
  {
    var attrs: Attrs := map[];
    var i := 0;
    while i < |pieces|
      invariant 0 <= i <= |pieces|
      invariant AttrsFrom(pieces[..i]) == Ok(attrs)
    {
      var s := pieces[i];
      AttrsFromStep(pieces, i, attrs);
      if Strip(s) != [] {
        var kv := SplitFirst(s, ':');
        if kv.None? {
          AttrsFromErr(pieces, i + 1);
          return Err(MalformedAttributes(s));
        }
        var parsed := ParseAttr(kv.value.0, kv.value.1);
        if parsed.Err? {
          AttrsFromErr(pieces, i + 1);
          return Err(parsed.error);
        }
        attrs := attrs[parsed.value.0 := parsed.value.1];
      }
      i := i + 1;
    }
    assert pieces[..i] == pieces;
    return Ok(attrs);
  }

  /** Adding the pieces one at a time, as the loop does. */
  lemma AttrsFromStep(pieces: seq<string>, i: nat, acc: Attrs)
    requires i < |pieces| && AttrsFrom(pieces[..i]) == Ok(acc)
    ensures AttrsFrom(pieces[..i + 1]) == AddPiece(acc, pieces[i])
  {
    assert pieces[..i + 1][..i] == pieces[..i];
  }

  /** `parse_token`: split at the last `{`, check the closing `}`, parse the pieces. */
  method ParseToken(token: string) returns (r: Result<(string, Attrs), Error>)
    ensures r == SplitToken(token)
  {
    var split := RSplitLast(token, '{');
    if split.None? {
      return Ok((token, map[]));
    }
    var entry, attrText := split.value.0, split.value.1;
    if attrText == [] || attrText[|attrText| - 1] != '}' {
      return Err(MalformedAttributes(token));
    }
    var attrs := ParseAttrList(Split(attrText[..|attrText| - 1], ','));
    if attrs.Err? {
      return Err(attrs.error);
    }
    return Ok((RStrip(entry), attrs.value));
  }

  /** A token without `{` is the entry itself, without attributes. */
  lemma SplitTokenNoBrace(token: string)
    requires '{' !in token
    ensures SplitToken(token) == Ok((token, map[]))
  {
    RSplitLastSpec(token, '{');
  }

  /** Blank pieces add nothing, so an empty attribute list gives no attributes. */
  lemma {:induction false} AttrsFromBlank(pieces: seq<string>)
    requires forall i :: 0 <= i < |pieces| ==> Strip(pieces[i]) == []
    ensures AttrsFrom(pieces) == Ok(map[])
    decreases |pieces|
  {
    if pieces != [] {
      AttrsFromBlank(pieces[..|pieces| - 1]);
    }
  }

  /** The key a non-blank piece with a `:` names. */
  function PieceKey(piece: string): Option<string> {
    if Strip(piece) == [] then None
    else
      match SplitFirst(piece, ':')
      case None => None
      case Some((k, _)) => Some(Lower(Strip(k)))
  }

  /** The value a piece with a `:` gives, when it parses. */
  function PieceValue(piece: string): AttrValue
    requires SplitFirst(piece, ':').Some?
  {
    var kv := SplitFirst(piece, ':').value;
    match ParseAttr(kv.0, kv.1)
    case Ok(r) => r.1
    case Err(_) => Text(piece)
  }

  /** What one piece does to the attributes: nothing, or set its key to its value. */
  lemma AddPieceSpec(acc: Attrs, piece: string)
    requires AddPiece(acc, piece).Ok?
    ensures PieceKey(piece).None? ==> AddPiece(acc, piece).value == acc
    ensures PieceKey(piece).Some? ==>
      AddPiece(acc, piece).value == acc[PieceKey(piece).value := PieceValue(piece)] &&
      CanonicalKey(PieceKey(piece).value) && ParsedValue(PieceKey(piece).value, PieceValue(piece))
  {
    if Strip(piece) != [] {
      var kv := SplitFirst(piece, ':').value;
      ParseAttrParsed(kv.0, kv.1);
    }
  }

  /** The pieces before the last one parse when all of them do. */
  lemma AttrsFromInit(pieces: seq<string>)
    requires pieces != [] && AttrsFrom(pieces).Ok?
    ensures AttrsFrom(pieces[..|pieces| - 1]).Ok?
    ensures AddPiece(AttrsFrom(pieces[..|pieces| - 1]).value, pieces[|pieces| - 1]) == AttrsFrom(pieces)
  {
  }

  /** Every parsed key is canonical and its value has its validator's form. */
  lemma {:induction false} AttrsFromParsed(pieces: seq<string>)
    requires AttrsFrom(pieces).Ok?
    ensures forall k :: k in AttrsFrom(pieces).value ==>
      CanonicalKey(k) && ParsedValue(k, AttrsFrom(pieces).value[k])
    decreases |pieces|
  {
    if pieces != [] {
      var init := pieces[..|pieces| - 1];
      AttrsFromInit(pieces);
      AttrsFromParsed(init);
      var acc, last := AttrsFrom(init).value, pieces[|pieces| - 1];
      AddPieceSpec(acc, last);
      var a := AttrsFrom(pieces).value;
      forall k | k in a ensures CanonicalKey(k) && ParsedValue(k, a[k]) {
        if PieceKey(last) != Some(k) {
          assert k in acc && a[k] == acc[k];
        }
      }
    }
  }

  /** Some piece names the key `k`. */
  predicate Named(pieces: seq<string>, k: string) {
    exists i :: 0 <= i < |pieces| && PieceKey(pieces[i]) == Some(k)
  }

  lemma NamedSnoc(pieces: seq<string>, k: string)
    requires pieces != []
    ensures Named(pieces, k) <==>
      Named(pieces[..|pieces| - 1], k) || PieceKey(pieces[|pieces| - 1]) == Some(k)
  {
    var init := pieces[..|pieces| - 1];
    if Named(init, k) {
      NamedInit(pieces, k);
    }
    if Named(pieces, k) {
      var i :| 0 <= i < |pieces| && PieceKey(pieces[i]) == Some(k);
      if i < |init| {
        assert init[i] == pieces[i];
      }
    }
  }

  /** A key named before the last piece is named by the whole list. */
  lemma NamedInit(pieces: seq<string>, k: string)
    requires pieces != [] && Named(pieces[..|pieces| - 1], k)
    ensures Named(pieces, k)
  {
    var init := pieces[..|pieces| - 1];
    var i :| 0 <= i < |init| && PieceKey(init[i]) == Some(k);
    assert pieces[i] == init[i];
  }

  /** A key is present exactly when some piece names it. */
  lemma {:induction false} AttrsFromKeys(pieces: seq<string>)
    requires AttrsFrom(pieces).Ok?
    ensures forall k :: k in AttrsFrom(pieces).value <==> Named(pieces, k)
    decreases |pieces|
  {
    if pieces != [] {
      var init := pieces[..|pieces| - 1];
      var last := pieces[|pieces| - 1];
      AttrsFromInit(pieces);
      AttrsFromKeys(init);
      AddPieceSpec(AttrsFrom(init).value, last);
      forall k ensures k in AttrsFrom(pieces).value <==> Named(pieces, k) {
        NamedSnoc(pieces, k);
      }
    }
  }

  /** The value of a key is the one the last piece naming it gives: a later key overwrites. */
  lemma {:induction false} AttrsFromLast(pieces: seq<string>, i: nat)
    requires AttrsFrom(pieces).Ok? && i < |pieces| && PieceKey(pieces[i]).Some?
    requires forall j :: i < j < |pieces| ==> PieceKey(pieces[j]) != PieceKey(pieces[i])
    ensures PieceKey(pieces[i]).value in AttrsFrom(pieces).value
    ensures AttrsFrom(pieces).value[PieceKey(pieces[i]).value] == PieceValue(pieces[i])
    decreases |pieces|
  {
    var init := pieces[..|pieces| - 1];
    var last := pieces[|pieces| - 1];
    AttrsFromInit(pieces);
    AddPieceSpec(AttrsFrom(init).value, last);
    if i < |init| {
      assert init[i] == pieces[i];
      assert PieceKey(last) != PieceKey(init[i]);
      forall j | i < j < |init| ensures PieceKey(init[j]) != PieceKey(init[i]) {
        assert init[j] == pieces[j];
      }
      AttrsFromLast(init, i);
    }
  }

  /** Only a token with a `{` can fail to split. */
  lemma SplitTokenErr(token: string)
    requires SplitToken(token).Err?
    ensures '{' in token
  {
    RSplitLastSpec(token, '{');
  }

  // ---------------------------------------------------------------------
  // parse_lines
  // ---------------------------------------------------------------------

  /** One yielded triple: the nesting level, the entry name and its attributes. */
  datatype Item = Item(level: nat, name: string, attrs: Attrs)

  /**
   * The lexed pairs with each token split into entry and attributes; the
   * first token that does not split ends the stream with its error.
   */
  function Tokenize(s: Stream<ManifestLexer.Line>): Stream<Item>
    decreases |s.items|
  {
    if s.items == [] then Stream([], s.failure)
    else
      match SplitToken(s.items[0].token)
      case Err(e) => Stream([], Some(e))
      case Ok((name, attrs)) =>
        Prepend([Item(s.items[0].level, name, attrs)], Tokenize(Stream(s.items[1..], s.failure)))
  }

  /** `list(ManifestFileParser().parse_lines(lines))`. */
  function FileLex(lines: seq<string>): Stream<Item> {
    Tokenize(ManifestLexer.Lex(lines))
  }

  /** Splitting the token of one lexed pair in front of the rest. */
  lemma TokenizeCons(l: ManifestLexer.Line, rest: Stream<ManifestLexer.Line>)
    ensures var s := Tokenize(Prepend([l], rest));
      var split := SplitToken(l.token);
      (split.Err? ==> s == Stream([], Some(split.error))) &&
      (split.Ok? ==> s == Prepend([Item(l.level, split.value.0, split.value.1)], Tokenize(rest)))
  {
    var p := Prepend([l], rest);
    assert p.items[0] == l && Stream(p.items[1..], p.failure) == rest;
  }

  /**
   * One line's worth of the triples, with `whole` the triples of all lines
   * and `items` those yielded before line `i`.
   */
  lemma FileAdvance(stack: seq<nat>, ms: seq<Measured>, i: nat, items: seq<Item>, whole: Stream<Item>)
    requires ValidStack(stack) && i < |ms|
    requires whole == Prepend(items, Tokenize(ManifestLexer.LexFrom(stack, ms, i)))
    ensures var step := LineStep(stack, ms[i]);
      (step.Blank? ==> whole == Prepend(items, Tokenize(ManifestLexer.LexFrom(stack, ms, i + 1)))) &&
      (step.Broken? ==> whole == Stream(items, Some(BrokenIndent(i, step.indent, step.expected)))) &&
      (step.Entry? && SplitToken(step.token).Err? ==> whole == Stream(items, Some(SplitToken(step.token).error))) &&
      (step.Entry? && SplitToken(step.token).Ok? ==>
         var split := SplitToken(step.token).value;
         whole == Prepend(items + [Item(|step.stack| - 1, split.0, split.1)],
                          Tokenize(ManifestLexer.LexFrom(step.stack, ms, i + 1))))
  {
    var step := LineStep(stack, ms[i]);
    var here := ManifestLexer.LexFrom(stack, ms, i);
    ManifestLexer.LexAdvance(stack, ms, i, [], here);
    if step.Blank? {
      assert here == ManifestLexer.LexFrom(stack, ms, i + 1);
    } else if step.Broken? {
      assert items + [] == items;
    } else {
      var l := ManifestLexer.Line(|step.stack| - 1, step.token);
      var rest := ManifestLexer.LexFrom(step.stack, ms, i + 1);
      assert here == Prepend([l], rest);
      TokenizeCons(l, rest);
      if SplitToken(step.token).Err? {
        assert items + [] == items;
      } else {
        var split := SplitToken(step.token).value;
        ManifestLexer.PrependAppend(items, [Item(|step.stack| - 1, split.0, split.1)], Tokenize(rest));
      }
    }
  }

  /** The `parse_lines` loop over all lines, given their measurements. */
  method FileLexLines(lines: seq<string>, ghost ms: seq<Measured>) returns (items: seq<Item>, failure: Option<Error>)
    requires ManifestLexer.Measures(ms, lines)
    ensures Stream(items, failure) == Tokenize(ManifestLexer.LexFrom([0], ms, 0))
  {
    var indents: seq<nat> := [0];
    items := [];
    var i := 0;
    while i < |lines|
      invariant 0 <= i <= |lines|
      invariant ValidStack(indents)
      invariant Tokenize(ManifestLexer.LexFrom([0], ms, 0)) ==
        Prepend(items, Tokenize(ManifestLexer.LexFrom(indents, ms, i)))
    {
      var stop;
      indents, items, stop, failure := FileLexTurn(indents, lines, ms, i, items, Tokenize(ManifestLexer.LexFrom([0], ms, 0)));
      if stop {
        return;
      }
      i := i + 1;
    }
    failure := None;
  }

  /**
   * One turn of the loop in `parse_lines`: a blank line yields nothing, a
   * broken dedent or a token that does not split stops with its error, any
   * other line yields its triple and moves to the new stack.
   */
  method FileLexTurn(indents: seq<nat>, lines: seq<string>, ghost ms: seq<Measured>, i: nat, items: seq<Item>, ghost whole: Stream<Item>)
    returns (indents': seq<nat>, items': seq<Item>, stop: bool, failure: Option<Error>)
    requires ValidStack(indents) && i < |lines| && ManifestLexer.Measures(ms, lines)
    requires whole == Prepend(items, Tokenize(ManifestLexer.LexFrom(indents, ms, i)))
    ensures ValidStack(indents')
    ensures stop ==> whole == Stream(items', failure)
    ensures !stop ==> whole == Prepend(items', Tokenize(ManifestLexer.LexFrom(indents', ms, i + 1)))
  {
    var step := ManifestLexer.LexLine(indents, lines, ms, i);
    FileAdvance(indents, ms, i, items, whole);
    indents', items', stop, failure := indents, items, false, None;
    if step.Broken? {
      stop, failure := true, Some(BrokenIndent(i, step.indent, step.expected));
    } else if step.Entry? {
      var parsed := ParseToken(step.token);
      if parsed.Err? {
        stop, failure := true, Some(parsed.error);
      } else {
        indents' := step.stack;
        items' := items + [Item(|step.stack| - 1, parsed.value.0, parsed.value.1)];
      }
    }
  }

  /** `ManifestFileParser.parse_lines`. */
  method ParseLines(lines: seq<string>) returns (items: seq<Item>, failure: Option<Error>)
    ensures Stream(items, failure) == FileLex(lines)
  {
    ghost var ms := ManifestLexer.MeasureAll(lines);
    ManifestLexer.MeasuresAll(ms, lines);
    items, failure := FileLexLines(lines, ms);
  }

  /** The errors a token raises: a malformed attribute list, or a value its validator refuses. */
  predicate TokenError(e: Error) {
    e.MalformedAttributes? || e.InvalidAttributeValue?
  }

  lemma {:induction false} AttrsFromErrorKind(pieces: seq<string>)
    ensures AttrsFrom(pieces).Err? ==> TokenError(AttrsFrom(pieces).error)
    decreases |pieces|
  {
    if pieces != [] {
      AttrsFromErrorKind(pieces[..|pieces| - 1]);
    }
  }

  lemma SplitTokenErrorKind(token: string)
    ensures SplitToken(token).Err? ==> TokenError(SplitToken(token).error)
  {
    match RSplitLast(token, '{')
    case None =>
    case Some((entry, attrText)) =>
      if attrText != [] && attrText[|attrText| - 1] == '}' {
        AttrsFromErrorKind(Split(attrText[..|attrText| - 1], ','));
      }
  }

  /**
   * Each triple is its lexed pair with the token split, in order; the
   * stream stops early only at a token that does not split, and its
   * failure is that token's error or the lexer's own.
   */
  lemma {:induction false} TokenizeShape(s: Stream<ManifestLexer.Line>)
    ensures var t := Tokenize(s);
      |t.items| <= |s.items| &&
      (forall k :: 0 <= k < |t.items| ==>
         t.items[k].level == s.items[k].level &&
         SplitToken(s.items[k].token) == Ok((t.items[k].name, t.items[k].attrs))) &&
      (t.failure.Some? ==> t.failure == s.failure || TokenError(t.failure.value)) &&
      (|t.items| < |s.items| ==> t.failure.Some? && TokenError(t.failure.value))
    decreases |s.items|
  {
    if s.items != [] {
      var l := s.items[0];
      var rest := Stream(s.items[1..], s.failure);
      SplitTokenErrorKind(l.token);
      TokenizeShape(rest);
      if SplitToken(l.token).Ok? {
        var t := Tokenize(s);
        var split := SplitToken(l.token).value;
        assert t.items == [Item(l.level, split.0, split.1)] + Tokenize(rest).items;
        forall k | 0 < k < |t.items|
          ensures t.items[k].level == s.items[k].level
          ensures SplitToken(s.items[k].token) == Ok((t.items[k].name, t.items[k].attrs))
        {
          assert t.items[k] == Tokenize(rest).items[k - 1] && s.items[k] == rest.items[k - 1];
        }
      }
    }
  }

  /** Each level is at most one more than the previous one; the first is at most `start + 1`. */
  predicate ItemsClimb(start: nat, items: seq<Item>) {
    (items != [] ==> items[0].level <= start + 1) &&
    forall k :: 0 < k < |items| ==> items[k].level <= items[k - 1].level + 1
  }

  /** The triples climb by at most one level at a time, from level at most one. */
  lemma FileLexClimbs(lines: seq<string>)
    ensures ItemsClimb(0, FileLex(lines).items)
  {
    var lexed := ManifestLexer.Lex(lines);
    ManifestLexer.LexClimbs(lines);
    TokenizeShape(lexed);
  }

  /** The generator stops with a broken dedent of the lexer or with a token's error. */
  lemma FileLexFailure(lines: seq<string>)
    ensures var f := FileLex(lines).failure;
      f.Some? ==> ManifestLexer.BrokenAt(lines, f.value) || TokenError(f.value)
  {
    ManifestLexer.LexFailure(lines);
    TokenizeShape(ManifestLexer.Lex(lines));
  }
}
