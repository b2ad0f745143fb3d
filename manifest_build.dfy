/**
 * `ManifestFileParser.build` (manifest_file.py): every entry that
 * `parse_lines` yields is added to a fresh manifest, under the entry added
 * last when it is one level deeper, under the node the walk climbs to when
 * it is shallower, and beside the entry added last otherwise.
 */
module ManifestBuild {
  import opened Wrappers
  import opened ManifestTree
  import opened Indentation
  import opened ManifestFileParser

  /**
   * The variables of the `build` loop: the tree built so far, the entry
   * added last (`prev`), the node entries are added under (`cur`) and its
   * level. A node is named by its path from the top node.
   */
  datatype BuildState = BuildState(tree: Manifest, prev: seq<string>, cur: seq<string>, level: nat)

  /** `prev = cur = top = self.manifest_class()` and `level = 0`. */
  const Start: BuildState := BuildState(Empty, [], [], 0)

  /** `n` calls of `getparent()` from `node`, None as soon as one returns None. */
  function Climb(node: seq<string>, n: nat): Option<seq<string>>
    decreases n
  {
    if n == 0 then Some(node)
    else
      match GetParent(node)
      case None => None
      case Some(parent) => Climb(parent, n - 1)
  }

  /** Climbing `n` levels drops the last `n` components, and fails above the top. */
  lemma {:induction false} ClimbSpec(node: seq<string>, n: nat)
    ensures Climb(node, n) == if n <= |node| then Some(node[..|node| - n]) else None
    decreases n
  {
    if n == 0 {
      assert node[..|node|] == node;
    } else if node != [] {
      var parent := node[..|node| - 1];
      ClimbSpec(parent, n - 1);
      if n <= |node| {
        assert parent[..|parent| - (n - 1)] == node[..|node| - n];
      }
    }
  }

  /**
   * Where one entry goes: one level deeper means under `prev`, and it must
   * be exactly one; a shallower level climbs from `cur`; then
   * `cur.add([name], attrs)` and the new entry becomes `prev`.
   */
  function BuildStep(st: BuildState, item: Item): Result<BuildState, Error> {
    var moved: Result<(seq<string>, nat), Error> :=
      if item.level > st.level then
        if item.level != st.level + 1 then Err(LevelSkipped(item.level, st.level + 1))
        else Ok((st.prev, st.level + 1))
      else if item.level < st.level then
        match Climb(st.cur, st.level - item.level)
        case None => Err(NoParent)
        case Some(c) => Ok((c, item.level))
      else Ok((st.cur, st.level));
    if moved.Err? then Err(moved.error)
    else
      var cur := moved.value.0;
      match Add(st.tree, cur + [item.name], item.attrs)
      case Err(e) => Err(e)
      case Ok(t) => Ok(BuildState(t, cur + [item.name], cur, moved.value.1))
  }

  /** The entries processed in order from `st`; the first failing one ends the build. */
  function BuildItems(st: BuildState, items: seq<Item>): Result<BuildState, Error>
    decreases |items|
  {
    if items == [] then Ok(st)
    else
      match BuildStep(st, items[0])
      case Err(e) => Err(e)
      case Ok(next) => BuildItems(next, items[1..])
  }

  /**
   * `build(lines)`: the entries yielded before the generator stops are
   * added first, so an error of theirs wins over the generator's own.
   */
  function BuildManifest(lines: seq<string>): Result<Manifest, Error> {
    var s := FileLex(lines);
    match BuildItems(Start, s.items)
    case Err(e) => Err(e)
    case Ok(st) => if s.failure.Some? then Err(s.failure.value) else Ok(st.tree)
  }

  /** The inner loop of `build`: `getparent()` until the level is `target`. */
  method Ascend(node: seq<string>, level: nat, target: nat) returns (r: Option<seq<string>>)
    requires target <= level
    ensures r == Climb(node, level - target)
  {
    var cur, lvl := node, level;
    while target < lvl
      invariant target <= lvl <= level
      invariant Climb(node, level - target) == Climb(cur, lvl - target)
      decreases lvl
    {
      var parent := GetParent(cur);
      if parent.None? {
        return None;
      }
      cur := parent.value;
      lvl := lvl - 1;
    }
    return Some(cur);
  }

  /** One iteration of the `build` loop: find the node the entry goes under, then add it. */
  method PlaceEntry(tree: Manifest, prev: seq<string>, cur: seq<string>, level: nat, item: Item)
    returns (r: Result<BuildState, Error>)
    ensures r == BuildStep(BuildState(tree, prev, cur, level), item)
  {
    var node, lvl := cur, level;
    if item.level > lvl {
      node := prev;
      lvl := lvl + 1;
      if item.level != lvl {
        return Err(LevelSkipped(item.level, lvl));
      }
    } else if item.level < lvl {
      var parent := Ascend(node, lvl, item.level);
      if parent.None? {
        return Err(NoParent);
      }
      node, lvl := parent.value, item.level;
    }
    var added := Add(tree, node + [item.name], item.attrs);
    if added.Err? {
      return Err(added.error);
    }
    return Ok(BuildState(added.value, node + [item.name], node, lvl));
  }

  /** `build(lines)`: every entry `parse_lines` yields, placed in order. */
  method Build(lines: seq<string>) returns (r: Result<Manifest, Error>)
    ensures r == BuildManifest(lines)
  {
    var items, failure := ParseLines(lines);
    var st := Start;
    var k := 0;
    while k < |items|
      invariant 0 <= k <= |items|
      invariant BuildItems(Start, items) == BuildItems(st, items[k..])
    {
      assert items[k..][0] == items[k] && items[k..][1..] == items[k + 1..];
      var next := PlaceEntry(st.tree, st.prev, st.cur, st.level, items[k]);
      if next.Err? {
        return Err(next.error);
      }
      st := next.value;
      k := k + 1;
    }
    if failure.Some? {
      return Err(failure.value);
    }
    return Ok(st.tree);
  }

  // ---------------------------------------------------------------------
  // What build does, without the loops
  // ---------------------------------------------------------------------

  /** The node the loop puts an entry under when it neither skips a level nor climbs above the top. */
  function Under(st: BuildState, item: Item): seq<string>
    requires item.level <= st.level + 1
    requires item.level < st.level ==> st.level - item.level <= |st.cur|
  {
    if item.level == st.level + 1 then st.prev
    else st.cur[..|st.cur| - (st.level - item.level)]
  }

  /**
   * An entry more than one level deeper is refused, a dedent further up
   * than the top is refused, and any other entry is added under `Under`
   * and becomes the entry added last.
   */
  lemma BuildStepSpec(st: BuildState, item: Item)
    ensures item.level > st.level + 1 ==> BuildStep(st, item) == Err(LevelSkipped(item.level, st.level + 1))
    ensures item.level < st.level && st.level - item.level > |st.cur| ==> BuildStep(st, item) == Err(NoParent)
    ensures item.level <= st.level + 1 && (item.level < st.level ==> st.level - item.level <= |st.cur|) ==>
      var under := Under(st, item);
      var added := Add(st.tree, under + [item.name], item.attrs);
      BuildStep(st, item) ==
        if added.Err? then Err(added.error)
        else Ok(BuildState(added.value, under + [item.name], under, item.level))
  {
    if item.level < st.level {
      ClimbSpec(st.cur, st.level - item.level);
    } else if item.level == st.level {
      assert st.cur[..|st.cur|] == st.cur;
    }
  }

  /** Building from a sequence with one more entry at its end. */
  lemma {:induction false} BuildItemsSnoc(st: BuildState, items: seq<Item>, item: Item)
    ensures BuildItems(st, items + [item]) ==
      if BuildItems(st, items).Err? then BuildItems(st, items)
      else BuildStep(BuildItems(st, items).value, item)
    decreases |items|
  {
    if items == [] {
      assert [item][1..] == [];
    } else {
      assert (items + [item])[0] == items[0] && (items + [item])[1..] == items[1..] + [item];
      match BuildStep(st, items[0])
      case Err(e) =>
      case Ok(next) => BuildItemsSnoc(next, items[1..], item);
    }
  }

  /** Building from two sequences one after the other: the second starts where the first ends, unless it failed. */
  lemma {:induction false} BuildItemsAppend(st: BuildState, a: seq<Item>, b: seq<Item>)
    ensures BuildItems(st, a + b) ==
      match BuildItems(st, a)
      case Err(e) => Err(e)
      case Ok(next) => BuildItems(next, b)
    decreases |a|
  {
    if a == [] {
      assert a + b == b;
    } else {
      assert (a + b)[0] == a[0] && (a + b)[1..] == a[1..] + b;
      match BuildStep(st, a[0])
      case Err(e) =>
      case Ok(next) => BuildItemsAppend(next, a[1..], b);
    }
  }

  /** The ways an entry fails to be placed. */
  predicate PlaceError(e: Error) {
    e == NoParent || e == InvalidPath || e == DuplicateEntry
  }

  /**
   * With levels that climb by at most one, no entry ever skips a level:
   * building fails only in a dedent above the top or in `add`.
   */
  lemma {:induction false} BuildItemsErrors(st: BuildState, items: seq<Item>)
    requires ItemsClimb(st.level, items)
    ensures BuildItems(st, items).Err? ==> PlaceError(BuildItems(st, items).error)
    decreases |items|
  {
    if items != [] {
      var item := items[0];
      BuildStepSpec(st, item);
      if item.level <= st.level + 1 && (item.level < st.level ==> st.level - item.level <= |st.cur|) {
        AddOutcome(st.tree, Under(st, item) + [item.name], item.attrs);
      }
      match BuildStep(st, item)
      case Err(e) =>
      case Ok(next) =>
        var rest := items[1..];
        assert ItemsClimb(next.level, rest) by {
          assert forall k :: 0 < k < |rest| ==> rest[k] == items[k + 1];
          if rest != [] { assert rest[0] == items[1]; }
        }
        BuildItemsErrors(next, rest);
    }
  }

  /**
   * `build` raises a broken dedent of some line, a token's error, a dedent
   * above the top, or an error of `add`; never a skipped level, since the
   * lexer never climbs two levels at once.
   */
  lemma BuildErrors(lines: seq<string>)
    ensures BuildManifest(lines).Err? ==>
      var e := BuildManifest(lines).error;
      ManifestLexer.BrokenAt(lines, e) || TokenError(e) || PlaceError(e)
  {
    FileLexClimbs(lines);
    FileLexFailure(lines);
    BuildItemsErrors(Start, FileLex(lines).items);
  }

  /**
   * Once the first entry is placed, `cur` is `offset` levels above the
   * entry level and `prev` is one deeper than `cur`.
   */
  predicate Depths(st: BuildState, offset: nat) {
    |st.cur| + offset == st.level && |st.prev| == |st.cur| + 1
  }

  lemma {:induction false} BuildItemsNoDedent(st: BuildState, items: seq<Item>, offset: nat)
    requires Depths(st, offset)
    requires forall k :: 0 <= k < |items| ==> offset <= items[k].level
    ensures BuildItems(st, items) != Err(NoParent)
    decreases |items|
  {
    if items != [] {
      var item := items[0];
      BuildStepSpec(st, item);
      match BuildStep(st, item)
      case Err(e) =>
        if e == NoParent {
          AddOutcome(st.tree, Under(st, item) + [item.name], item.attrs);
        }
      case Ok(next) =>
        BuildItemsNoDedent(next, items[1..], offset);
    }
  }

  /**
   * A dedent above the top happens only when the first entry is indented
   * and a later one is not: the first entry sets how deep the top level
   * is.
   */
  lemma BuildItemsNoParent(items: seq<Item>)
    requires ItemsClimb(0, items)
    ensures BuildItems(Start, items) == Err(NoParent) ==>
      |items| >= 2 && items[0].level == 1 &&
      exists k :: 0 < k < |items| && items[k].level == 0
  {
    if BuildItems(Start, items) == Err(NoParent) {
      var item := items[0];
      BuildStepSpec(Start, item);
      if BuildStep(Start, item).Ok? {
        var st := BuildStep(Start, item).value;
        var offset := item.level;
        assert Depths(st, offset);
        var rest := items[1..];
        if forall k :: 0 <= k < |rest| ==> offset <= rest[k].level {
          BuildItemsNoDedent(st, rest, offset);
          assert false;
        }
        var k :| 0 <= k < |rest| && rest[k].level < offset;
        assert items[k + 1].level == 0;
      }
    }
  }

  lemma BuildNoParent(lines: seq<string>)
    ensures BuildManifest(lines) == Err(NoParent) ==>
      var items := FileLex(lines).items;
      |items| >= 2 && items[0].level == 1 &&
      exists k :: 0 < k < |items| && items[k].level == 0
  {
    FileLexClimbs(lines);
    FileLexFailure(lines);
    BuildItemsNoParent(FileLex(lines).items);
  }

  // ---------------------------------------------------------------------
  // Reference: each entry is a child of the last entry one level up
  // ---------------------------------------------------------------------

  /** The last entry before `k` at level `l`. */
  function LastAt(items: seq<Item>, k: nat, l: nat): (r: Option<nat>)
    requires k <= |items|
    ensures r.Some? ==> r.value < k && items[r.value].level == l
    ensures r.Some? ==> forall j :: r.value < j < k ==> items[j].level != l
    ensures r.None? ==> forall j :: 0 <= j < k ==> items[j].level != l
  {
    if k == 0 then None
    else if items[k - 1].level == l then Some(k - 1)
    else LastAt(items, k - 1, l)
  }

  /**
   * Where entry `k` belongs: an entry with no entry one level up before it
   * is a child of the top node, any other a child of the last such entry.
   */
  function PathOf(items: seq<Item>, k: nat): seq<string>
    requires k < |items|
    decreases k
  {
    var l := items[k].level;
    if l == 0 then [items[k].name]
    else
      match LastAt(items, k, l - 1)
      case None => [items[k].name]
      case Some(j) => PathOf(items, j) + [items[k].name]
  }

  /** The first `k` entries added one by one at their paths to a fresh manifest. */
  function AddUpTo(items: seq<Item>, k: nat): Result<Manifest, Error>
    requires k <= |items|
  {
    if k == 0 then Ok(Empty)
    else
      match AddUpTo(items, k - 1)
      case Err(e) => Err(e)
      case Ok(t) => Add(t, PathOf(items, k - 1), items[k - 1].attrs)
  }

  /**
   * The first `k` entries as the loop sees them when the first entry
   * sits at level `d`, zero or one: none of them is shallower than it.
   */
  predicate RootedUpTo(items: seq<Item>, d: nat, k: nat) {
    0 < k <= |items| && d <= 1 && items[0].level == d &&
    forall i :: 0 <= i < k ==> d <= items[i].level
  }

  /**
   * The loop after `k` entries, against the reference, when the first
   * entry sits at level `d`: `prev` is the path of the last entry, one
   * component per level from `d` to its own, and `cur` is its parent.
   */
  predicate PathInv(items: seq<Item>, d: nat, k: nat, st: BuildState) {
    1 <= k <= |items| &&
    st.level == items[k - 1].level &&
    d <= st.level &&
    st.prev == PathOf(items, k - 1) &&
    |st.prev| == st.level + 1 - d &&
    st.cur == st.prev[..st.level - d]
  }

  /** For each level from `d` to `top`, the last entry before `k` at that level is the node of `p` at that depth. */
  predicate OpenLevels(items: seq<Item>, d: nat, k: nat, p: seq<string>, top: nat)
    requires k <= |items|
  {
    forall l :: d <= l <= top ==>
      LastAt(items, k, l).Some? && l + 1 - d <= |p| && PathOf(items, LastAt(items, k, l).value) == p[..l + 1 - d]
  }

  /** When the levels before `k` are open along the path of entry `k - 1`, entry `k` goes under the node at its level. */
  lemma PathNext(items: seq<Item>, d: nat, k: nat)
    requires 1 <= k < |items| && RootedUpTo(items, d, k + 1)
    requires items[k].level <= items[k - 1].level + 1
    requires OpenLevels(items, d, k, PathOf(items, k - 1), items[k - 1].level)
    requires |PathOf(items, k - 1)| == items[k - 1].level + 1 - d
    ensures d <= items[k].level
    ensures PathOf(items, k) == PathOf(items, k - 1)[..items[k].level - d] + [items[k].name]
  {
    var l' := items[k].level;
    assert d <= l';
    if l' > d {
      assert LastAt(items, k, l' - 1).Some?;
    } else if l' > 0 {
      assert LastAt(items, k, l' - 1).None?;
    }
  }

  /** The open levels after entry `k`: those below its level stay, and its own level is now entry `k`. */
  lemma OpenLevelsStep(items: seq<Item>, d: nat, k: nat)
    requires 1 <= k < |items| && RootedUpTo(items, d, k + 1)
    requires items[k].level <= items[k - 1].level + 1
    requires OpenLevels(items, d, k, PathOf(items, k - 1), items[k - 1].level)
    requires |PathOf(items, k - 1)| == items[k - 1].level + 1 - d
    ensures OpenLevels(items, d, k + 1, PathOf(items, k), items[k].level)
    ensures |PathOf(items, k)| == items[k].level + 1 - d
  {
    PathNext(items, d, k);
    var k1 := k + 1;
    var q := PathOf(items, k - 1);
    var p := PathOf(items, k);
    forall l | d <= l <= items[k].level
      ensures LastAt(items, k1, l).Some? && l + 1 - d <= |p| && PathOf(items, LastAt(items, k1, l).value) == p[..l + 1 - d]
    {
      if l == items[k].level {
        assert p[..l + 1 - d] == p;
      } else {
        assert LastAt(items, k1, l) == LastAt(items, k, l);
        assert p[..l + 1 - d] == q[..l + 1 - d];
      }
    }
  }

  /** In the reference, after every entry each level from `d` to its own is open along its path. */
  lemma {:induction false} OpenLevelsAt(items: seq<Item>, d: nat, k: nat)
    requires ItemsClimb(0, items) && RootedUpTo(items, d, k)
    ensures OpenLevels(items, d, k, PathOf(items, k - 1), items[k - 1].level)
    ensures |PathOf(items, k - 1)| == items[k - 1].level + 1 - d
  {
    if k == 1 {
      assert PathOf(items, 0) == [items[0].name];
      assert LastAt(items, 1, d) == Some(0);
    } else {
      OpenLevelsAt(items, d, k - 1);
      OpenLevelsStep(items, d, k - 1);
    }
  }

  /**
   * In the reference, a later entry lies under the path of the entry
   * before it, cut at its own level: the top-down state the loop keeps.
   */
  lemma PathAt(items: seq<Item>, d: nat, k: nat)
    requires ItemsClimb(0, items) && 1 <= k < |items| && RootedUpTo(items, d, k + 1)
    ensures d <= items[k].level <= items[k - 1].level + 1
    ensures |PathOf(items, k - 1)| == items[k - 1].level + 1 - d
    ensures PathOf(items, k) == PathOf(items, k - 1)[..items[k].level - d] + [items[k].name]
  {
    assert items[k].level <= items[k - 1].level + 1;
    assert RootedUpTo(items, d, k);
    OpenLevelsAt(items, d, k);
    PathNext(items, d, k);
  }

  /** A build result and a reference result after `k` entries: the same error, or the same tree with the invariant. */
  predicate Agree(items: seq<Item>, d: nat, k: nat, b: Result<BuildState, Error>, a: Result<Manifest, Error>) {
    (b.Err? <==> a.Err?) && (b.Err? ==> b.error == a.error) &&
    (b.Ok? ==> b.value.tree == a.value && PathInv(items, d, k, b.value))
  }

  /** One entry placed by the loop goes where the reference puts it, and the invariant carries over. */
  lemma PathStep(items: seq<Item>, d: nat, k: nat, st: BuildState)
    requires ItemsClimb(0, items) && k < |items| && RootedUpTo(items, d, k + 1) && PathInv(items, d, k, st)
    ensures Agree(items, d, k + 1, BuildStep(st, items[k]), Add(st.tree, PathOf(items, k), items[k].attrs))
  {
    var item := items[k];
    PathAt(items, d, k);
    BuildStepSpec(st, item);
    UnderPrev(st, item, d);
    assert PathOf(items, k)[..item.level - d] == Under(st, item);
  }

  /** With `cur` the parent of `prev`, an entry at a level from `d` to one deeper goes under the node of `prev` at that depth. */
  lemma UnderPrev(st: BuildState, item: Item, d: nat)
    requires d <= st.level && |st.prev| == st.level + 1 - d && st.cur == st.prev[..st.level - d]
    requires d <= item.level <= st.level + 1
    ensures Under(st, item) == st.prev[..item.level - d]
  {
  }

  /** The first entry, at level zero or one, is added to the top node. */
  lemma BuildPathsFirst(items: seq<Item>, d: nat)
    requires RootedUpTo(items, d, 1)
    ensures Agree(items, d, 1, BuildItems(Start, items[..1]), AddUpTo(items, 1))
  {
    var item := items[0];
    assert items[..1] == [item];
    assert [item][1..] == [];
    BuildStepSpec(Start, item);
    assert AddUpTo(items, 0) == Ok(Empty);
    assert PathOf(items, 0) == [item.name];
    if BuildStep(Start, item).Ok? {
      var st := BuildStep(Start, item).value;
      assert st.prev == [item.name] && st.cur == [] && st.level == d;
    }
  }

  lemma {:induction false} BuildPathsAt(items: seq<Item>, d: nat, k: nat)
    requires ItemsClimb(0, items) && RootedUpTo(items, d, k)
    ensures Agree(items, d, k, BuildItems(Start, items[..k]), AddUpTo(items, k))
  {
    if k == 1 {
      BuildPathsFirst(items, d);
    } else {
      BuildPathsAt(items, d, k - 1);
      var b := BuildItems(Start, items[..k - 1]);
      assert items[..k] == items[..k - 1] + [items[k - 1]];
      BuildItemsSnoc(Start, items[..k - 1], items[k - 1]);
      if b.Ok? {
        PathStep(items, d, k - 1, b.value);
      }
    }
  }

  /**
   * Building from entries that climb by at most one level adds each
   * entry, in order, as a child of the last entry one level up, or of the
   * top node when there is none: whenever the first entry is unindented,
   * or no entry is.
   */
  lemma BuildPaths(items: seq<Item>)
    requires ItemsClimb(0, items)
    requires items == [] || items[0].level == 0 || forall k :: 0 <= k < |items| ==> items[k].level > 0
    ensures var b := BuildItems(Start, items);
      (if b.Err? then Err(b.error) else Ok(b.value.tree)) == AddUpTo(items, |items|)
  {
    if items != [] {
      var d := items[0].level;
      assert RootedUpTo(items, d, |items|);
      BuildPathsAt(items, d, |items|);
      assert items[..|items|] == items;
    }
    assert AddUpTo(items, 0) == Ok(Empty);
  }

  /**
   * An indented first entry followed by an unindented one: building fails
   * at that one with a dedent above the top, unless an entry before it
   * has already failed.
   */
  lemma BuildPathsAboveTop(items: seq<Item>, j: nat)
    requires ItemsClimb(0, items) && items != [] && items[0].level == 1
    requires 0 < j < |items| && items[j].level == 0
    requires forall i :: 0 <= i < j ==> items[i].level > 0
    ensures var b := BuildItems(Start, items);
      var a := AddUpTo(items, j);
      b.Err? && b.error == if a.Err? then a.error else NoParent
  {
    assert RootedUpTo(items, 1, j);
    BuildPathsAt(items, 1, j);
    var pre := BuildItems(Start, items[..j]);
    assert items == items[..j] + items[j..];
    BuildItemsAppend(Start, items[..j], items[j..]);
    if pre.Ok? {
      var st := pre.value;
      BuildStepSpec(st, items[j]);
      assert items[j..][0] == items[j];
    }
  }

  /**
   * `build(lines)` when the first entry is unindented or no entry is: the
   * entries go where the reference puts them, and the generator's own
   * failure comes after theirs.
   */
  lemma BuildManifestPaths(lines: seq<string>)
    requires var items := FileLex(lines).items;
      items == [] || items[0].level == 0 || forall k :: 0 <= k < |items| ==> items[k].level > 0
    ensures var s := FileLex(lines);
      var a := AddUpTo(s.items, |s.items|);
      BuildManifest(lines) ==
        if a.Err? then Err(a.error)
        else if s.failure.Some? then Err(s.failure.value)
        else Ok(a.value)
  {
    FileLexClimbs(lines);
    BuildPaths(FileLex(lines).items);
  }

  /**
   * `build(lines)` when the first entry is indented and a later one is
   * not: it fails, at the first unindented entry with a dedent above the
   * top unless an entry before it has already failed.
   */
  lemma BuildManifestAboveTop(lines: seq<string>, j: nat)
    requires var items := FileLex(lines).items;
      items != [] && items[0].level == 1 && 0 < j < |items| && items[j].level == 0 &&
      forall i :: 0 <= i < j ==> items[i].level > 0
    ensures var a := AddUpTo(FileLex(lines).items, j);
      BuildManifest(lines) == Err(if a.Err? then a.error else NoParent)
  {
    FileLexClimbs(lines);
    BuildPathsAboveTop(FileLex(lines).items, j);
  }

}
