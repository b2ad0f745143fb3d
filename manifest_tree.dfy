/**
 * The manifest tree that the text format describes, reduced to what the
 * parser and the writer use: a node holds its children by name and its
 * own attributes. A node is identified by its path from the top node, so
 * the parent of the node at `p + [n]` is the node at `p`, and the top
 * node has no parent.
 */
module ManifestTree {
  import opened Wrappers

  /** An attribute value: a non-negative integer (size, mode, uid, gid) or text. */
  datatype AttrValue = Uint(n: nat) | Text(s: string)

  type Attrs = map<string, AttrValue>

  /** The failures of the text front end and of `add`. */
  datatype Error =
      /** parse_lines: a dedent that lands on no open indent level (ValueError). */
    | BrokenIndent(line: nat, indent: nat, expected: nat)
      /** A known attribute whose value fails its validator (ValueError). */
    | InvalidAttributeValue(text: string)
      /** parse_token: no closing `}`, or an attribute without `:` (AssertionError, TypeError). */
    | MalformedAttributes(text: string)
      /** build: an entry more than one level deeper than the one before (AssertionError). */
    | LevelSkipped(indent: nat, level: nat)
      /** build: a dedent above the top node, whose parent is None (AssertionError). */
    | NoParent
      /** add: an empty path, an empty component or a missing parent. */
    | InvalidPath
      /** add: the entry already exists. */
    | DuplicateEntry

  datatype Manifest = Manifest(children: map<string, Manifest>, attrs: Attrs)

  /** A fresh top-level manifest. */
  const Empty: Manifest := Manifest(map[], map[])

  /** The node at `path` below `m`, if there is one. */
  function Lookup(m: Manifest, path: seq<string>): Option<Manifest>
    decreases |path|
  {
    if path == [] then Some(m)
    else if path[0] in m.children then Lookup(m.children[path[0]], path[1..])
    else None
  }

  /** The attributes of the node at `path`, if there is one. */
  function AttrsAt(m: Manifest, path: seq<string>): Option<Attrs> {
    match Lookup(m, path)
    case None => None
    case Some(node) => Some(node.attrs)
  }

  /** `getparent()` on the node at `path`: the top node has none. */
  function GetParent(path: seq<string>): (r: Option<seq<string>>)
    ensures r.None? <==> path == []
    ensures r.Some? ==> r.value + [path[|path| - 1]] == path
  {
    if path == [] then None else Some(path[..|path| - 1])
  }

  /** A path `add` accepts the shape of: at least one component, none of them empty. */
  predicate ValidPath(path: seq<string>) {
    path != [] && forall i :: 0 <= i < |path| ==> path[i] != ""
  }

  /**
   * `m.add(path, attrs)`: walks `path` from `m`; every component but the
   * last must name an existing child, the last must not; the new leaf gets
   * exactly `attrs`.
   */
  function Add(m: Manifest, path: seq<string>, attrs: Attrs): Result<Manifest, Error>
    decreases |path|
  {
    if path == [] || path[0] == "" then Err(InvalidPath)
    else if |path| == 1 then
      if path[0] in m.children then Err(DuplicateEntry)
      else Ok(m.(children := m.children[path[0] := Manifest(map[], attrs)]))
    else if path[0] !in m.children then Err(InvalidPath)
    else
      match Add(m.children[path[0]], path[1..], attrs)
      case Err(e) => Err(e)
      case Ok(child) => Ok(m.(children := m.children[path[0] := child]))
  }

  /** Every prefix of an existing path exists. */
  lemma {:induction false} LookupPrefix(m: Manifest, path: seq<string>, k: nat)
    requires k <= |path| && Lookup(m, path).Some?
    ensures Lookup(m, path[..k]).Some?
    decreases |path|
  {
    if k > 0 {
      assert path[..k][0] == path[0] && path[..k][1..] == path[1..][..k - 1];
      LookupPrefix(m.children[path[0]], path[1..], k - 1);
    }
  }

  /** When `add` succeeds and which error it raises otherwise. */
  lemma {:induction false} AddOutcome(m: Manifest, path: seq<string>, attrs: Attrs)
    ensures Add(m, path, attrs).Ok? <==>
      ValidPath(path) && Lookup(m, path[..|path| - 1]).Some? && Lookup(m, path).None?
    ensures Add(m, path, attrs) == Err(DuplicateEntry) <==>
      ValidPath(path) && Lookup(m, path[..|path| - 1]).Some? && Lookup(m, path).Some?
    ensures Add(m, path, attrs).Err? ==>
      Add(m, path, attrs).error == InvalidPath || Add(m, path, attrs).error == DuplicateEntry
    decreases |path|
  {
    if path == [] || path[0] == "" {
      assert !ValidPath(path) by {
        if path != [] { assert path[0] == ""; }
      }
    } else if |path| == 1 {
      assert path[..0] == [];
      assert ValidPath(path) by {
        forall i | 0 <= i < |path| ensures path[i] != "" {
          assert i == 0;
        }
      }
    } else if path[0] !in m.children {
      assert path[..|path| - 1][0] == path[0];
    } else {
      var tail := path[1..];
      AddOutcome(m.children[path[0]], tail, attrs);
      assert path[..|path| - 1][1..] == tail[..|tail| - 1];
      assert path[..|path| - 1][0] == path[0];
      assert ValidPath(path) <==> ValidPath(tail) by {
        assert forall i :: 0 < i < |path| ==> path[i] == tail[i - 1];
        if ValidPath(tail) {
          forall i | 0 <= i < |path| ensures path[i] != "" {
            if i > 0 { assert path[i] == tail[i - 1]; }
          }
        }
      }
    }
  }

  /**
   * A successful `add` creates exactly one node, a leaf at `path` with
   * exactly the given attributes; the attributes at every other path, and
   * which other paths exist, are as before.
   */
  lemma {:induction false} AddEffect(m: Manifest, path: seq<string>, attrs: Attrs)
    requires Add(m, path, attrs).Ok?
    ensures Lookup(Add(m, path, attrs).value, path) == Some(Manifest(map[], attrs))
    ensures forall q :: q != path ==> AttrsAt(Add(m, path, attrs).value, q) == AttrsAt(m, q)
    decreases |path|
  {
    var r := Add(m, path, attrs).value;
    var name := path[0];
    if |path| == 1 {
      var leaf := Manifest(map[], attrs);
      assert r.children == m.children[name := leaf];
      assert path[1..] == [];
      forall q | q != path ensures AttrsAt(r, q) == AttrsAt(m, q) {
        if q != [] && q[0] == name {
          assert q[1..] != [];
          assert Lookup(leaf, q[1..]) == None;
          assert Lookup(r, q) == None && Lookup(m, q) == None;
        } else if q != [] {
          assert Lookup(r, q) == Lookup(m, q);
        }
      }
    } else {
      var child := m.children[name];
      AddEffect(child, path[1..], attrs);
      var child' := Add(child, path[1..], attrs).value;
      assert r.children == m.children[name := child'];
      assert Lookup(r, path) == Lookup(child', path[1..]);
      forall q | q != path ensures AttrsAt(r, q) == AttrsAt(m, q) {
        if q != [] && q[0] == name {
          assert q[1..] != path[1..];
          assert Lookup(r, q) == Lookup(child', q[1..]);
          assert Lookup(m, q) == Lookup(child, q[1..]);
          assert AttrsAt(child', q[1..]) == AttrsAt(child, q[1..]);
        } else if q != [] {
          assert Lookup(r, q) == Lookup(m, q);
        }
      }
    }
  }

  /** Two manifests with the same attributes at every path are the same manifest. */
  lemma {:induction false} SameAttrsEverywhere(a: Manifest, b: Manifest)
    requires forall q :: AttrsAt(a, q) == AttrsAt(b, q)
    ensures a == b
    decreases a
  {
    assert a.attrs == b.attrs by {
      assert AttrsAt(a, []) == AttrsAt(b, []);
    }
    forall n | n in a.children || n in b.children
      ensures n in a.children && n in b.children && a.children[n] == b.children[n]
    {
      assert [n][0] == n && [n][1..] == [];
      assert Lookup(a, [n]).Some? <==> n in a.children;
      assert Lookup(b, [n]).Some? <==> n in b.children;
      assert AttrsAt(a, [n]) == AttrsAt(b, [n]);
      var ca, cb := a.children[n], b.children[n];
      forall q ensures AttrsAt(ca, q) == AttrsAt(cb, q) {
        assert ([n] + q)[0] == n && ([n] + q)[1..] == q;
        assert AttrsAt(a, [n] + q) == AttrsAt(b, [n] + q);
      }
      SameAttrsEverywhere(ca, cb);
    }
    assert a.children == b.children;
  }
}
