/**
 * The Python string builtins the manifest text format is written with:
 * `strip`, `lstrip`, `rstrip`, `lower`, `split`, `rsplit`, `replace`,
 * `join`, repetition, and the string ordering that `sorted` uses.
 * Whitespace and case are the ASCII ones.
 */
module PyStr {
  import opened Wrappers

  /** `c.isspace()` of a Python 3 string, for ASCII characters: space, \t \n \v \f \r and \x1c-\x1f. */
  predicate IsSpace(c: char) {
    c == ' ' || 9 <= c as int <= 13 || 28 <= c as int <= 31
  }

  /** Only ASCII characters, on which `IsSpace` and `LowerChar` are Python's own. */
  predicate Ascii(s: string) {
    forall i :: 0 <= i < |s| ==> s[i] as int < 128
  }

  /** No whitespace at either end. */
  predicate Trimmed(s: string) {
    s == [] || (!IsSpace(s[0]) && !IsSpace(s[|s| - 1]))
  }

  /** `s.lstrip(c)` for a single character `c`. */
  function LStripChar(s: string, c: char): (r: string)
    ensures |r| <= |s|
  {
    if s != [] && s[0] == c then LStripChar(s[1..], c) else s
  }

  /** `LStripChar` removes the leading run of `c` and nothing else. */
  lemma {:induction false} LStripCharSpec(s: string, c: char)
    ensures var r := LStripChar(s, c);
      r == s[|s| - |r|..] && (forall i :: 0 <= i < |s| - |r| ==> s[i] == c) && (r == [] || r[0] != c)
  {
    if s != [] && s[0] == c {
      LStripCharSpec(s[1..], c);
    }
  }

  /** `s.rstrip(c)` for a single character `c`. */
  function RStripChar(s: string, c: char): string {
    if s != [] && s[|s| - 1] == c then RStripChar(s[..|s| - 1], c) else s
  }

  /** `RStripChar` removes the trailing run of `c` and nothing else. */
  lemma {:induction false} RStripCharSpec(s: string, c: char)
    ensures var r := RStripChar(s, c);
      |r| <= |s| && r == s[..|r|] && (forall i :: |r| <= i < |s| ==> s[i] == c) &&
      (r == [] || r[|r| - 1] != c)
  {
    if s != [] && s[|s| - 1] == c {
      RStripCharSpec(s[..|s| - 1], c);
    }
  }

  /** `s.lstrip()`. */
  function LStrip(s: string): string {
    if s != [] && IsSpace(s[0]) then LStrip(s[1..]) else s
  }

  /** `LStrip` removes the leading whitespace and nothing else. */
  lemma {:induction false} LStripSpec(s: string)
    ensures var r := LStrip(s);
      |r| <= |s| && r == s[|s| - |r|..] && (forall i :: 0 <= i < |s| - |r| ==> IsSpace(s[i])) &&
      (r == [] || !IsSpace(r[0]))
  {
    if s != [] && IsSpace(s[0]) {
      var t := s[1..];
      LStripSpec(t);
      var r := LStrip(t);
      assert LStrip(s) == r;
      assert t[|t| - |r|..] == s[|s| - |r|..];
      forall i | 0 <= i < |s| - |r|
        ensures IsSpace(s[i])
      {
        if i > 0 {
          assert s[i] == t[i - 1];
        }
      }
    }
  }

  /** `s.rstrip()`. */
  function RStrip(s: string): string {
    if s != [] && IsSpace(s[|s| - 1]) then RStrip(s[..|s| - 1]) else s
  }

  /** `RStrip` removes the trailing whitespace and nothing else. */
  lemma {:induction false} RStripSpec(s: string)
    ensures var r := RStrip(s);
      |r| <= |s| && r == s[..|r|] && (forall i :: |r| <= i < |s| ==> IsSpace(s[i])) &&
      (r == [] || !IsSpace(r[|r| - 1]))
  {
    if s != [] && IsSpace(s[|s| - 1]) {
      RStripSpec(s[..|s| - 1]);
    }
  }

  /** `s.strip()`. */
  function Strip(s: string): (r: string)
    ensures Trimmed(r)
    ensures Trimmed(s) ==> r == s
  {
    RStripSpec(s);
    LStripSpec(RStrip(s));
    LStrip(RStrip(s))
  }

  /** Stripping text that is already trimmed after some leading blanks gives the text. */
  lemma StripAfterSpaces(pad: string, s: string)
    requires forall i :: 0 <= i < |pad| ==> pad[i] == ' '
    requires Trimmed(s)
    ensures Strip(pad + s) == s
  {
    if s == [] {
      assert RStrip(pad + s) == [] by {
        assert forall i :: 0 <= i < |pad + s| ==> IsSpace((pad + s)[i]);
        RStripAllSpace(pad + s);
      }
    } else {
      assert RStrip(pad + s) == pad + s;
      LStripAfterSpaces(pad, s);
    }
  }

  lemma RStripAllSpace(s: string)
    requires forall i :: 0 <= i < |s| ==> IsSpace(s[i])
    ensures RStrip(s) == []
  {
  }

  lemma {:induction false} LStripAfterSpaces(pad: string, s: string)
    requires forall i :: 0 <= i < |pad| ==> pad[i] == ' '
    requires s == [] || !IsSpace(s[0])
    ensures LStrip(pad + s) == s
  {
    if pad != [] {
      assert (pad + s)[1..] == pad[1..] + s;
      LStripAfterSpaces(pad[1..], s);
    }
  }

  /** `RStrip` drops one trailing blank after text that does not end in whitespace. */
  lemma RStripTrailingBlank(s: string)
    requires s == [] || !IsSpace(s[|s| - 1])
    ensures RStrip(s + " ") == s
  {
    assert (s + " ")[..|s|] == s;
  }

  /** `c.lower()` for ASCII. */
  function LowerChar(c: char): char {
    if 'A' <= c <= 'Z' then (c as int - 'A' as int + 'a' as int) as char else c
  }

  /** `s.lower()` for ASCII. */
  function Lower(s: string): (r: string)
    ensures |r| == |s|
  {
    seq(|s|, i requires 0 <= i < |s| => LowerChar(s[i]))
  }

  /** Lowering text without upper-case letters changes nothing. */
  lemma LowerNoUpper(s: string)
    requires forall i :: 0 <= i < |s| ==> !('A' <= s[i] <= 'Z')
    ensures Lower(s) == s
  {
  }

  /** `s.split(c, 1)[0]`: the text before the first `c`. */
  function BeforeFirst(s: string, c: char): string {
    if s == [] || s[0] == c then [] else [s[0]] + BeforeFirst(s[1..], c)
  }

  /** `BeforeFirst` is the longest prefix without `c`. */
  lemma {:induction false} BeforeFirstSpec(s: string, c: char)
    ensures var r := BeforeFirst(s, c);
      |r| <= |s| && r == s[..|r|] && c !in r && (|r| < |s| ==> s[|r|] == c)
  {
    if s != [] && s[0] != c {
      BeforeFirstSpec(s[1..], c);
    }
  }

  const TabSpaces: string := "        "

  /** `s.replace("\t", " " * 8)`. */
  function ExpandTabs(s: string): string {
    if s == [] then [] else (if s[0] == '\t' then TabSpaces else [s[0]]) + ExpandTabs(s[1..])
  }

  /** No tab survives, and text without tabs is left alone. */
  lemma {:induction false} ExpandTabsSpec(s: string)
    ensures '\t' !in ExpandTabs(s)
    ensures '\t' !in s ==> ExpandTabs(s) == s
  {
    if s != [] {
      ExpandTabsSpec(s[1..]);
    }
  }

  /** Expanding tabs works character by character, so it distributes over concatenation. */
  lemma {:induction false} ExpandTabsAppend(a: string, b: string)
    ensures ExpandTabs(a + b) == ExpandTabs(a) + ExpandTabs(b)
  {
    if a == [] {
      assert a + b == b;
    } else {
      var h := if a[0] == '\t' then TabSpaces else [a[0]];
      assert (a + b)[0] == a[0] && (a + b)[1..] == a[1..] + b;
      ExpandTabsAppend(a[1..], b);
      AppendAssoc(h, ExpandTabs(a[1..]), ExpandTabs(b));
    }
  }

  /** Appending is associative; stated for any element type so that proofs do not look inside the elements. */
  lemma AppendAssoc<T>(a: seq<T>, b: seq<T>, c: seq<T>)
    ensures a + b + c == a + (b + c)
  {
  }

  /** `s * n`. */
  function Repeat(s: string, n: nat): (r: string)
    ensures |r| == |s| * n
  {
    if n == 0 then [] else s + Repeat(s, n - 1)
  }

  /** Each tab of an indentation made of tabs expands to eight blanks. */
  lemma {:induction false} ExpandRepeatedTabs(n: nat)
    ensures ExpandTabs(Repeat("\t", n)) == Repeat(" ", 8 * n)
  {
    if n > 0 {
      ExpandRepeatedTabs(n - 1);
      ExpandTabsAppend("\t", Repeat("\t", n - 1));
      RepeatSplit(8, 8 * (n - 1));
      assert 8 + 8 * (n - 1) == 8 * n;
    }
  }

  lemma {:induction false} RepeatSplit(a: nat, b: nat)
    ensures Repeat(" ", a + b) == Repeat(" ", a) + Repeat(" ", b)
  {
    if a > 0 {
      RepeatSplit(a - 1, b);
    }
  }

  /** A one-character string repeated holds only that character. */
  lemma {:induction false} RepeatChar(c: char, n: nat)
    ensures forall i :: 0 <= i < |Repeat([c], n)| ==> Repeat([c], n)[i] == c
  {
    if n > 0 {
      RepeatChar(c, n - 1);
    }
  }

  /** `sep.join(parts)`. */
  function Join(sep: string, parts: seq<string>): string {
    if parts == [] then ""
    else if |parts| == 1 then parts[0]
    else parts[0] + sep + Join(sep, parts[1..])
  }

  /** A line as iterating over a file yields it: ended by its only newline. */
  predicate OneLine(s: string) {
    s != [] && s[|s| - 1] == '\n' && '\n' !in s[..|s| - 1]
  }

  /**
   * The lines that iterating over a file with content `text` yields: each
   * up to and including a newline, then the rest when it is not empty.
   */
  function ReadLines(text: string): seq<string>
    decreases |text|
  {
    if text == [] then []
    else
      SplitFirstSpec(text, '\n');
      match SplitFirst(text, '\n')
      case None => [text]
      case Some((line, rest)) => [line + "\n"] + ReadLines(rest)
  }

  /** Iterating over lines joined into one text gives them back, when each ends in its only newline. */
  lemma {:induction false} ReadJoinedLines(lines: seq<string>)
    requires forall k :: 0 <= k < |lines| ==> OneLine(lines[k])
    ensures ReadLines(Join("", lines)) == lines
    decreases |lines|
  {
    if lines != [] {
      var l := lines[0];
      var a := l[..|l| - 1];
      var rest := Join("", lines[1..]);
      assert Join("", lines) == a + ['\n'] + rest by {
        assert l == a + ['\n'];
        if |lines| == 1 {
          assert rest == "";
        } else {
          assert Join("", lines) == l + "" + rest;
        }
      }
      SplitFirstAt(a, '\n', rest);
      ReadJoinedLines(lines[1..]);
      assert a + "\n" == l;
      assert lines == [l] + lines[1..];
    }
  }

  /** `s.split(sep)` for a one-character separator: the pieces between separators. */
  function Split(s: string, sep: char): (r: seq<string>)
    ensures |r| >= 1
  {
    if s == [] then [""]
    else
      var rest := Split(s[1..], sep);
      if s[0] == sep then [""] + rest
      else [[s[0]] + rest[0]] + rest[1..]
  }

  /** No piece holds the separator, and joining the pieces gives back the text. */
  lemma {:induction false} SplitSpec(s: string, sep: char)
    ensures var r := Split(s, sep);
      (forall i :: 0 <= i < |r| ==> sep !in r[i]) && Join([sep], r) == s
  {
    if s != [] {
      var rest := Split(s[1..], sep);
      SplitSpec(s[1..], sep);
      if s[0] == sep {
        assert ([""] + rest)[1..] == rest;
      } else {
        var r := [[s[0]] + rest[0]] + rest[1..];
        assert r[1..] == rest[1..];
        assert |rest| > 1 ==> Join([sep], rest) == rest[0] + [sep] + Join([sep], rest[1..]);
      }
    }
  }

  /** Splitting what was joined gives back the pieces, when no piece holds the separator. */
  lemma {:induction false} SplitJoin(parts: seq<string>, sep: char)
    requires |parts| >= 1
    requires forall i :: 0 <= i < |parts| ==> sep !in parts[i]
    ensures Split(Join([sep], parts), sep) == parts
  {
    if |parts| == 1 {
      SplitNoSep(parts[0], sep);
    } else {
      var tail := Join([sep], parts[1..]);
      SplitJoin(parts[1..], sep);
      SplitAfter(parts[0], sep, tail);
      assert [parts[0]] + parts[1..] == parts;
    }
  }

  lemma {:induction false} SplitNoSep(s: string, sep: char)
    requires sep !in s
    ensures Split(s, sep) == [s]
  {
    if s != [] {
      SplitNoSep(s[1..], sep);
      assert [s[0]] + s[1..] == s;
    }
  }

  lemma {:induction false} SplitAfter(a: string, sep: char, b: string)
    requires sep !in a
    ensures Split(a + [sep] + b, sep) == [a] + Split(b, sep)
  {
    if a == [] {
      assert a + [sep] + b == [sep] + b;
      assert ([sep] + b)[1..] == b;
    } else {
      var s := a + [sep] + b;
      assert s[0] == a[0] && s[1..] == a[1..] + [sep] + b;
      SplitAfter(a[1..], sep, b);
      assert [a[0]] + a[1..] == a;
    }
  }

  /** `s.split(c, 1)` when it has two parts: the text before and after the first `c`. */
  function SplitFirst(s: string, c: char): Option<(string, string)> {
    if s == [] then None
    else if s[0] == c then Some(([], s[1..]))
    else
      match SplitFirst(s[1..], c)
      case None => None
      case Some(parts) => Some(([s[0]] + parts.0, parts.1))
  }

  /** `s.rsplit(c, 1)` when it has two parts: the text before and after the last `c`. */
  function RSplitLast(s: string, c: char): Option<(string, string)> {
    if s == [] then None
    else if s[|s| - 1] == c then Some((s[..|s| - 1], []))
    else
      match RSplitLast(s[..|s| - 1], c)
      case None => None
      case Some(parts) => Some((parts.0, parts.1 + [s[|s| - 1]]))
  }

  /** The text before the first `c`, the `c`, and the rest; None when there is no `c`. */
  lemma {:induction false} SplitFirstSpec(s: string, c: char)
    ensures var r := SplitFirst(s, c);
      (r.None? <==> c !in s) && (r.Some? ==> s == r.value.0 + [c] + r.value.1 && c !in r.value.0)
  {
    if s != [] && s[0] != c {
      SplitFirstSpec(s[1..], c);
      if SplitFirst(s[1..], c).Some? {
        var p := SplitFirst(s[1..], c).value;
        assert s == [s[0]] + s[1..];
        assert [s[0]] + (p.0 + [c] + p.1) == ([s[0]] + p.0) + [c] + p.1;
      } else {
        assert s == [s[0]] + s[1..];
      }
    }
  }

  /** The text up to the last `c`, the `c`, and the rest; None when there is no `c`. */
  lemma {:induction false} RSplitLastSpec(s: string, c: char)
    ensures var r := RSplitLast(s, c);
      (r.None? <==> c !in s) && (r.Some? ==> s == r.value.0 + [c] + r.value.1 && c !in r.value.1)
  {
    if s != [] && s[|s| - 1] != c {
      var init := s[..|s| - 1];
      RSplitLastSpec(init, c);
      assert s == init + [s[|s| - 1]];
      if RSplitLast(init, c).Some? {
        var p := RSplitLast(init, c).value;
        assert (p.0 + [c] + p.1) + [s[|s| - 1]] == p.0 + [c] + (p.1 + [s[|s| - 1]]);
      }
    } else if s != [] {
      assert s == s[..|s| - 1] + [c];
    }
  }

  /** A split at the first `c` is determined by the text before it. */
  lemma {:induction false} SplitFirstAt(a: string, c: char, b: string)
    requires c !in a
    ensures SplitFirst(a + [c] + b, c) == Some((a, b))
  {
    var s := a + [c] + b;
    if a == [] {
      assert s == [c] + b;
    } else {
      assert s[0] == a[0] && s[1..] == a[1..] + [c] + b;
      SplitFirstAt(a[1..], c, b);
      assert [a[0]] + a[1..] == a;
    }
  }

  /** A split at the last `c` is determined by the text after it. */
  lemma {:induction false} RSplitLastAt(a: string, c: char, b: string)
    requires c !in b
    ensures RSplitLast(a + [c] + b, c) == Some((a, b))
  {
    var s := a + [c] + b;
    if b == [] {
      assert s[..|s| - 1] == a;
    } else {
      var b' := b[..|b| - 1];
      assert s[|s| - 1] == b[|b| - 1] && s[..|s| - 1] == a + [c] + b';
      RSplitLastAt(a, c, b');
      assert b' + [b[|b| - 1]] == b;
    }
  }

  /** Python's ordering of strings: lexicographic by code point, a proper prefix first. */
  predicate StrLess(a: string, b: string) {
    if a == [] then b != []
    else if b == [] then false
    else if a[0] != b[0] then a[0] < b[0]
    else StrLess(a[1..], b[1..])
  }

  lemma {:induction false} StrLessIrreflexive(a: string)
    ensures !StrLess(a, a)
  {
    if a != [] {
      StrLessIrreflexive(a[1..]);
    }
  }

  lemma {:induction false} StrLessAsymmetricAt(a: string, b: string)
    ensures StrLess(a, b) ==> !StrLess(b, a)
  {
    if a != [] && b != [] && a[0] == b[0] {
      StrLessAsymmetricAt(a[1..], b[1..]);
    }
  }

  lemma {:induction false} StrLessTransitive(a: string, b: string, c: string)
    requires StrLess(a, b) && StrLess(b, c)
    ensures StrLess(a, c)
  {
    if a != [] && b != [] && c != [] && a[0] == b[0] == c[0] {
      StrLessTransitive(a[1..], b[1..], c[1..]);
    }
  }

  lemma {:induction false} StrLessTotal(a: string, b: string)
    requires a != b
    ensures StrLess(a, b) || StrLess(b, a)
  {
    if a != [] && b != [] && a[0] == b[0] {
      assert a == [a[0]] + a[1..] && b == [b[0]] + b[1..];
      StrLessTotal(a[1..], b[1..]);
    }
  }

  /** No element of `ss` other than `k` comes before `k`. */
  predicate IsLeast(k: string, ss: set<string>) {
    forall j :: j in ss && j != k ==> StrLess(k, j)
  }

  lemma {:induction false} LeastExists(ss: set<string>)
    requires ss != {}
    ensures exists k :: k in ss && IsLeast(k, ss)
    decreases |ss|
  {
    var x :| x in ss;
    if ss != {x} {
      var rest := ss - {x};
      LeastExists(rest);
      var m :| m in rest && IsLeast(m, rest);
      if StrLess(x, m) {
        forall j | j in ss && j != x ensures StrLess(x, j) {
          if j != m {
            StrLessTransitive(x, m, j);
          }
        }
        assert IsLeast(x, ss);
      } else {
        StrLessTotal(x, m);
        assert IsLeast(m, ss);
      }
    } else {
      assert IsLeast(x, ss);
    }
  }

  predicate StrictlySorted(r: seq<string>) {
    forall i, j :: 0 <= i < j < |r| ==> StrLess(r[i], r[j])
  }

  /**
   * `sorted(ss)`: the elements of `ss`, least first. `SortedSetSpec` shows
   * that it holds the elements of `ss`, `SortedSetSorted` the order.
   */
  function SortedSet(ss: set<string>): seq<string>
    decreases |ss|
  {
    if ss == {} then []
    else
      LeastExists(ss);
      LeastUnique(ss);
      var k :| k in ss && IsLeast(k, ss);
      [k] + SortedSet(ss - {k})
  }

  /** `sorted` gives as many elements as the set has, exactly those of the set. */
  lemma {:induction false} SortedSetSpec(ss: set<string>)
    ensures |SortedSet(ss)| == |ss|
    ensures forall x :: x in SortedSet(ss) <==> x in ss
    decreases |ss|
  {
    if ss != {} {
      var r := SortedSet(ss);
      var k := r[0];
      assert k in ss && r == [k] + SortedSet(ss - {k});
      SortedSetSpec(ss - {k});
    }
  }

  /** `sorted` gives each element once, in increasing order. */
  lemma {:induction false} SortedSetSorted(ss: set<string>)
    ensures StrictlySorted(SortedSet(ss))
    decreases |ss|
  {
    if ss != {} {
      var r := SortedSet(ss);
      var k := r[0];
      assert k in ss && IsLeast(k, ss) && r == [k] + SortedSet(ss - {k});
      SortedSetSorted(ss - {k});
      SortedSetSpec(ss - {k});
      LeastFirst(k, ss, SortedSet(ss - {k}));
    }
  }

  /** A set has at most one least element. */
  lemma LeastUnique(ss: set<string>)
    ensures forall a, b :: a in ss && IsLeast(a, ss) && b in ss && IsLeast(b, ss) ==> a == b
  {
    forall a, b | a in ss && IsLeast(a, ss) && b in ss && IsLeast(b, ss) ensures a == b {
      StrLessAsymmetricAt(a, b);
    }
  }

  /** The least element put in front of the others, sorted, keeps them sorted. */
  lemma LeastFirst(k: string, ss: set<string>, rest: seq<string>)
    requires k in ss && IsLeast(k, ss)
    requires forall x :: x in rest <==> x in ss - {k}
    requires StrictlySorted(rest)
    ensures StrictlySorted([k] + rest)
  {
    var r := [k] + rest;
    forall i, j | 0 <= i < j < |r| ensures StrLess(r[i], r[j]) {
      assert r[j] == rest[j - 1];
      if i == 0 {
        assert rest[j - 1] in ss - {k};
      } else {
        assert r[i] == rest[i - 1];
      }
    }
  }

  /** Strictly sorted sequences hold each element once. */
  lemma SortedDistinct(r: seq<string>)
    requires StrictlySorted(r)
    ensures forall i, j :: 0 <= i < j < |r| ==> r[i] != r[j]
  {
    forall i, j | 0 <= i < j < |r| ensures r[i] != r[j] {
      StrLessIrreflexive(r[i]);
    }
  }

  /** `sorted(m)`: the keys of a dictionary, least first. */
  function SortedKeys<V>(m: map<string, V>): (r: seq<string>)
    ensures |r| == |m|
    ensures forall i :: 0 <= i < |r| ==> r[i] in m
  {
    SortedSetSpec(m.Keys);
    SortedSet(m.Keys)
  }

  /** Every key of `m` is in `sorted(m)`. */
  lemma SortedKeysComplete<V>(m: map<string, V>)
    ensures forall x :: x in m <==> x in SortedKeys(m)
  {
    SortedSetSpec(m.Keys);
  }

  /** The keys come in increasing order, each once. */
  lemma SortedKeysSorted<V>(m: map<string, V>)
    ensures StrictlySorted(SortedKeys(m))
  {
    SortedSetSorted(m.Keys);
  }
}
