/**
  The three functions of Node's `path` module that the helpers call —
  `dirname`, `basename` and `join` — in their POSIX form, with the platform
  separator `sep` as a parameter. The Windows forms, which also accept `/`
  as a separator, are not modelled. Paths are strings; the functions are stated for normalized
  paths (no `.` or `..` components, no repeated or trailing separators),
  which is where Node's normalization step changes nothing.
 */
module Paths {
  import opened Strings

  /** One normalized path component. */
  predicate Component(x: string, sep: char)
  {
    x != "" && sep !in x && x != "." && x != ".."
  }

  predicate Components(xs: seq<string>, sep: char)
  {
    forall i :: 0 <= i < |xs| ==> Component(xs[i], sep)
  }

  /** The absolute directory `<sep>d1<sep>…<sep>dn`. */
  function AbsDir(dirs: seq<string>, sep: char): string
  {
    Join([""] + dirs, sep)
  }

  /** The absolute file path `<sep>d1<sep>…<sep>dn<sep>name`. */
  function AbsPath(dirs: seq<string>, name: string, sep: char): string
  {
    Join([""] + dirs + [name], sep)
  }

  /** `path.basename(p)`: the text after the last separator, which is the
      whole of `p` when it has no separator. */
  function Basename(p: string, sep: char): (r: string)
    ensures sep !in r
    ensures |r| <= |p| && p[|p| - |r|..] == r
    ensures |r| < |p| ==> p[|p| - |r| - 1] == sep
  {
    var parts := Split(p, sep);
    if |parts| == 1 then
      parts[0]
    else
      assert parts == parts[..|parts| - 1] + [Last(parts)];
      JoinSnoc(parts[..|parts| - 1], Last(parts), sep);
      Last(parts)
  }

  /** `path.dirname(p)`: the text before the last separator; the root `sep`
      when that text is empty, and `.` when `p` has no separator at all. */
  function Dirname(p: string, sep: char): (r: string)
    ensures sep !in p ==> r == "."
    ensures sep in p && p == [sep] + Basename(p, sep) ==> r == [sep]
    ensures sep in p && p != [sep] + Basename(p, sep) ==> p == r + [sep] + Basename(p, sep)
  {
    var parts := Split(p, sep);
    SplitSingleton(p, sep);
    if |parts| == 1 then
      "."
    else
      var d := Join(parts[..|parts| - 1], sep);
      assert parts == parts[..|parts| - 1] + [Last(parts)];
      JoinSnoc(parts[..|parts| - 1], Last(parts), sep);
      if d == "" then [sep] else d
  }

  /** `path.join(a, b)` for a normalized `a` and a `b` that is empty or
      relative: an empty argument is skipped (two empty ones give `.`), and
      exactly one separator goes between the two. */
  function JoinPath(a: string, b: string, sep: char): (r: string)
    ensures a == "" && b == "" ==> r == "."
    ensures b == "" && a != "" ==> r == a
    ensures a == "" && b != "" ==> r == b
    ensures a != "" && b != "" ==> |r| >= |a| + |b| && r[..|a|] == a && r[|r| - |b|..] == b
    ensures a != "" && b != "" && a[|a| - 1] == sep ==> r == a + b
    ensures a != "" && b != "" && a[|a| - 1] != sep ==> |r| == |a| + 1 + |b| && r[|a|] == sep
  {
    if b == "" then
      (if a == "" then "." else a)
    else if a == "" then
      b
    else if a[|a| - 1] == sep then
      a + b
    else
      a + [sep] + b
  }

  /** An absolute path is its directory, a separator and its name. */
  lemma AbsPathParts(dirs: seq<string>, name: string, sep: char)
    ensures AbsPath(dirs, name, sep) == AbsDir(dirs, sep) + [sep] + name
    ensures AbsDir(dirs + [name], sep) == AbsPath(dirs, name, sep)
  {
    assert [""] + (dirs + [name]) == [""] + dirs + [name];
    JoinSnoc([""] + dirs, name, sep);
  }

  /** A normalized directory below the root does not end in a separator. */
  lemma AbsDirNoTrailingSeparator(dirs: seq<string>, sep: char)
    requires |dirs| >= 1 && Components(dirs, sep)
    ensures AbsDir(dirs, sep) != [] && AbsDir(dirs, sep)[|AbsDir(dirs, sep)| - 1] != sep
  {
    var init := dirs[..|dirs| - 1];
    assert dirs == init + [Last(dirs)];
    AbsPathParts(init, Last(dirs), sep);
    assert Component(Last(dirs), sep);
  }

  /** Splitting a normalized absolute path at the separator gives back its
      components, with the empty root component first. */
  lemma SplitAbsPath(dirs: seq<string>, name: string, sep: char)
    requires Components(dirs, sep) && sep !in name
    ensures Split(AbsPath(dirs, name, sep), sep) == [""] + dirs + [name]
    ensures Split(AbsDir(dirs, sep), sep) == [""] + dirs
  {
    var parts := [""] + dirs + [name];
    forall i | 0 <= i < |parts|
      ensures sep !in parts[i]
    {
      if 0 < i < |parts| - 1 {
        assert parts[i] == dirs[i - 1];
      }
    }
    JoinSplit(parts, sep);
    var dparts := [""] + dirs;
    forall i | 0 <= i < |dparts|
      ensures sep !in dparts[i]
    {
      if 0 < i {
        assert dparts[i] == dirs[i - 1];
      }
    }
    JoinSplit(dparts, sep);
  }

  /** `dirname` and `basename` take a normalized absolute file path below
      the root apart into its directory and its name. */
  lemma DecomposeAbsPath(dirs: seq<string>, name: string, sep: char)
    requires |dirs| >= 1 && Components(dirs, sep) && name != "" && sep !in name
    ensures Basename(AbsPath(dirs, name, sep), sep) == name
    ensures Dirname(AbsPath(dirs, name, sep), sep) == AbsDir(dirs, sep)
  {
    var p := AbsPath(dirs, name, sep);
    SplitAbsPath(dirs, name, sep);
    var parts := [""] + dirs + [name];
    assert parts[..|parts| - 1] == [""] + dirs;
    AbsDirNoTrailingSeparator(dirs, sep);
  }

  /** `join` puts one normalized component below a normalized directory. */
  lemma JoinOntoAbsDir(dirs: seq<string>, x: string, sep: char)
    requires |dirs| >= 1 && Components(dirs, sep) && Component(x, sep)
    ensures JoinPath(AbsDir(dirs, sep), x, sep) == AbsPath(dirs, x, sep)
  {
    AbsDirNoTrailingSeparator(dirs, sep);
    AbsPathParts(dirs, x, sep);
  }
}
