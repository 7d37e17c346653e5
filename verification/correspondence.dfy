/**
  What the helpers do to whole paths: which absolute paths `isTest` accepts,
  where `getCorrespondingTestFilePath` and `getCorrespondingSourceFilePath`
  send a normalized absolute path, and when one undoes the other.
 */
module Correspondence {
  import opened Strings
  import opened Paths
  import opened Helpers

  // ---------------------------------------------------------------------
  // The test-file pattern is found inside one path component
  // ---------------------------------------------------------------------

  /** Some element of `parts` contains the test-file pattern. */
  ghost predicate SomePartHasMarker(parts: seq<string>, suffix: string)
  {
    exists k :: 0 <= k < |parts| && HasMarker(parts[k], suffix)
  }

  /** Whether the pattern matches at `i` depends only on the characters it
      would consume there. */
  lemma MarkerWindow(p: string, suffix: string, i: nat)
    requires i + |suffix| + 3 <= |p|
    ensures MarkerAt(p, suffix, i) <==> MarkerAt(p[i..i + |suffix| + 3], suffix, 0)
  {
    var w := p[i..i + |suffix| + 3];
    assert w[0] == p[i];
    var ws, ps := w[1..1 + |suffix|], p[i + 1..i + 1 + |suffix|];
    forall k | 0 <= k < |ws|
      ensures ws[k] == ps[k]
    {
      assert ws[k] == w[1 + k];
    }
    assert ws == ps;
    assert w[1 + |suffix|] == p[i + 1 + |suffix|];
    assert w[2 + |suffix|] == p[i + 2 + |suffix|];
  }

  /** No match covers a separator: every character the pattern consumes is
      a dot, a suffix character or a word character. */
  lemma NoMarkerOverSeparator(a: string, b: string, suffix: string, sep: char, i: nat)
    requires sep != '.' && sep !in suffix && !IsWordChar(sep)
    requires i <= |a| < i + |suffix| + 3
    ensures !MarkerAt(a + [sep] + b, suffix, i)
  {
    var p := a + [sep] + b;
    if i + |suffix| + 3 <= |p| {
      assert p[|a|] == sep;
      var k := |a| - i;
      if k == 0 {
        assert p[i] != '.';
      } else if k <= |suffix| {
        assert p[i + 1..i + 1 + |suffix|][k - 1] == sep;
        assert suffix[k - 1] != sep;
      } else if k == |suffix| + 1 {
        assert p[i + 1 + |suffix|] != '.';
      } else {
        assert !IsWordChar(p[i + 2 + |suffix|]);
      }
    }
  }

  /** A match in `a` is still a match, at the same place, in `a <sep> b`. */
  lemma MarkerInLeft(a: string, b: string, suffix: string, sep: char, i: nat)
    requires MarkerAt(a, suffix, i)
    ensures MarkerAt(a + [sep] + b, suffix, i)
  {
    MarkerInContext("", a, [sep] + b, suffix, i);
    assert "" + a + ([sep] + b) == a + [sep] + b;
  }

  /** A match in `b` is a match in `a <sep> b`, shifted past `a` and the separator. */
  lemma MarkerInRight(a: string, b: string, suffix: string, sep: char, j: nat)
    requires MarkerAt(b, suffix, j)
    ensures MarkerAt(a + [sep] + b, suffix, j + |a| + 1)
  {
    MarkerInContext(a + [sep], b, "", suffix, j);
    assert a + [sep] + b + "" == a + [sep] + b;
  }

  /** A match in `a <sep> b` lies wholly inside `a` or wholly inside `b`. */
  lemma MarkerInEither(a: string, b: string, suffix: string, sep: char, i: nat)
    requires sep != '.' && sep !in suffix && !IsWordChar(sep)
    requires MarkerAt(a + [sep] + b, suffix, i)
    ensures HasMarker(a, suffix) || HasMarker(b, suffix)
  {
    var p := a + [sep] + b;
    var n := |suffix| + 3;
    MarkerWindow(p, suffix, i);
    if i <= |a| < i + n {
      NoMarkerOverSeparator(a, b, suffix, sep, i);
      assert false;
    } else if i + n <= |a| {
      MarkerWindow(a, suffix, i);
      assert p[i..i + n] == a[i..i + n];
      assert MarkerAt(a, suffix, i);
    } else {
      var j: nat := i - |a| - 1;
      MarkerWindow(b, suffix, j);
      assert p[i..i + n] == b[j..j + n];
      assert MarkerAt(b, suffix, j);
    }
  }

  /** The pattern matches `a <sep> b` iff it matches `a` or `b`. */
  lemma MarkerAcrossSeparator(a: string, b: string, suffix: string, sep: char)
    requires sep != '.' && sep !in suffix && !IsWordChar(sep)
    ensures HasMarker(a + [sep] + b, suffix) <==> HasMarker(a, suffix) || HasMarker(b, suffix)
  {
    var p := a + [sep] + b;
    if HasMarker(a, suffix) {
      var i: nat :| MarkerAt(a, suffix, i);
      MarkerInLeft(a, b, suffix, sep, i);
    }
    if HasMarker(b, suffix) {
      var j: nat :| MarkerAt(b, suffix, j);
      MarkerInRight(a, b, suffix, sep, j);
    }
    if HasMarker(p, suffix) {
      var i: nat :| MarkerAt(p, suffix, i);
      MarkerInEither(a, b, suffix, sep, i);
    }
  }

  /** The pattern matches a joined path iff it matches one of its components:
      the test is unanchored, so directory names count as much as the file
      name, but no match spans two components. */
  lemma {:induction false} MarkerInSomeComponent(parts: seq<string>, suffix: string, sep: char)
    requires sep != '.' && sep !in suffix && !IsWordChar(sep)
    ensures HasMarker(Join(parts, sep), suffix) <==> SomePartHasMarker(parts, suffix)
    decreases |parts|
  {
    if |parts| == 0 {
      assert !MarkerAt("", suffix, 0);
    } else if |parts| == 1 {
      if HasMarker(parts[0], suffix) {
        assert SomePartHasMarker(parts, suffix);
      }
    } else {
      var tail := parts[1..];
      MarkerInSomeComponent(tail, suffix, sep);
      MarkerAcrossSeparator(parts[0], Join(tail, sep), suffix, sep);
      if SomePartHasMarker(parts, suffix) {
        var k :| 0 <= k < |parts| && HasMarker(parts[k], suffix);
        if k > 0 {
          assert tail[k - 1] == parts[k];
        }
      }
      if SomePartHasMarker(tail, suffix) {
        var k :| 0 <= k < |tail| && HasMarker(tail[k], suffix);
        assert parts[k + 1] == tail[k];
      }
      if HasMarker(parts[0], suffix) {
        assert SomePartHasMarker(parts, suffix);
      }
    }
  }

  /** `isTest` on an absolute path holds iff one of its directory names or
      its file name contains the pattern. */
  lemma IsTestAbsPath(dirs: seq<string>, name: string, cfg: Config)
    requires WellFormed(cfg)
    ensures IsTest(AbsPath(dirs, name, cfg.sep), cfg)
        <==> SomePartHasMarker(dirs, cfg.testFileSuffix) || HasMarker(name, cfg.testFileSuffix)
  {
    var s := cfg.testFileSuffix;
    var parts := [""] + dirs + [name];
    MarkerInSomeComponent(parts, s, cfg.sep);
    assert !HasMarker("", s) by {
      assert forall i: nat :: !MarkerAt("", s, i);
    }
    if SomePartHasMarker(parts, s) {
      var k :| 0 <= k < |parts| && HasMarker(parts[k], s);
      if 0 < k < |parts| - 1 {
        assert parts[k] == dirs[k - 1];
      }
    }
    if SomePartHasMarker(dirs, s) {
      var k :| 0 <= k < |dirs| && HasMarker(dirs[k], s);
      assert parts[k + 1] == dirs[k];
    }
    if HasMarker(name, s) {
      assert parts[|parts| - 1] == name;
    }
  }

  // ---------------------------------------------------------------------
  // Test path and source path of a normalized absolute path
  // ---------------------------------------------------------------------

  /** A prefix of normalized components is normalized. */
  lemma ComponentsPrefix(dirs: seq<string>, n: nat, sep: char)
    requires Components(dirs, sep) && n <= |dirs|
    ensures Components(dirs[..n], sep)
  {
    forall k | 0 <= k < n
      ensures Component(dirs[..n][k], sep)
    {
      assert dirs[..n][k] == dirs[k];
    }
  }

  /** Normalized components stay normalized when more are appended. */
  lemma ComponentsAppend(dirs: seq<string>, more: seq<string>, sep: char)
    requires Components(dirs, sep) && Components(more, sep)
    ensures Components(dirs + more, sep)
  {
    forall k | 0 <= k < |dirs + more|
      ensures Component((dirs + more)[k], sep)
    {
      if k < |dirs| {
        assert (dirs + more)[k] == dirs[k];
      } else {
        assert (dirs + more)[k] == more[k - |dirs|];
      }
    }
  }

  /** The directories the configured sub-folder adds: none when it is unset. */
  function SubFolderDirs(cfg: Config): seq<string>
  {
    if cfg.testSubFolder == "" then [] else [cfg.testSubFolder]
  }

  /** The configured sub-folder adds normalized components only. */
  lemma TestDirsComponents(dirs: seq<string>, cfg: Config)
    requires WellFormed(cfg) && Components(dirs, cfg.sep)
    ensures Components(dirs + SubFolderDirs(cfg), cfg.sep)
  {
    ComponentsAppend(dirs, SubFolderDirs(cfg), cfg.sep);
  }

  /** The test counterpart of `<dirs>/<name>` is `<dirs>/<sub-folder>/<test name>`:
      the sub-folder is appended to the directory (nothing when unset) and the
      suffix is added to the file name. */
  lemma TestFilePathShape(dirs: seq<string>, name: string, cfg: Config)
    requires WellFormed(cfg)
    requires |dirs| >= 1 && Components(dirs, cfg.sep) && Component(name, cfg.sep)
    ensures CorrespondingTestFilePath(AbsPath(dirs, name, cfg.sep), cfg)
         == AbsPath(dirs + SubFolderDirs(cfg), AddTestSuffix(name, cfg), cfg.sep)
  {
    var sep := cfg.sep;
    var p := AbsPath(dirs, name, sep);
    var testDirs := dirs + SubFolderDirs(cfg);
    var testName := AddTestSuffix(name, cfg);
    assert Dirname(p, sep) == AbsDir(dirs, sep) && Basename(p, sep) == name by {
      DecomposeAbsPath(dirs, name, sep);
    }
    assert JoinPath(AbsDir(dirs, sep), cfg.testSubFolder, sep) == AbsDir(testDirs, sep) by {
      AbsDirNoTrailingSeparator(dirs, sep);
      if cfg.testSubFolder == "" {
        assert testDirs == dirs;
      } else {
        assert testDirs == dirs + [cfg.testSubFolder];
        JoinOntoAbsDir(dirs, cfg.testSubFolder, sep);
        AbsPathParts(dirs, cfg.testSubFolder, sep);
      }
    }
    assert JoinPath(AbsDir(testDirs, sep), testName, sep) == AbsPath(testDirs, testName, sep) by {
      TestDirsComponents(dirs, cfg);
      GeneratedNameIsOneComponent(name, cfg);
      JoinOntoAbsDir(testDirs, testName, sep);
    }
  }

  /** The source counterpart of `<dirs>/<name>` drops the last directory
      when a sub-folder is configured — whatever that directory is called —
      and removes the second-to-last dot component of the name. */
  lemma SourceFilePathShape(dirs: seq<string>, name: string, cfg: Config)
    requires |dirs| >= 1 + |SubFolderDirs(cfg)| && Components(dirs, cfg.sep)
    requires cfg.sep !in name && Component(RemoveTestSuffix(name), cfg.sep)
    ensures CorrespondingSourceFilePath(AbsPath(dirs, name, cfg.sep), cfg)
         == AbsPath(dirs[..|dirs| - |SubFolderDirs(cfg)|], RemoveTestSuffix(name), cfg.sep)
  {
    var sep := cfg.sep;
    var p := AbsPath(dirs, name, sep);
    var sourceDirs := dirs[..|dirs| - |SubFolderDirs(cfg)|];
    var sourceName := RemoveTestSuffix(name);
    assert name != "";
    assert Dirname(p, sep) == AbsDir(dirs, sep) && Basename(p, sep) == name by {
      DecomposeAbsPath(dirs, name, sep);
    }
    assert ParentDir(AbsDir(dirs, sep), cfg) == AbsDir(sourceDirs, sep) by {
      if cfg.testSubFolder != "" {
        PopThenLast(dirs);
        assert sourceDirs == Pop(dirs);
        ComponentsPrefix(dirs, |sourceDirs|, sep);
        ParentDirPopsAnyComponent(sourceDirs, Last(dirs), cfg);
      } else {
        assert sourceDirs == dirs;
      }
    }
    assert JoinPath(AbsDir(sourceDirs, sep), sourceName, sep) == AbsPath(sourceDirs, sourceName, sep) by {
      ComponentsPrefix(dirs, |sourceDirs|, sep);
      JoinOntoAbsDir(sourceDirs, sourceName, sep);
    }
  }

  /** Going to the test file and back returns the original path, for a
      normalized absolute path below the root and a well-formed
      configuration. */
  lemma FullPathRoundTrip(dirs: seq<string>, name: string, cfg: Config)
    requires WellFormed(cfg)
    requires |dirs| >= 1 && Components(dirs, cfg.sep) && Component(name, cfg.sep)
    ensures CorrespondingSourceFilePath(CorrespondingTestFilePath(AbsPath(dirs, name, cfg.sep), cfg), cfg)
         == AbsPath(dirs, name, cfg.sep)
  {
    var sep := cfg.sep;
    var testName := AddTestSuffix(name, cfg);
    var testDirs := dirs + SubFolderDirs(cfg);
    var p := AbsPath(dirs, name, sep);
    var q := AbsPath(testDirs, testName, sep);
    assert CorrespondingTestFilePath(p, cfg) == q by {
      TestFilePathShape(dirs, name, cfg);
    }
    assert CorrespondingSourceFilePath(q, cfg) == p by {
      WellFormedSuffixHasNoDot(cfg);
      SuffixRoundTrip(name, cfg);
      GeneratedNameIsOneComponent(name, cfg);
      TestDirsComponents(dirs, cfg);
      SourceFilePathShape(testDirs, testName, cfg);
      assert testDirs[..|testDirs| - |SubFolderDirs(cfg)|] == dirs;
    }
  }

  /** At the top of the file system the round trip breaks when a sub-folder
      is configured: `/<name>` goes to `/<sub-folder>/<test name>`, whose
      parent-directory pop leaves the empty string, so the way back yields
      the bare, relative `<name>`. */
  lemma TopLevelRoundTripLosesRoot(name: string, cfg: Config)
    requires WellFormed(cfg) && cfg.testSubFolder != ""
    requires Component(name, cfg.sep)
    ensures CorrespondingTestFilePath(AbsPath([], name, cfg.sep), cfg)
         == AbsPath([cfg.testSubFolder], AddTestSuffix(name, cfg), cfg.sep)
    ensures CorrespondingSourceFilePath(CorrespondingTestFilePath(AbsPath([], name, cfg.sep), cfg), cfg) == name
    ensures name != AbsPath([], name, cfg.sep)
  {
    var sep := cfg.sep;
    var sub := cfg.testSubFolder;
    var testName := AddTestSuffix(name, cfg);
    SplitAbsPath([], name, sep);
    assert [""] + [] + [name] == ["", name];
    assert Join([""], sep) == "";
    assert Dirname(AbsPath([], name, sep), sep) == [sep];
    assert Basename(AbsPath([], name, sep), sep) == name;
    AbsPathParts([], name, sep);
    assert |AbsPath([], name, sep)| == |name| + 1;
    assert JoinPath([sep], sub, sep) == AbsDir([sub], sep) by {
      AbsPathParts([], sub, sep);
      assert AbsDir([], sep) == "";
    }
    GeneratedNameIsOneComponent(name, cfg);
    JoinOntoAbsDir([sub], testName, sep);
    WellFormedSuffixHasNoDot(cfg);
    SuffixRoundTrip(name, cfg);
    DecomposeAbsPath([sub], testName, sep);
    ParentDirPopsAnyComponent([], sub, cfg);
    assert [] + [sub] == [sub];
  }
}
