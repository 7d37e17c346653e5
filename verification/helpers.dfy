/**
  The path-convention helpers of the `jumpSource` editor extension: deciding
  whether a path names a test file, and turning a source file name into its
  test file name and back. The two configuration reads of the extension
  (`testFileSuffix`, `testSubFolder`) and Node's `path.sep` arrive as one
  explicit `Config` value.
 */
module Helpers {
  import opened Strings
  import opened Paths

  /** The settings the helpers consult, plus the platform path separator. */
  datatype Config = Config(testFileSuffix: string, testSubFolder: string, sep: char)

  /** `\w` of a JavaScript regular expression without the `u` flag. */
  predicate IsWordChar(ch: char)
  {
    ('a' <= ch <= 'z') || ('A' <= ch <= 'Z') || ('0' <= ch <= '9') || ch == '_'
  }

  /** Characters that mean something other than themselves in a `RegExp`. */
  predicate IsRegexSpecial(ch: char)
  {
    ch in "\\^$.|?*+()[]{}"
  }

  /** The configurations the model describes faithfully: a separator that is
      neither a dot nor a word character, a suffix that is a literal token
      (no regular-expression specials, hence no dot, and no separator), and a
      sub-folder that is unset or one normalized component. */
  predicate WellFormed(cfg: Config)
  {
    && cfg.sep != '.'
    && !IsWordChar(cfg.sep)
    && cfg.sep !in cfg.testFileSuffix
    && (forall i :: 0 <= i < |cfg.testFileSuffix| ==> !IsRegexSpecial(cfg.testFileSuffix[i]))
    && (cfg.testSubFolder == "" || Component(cfg.testSubFolder, cfg.sep))
  }

  lemma WellFormedSuffixHasNoDot(cfg: Config)
    requires WellFormed(cfg)
    ensures '.' !in cfg.testFileSuffix
  {
  }

  // ---------------------------------------------------------------------
  // isTest: the pattern `\.<suffix>\.\w+`, tested anywhere in the path
  // ---------------------------------------------------------------------

  /** The pattern `\.<suffix>\.\w+` matches `p` starting at index `i`: a dot,
      the suffix, a dot and at least one word character. */
  predicate MarkerAt(p: string, suffix: string, i: nat)
  {
    && i + |suffix| + 3 <= |p|
    && p[i] == '.'
    && p[i + 1..i + 1 + |suffix|] == suffix
    && p[i + 1 + |suffix|] == '.'
    && IsWordChar(p[i + 2 + |suffix|])
  }

  /** The unanchored pattern matches somewhere in `p`. */
  ghost predicate HasMarker(p: string, suffix: string)
  {
    exists i: nat :: MarkerAt(p, suffix, i)
  }

  /** Scans for a match starting at index `i` or later. */
  function MatchFrom(p: string, suffix: string, i: nat): (r: bool)
    requires i <= |p|
    ensures r <==> exists j: nat :: i <= j && MarkerAt(p, suffix, j)
    decreases |p| - i
  {
    if i + |suffix| + 3 > |p| then false
    else MarkerAt(p, suffix, i) || MatchFrom(p, suffix, i + 1)
  }

  /** `isTest(path)`: the test-file pattern matches somewhere in the path,
      whether in the file name or in a directory name. */
  function IsTest(path: string, cfg: Config): (r: bool)
    ensures r <==> HasMarker(path, cfg.testFileSuffix)
  {
    MatchFrom(path, cfg.testFileSuffix, 0)
  }

  // ---------------------------------------------------------------------
  // Dot-separated components of a file name
  // ---------------------------------------------------------------------

  /** The last dot-separated component: the extension, or the whole name
      when it has no dot. */
  function Extension(filename: string): string
  {
    Last(Split(filename, '.'))
  }

  /** Everything before the last dot; empty when there is no dot. */
  function Stem(filename: string): string
  {
    Join(Pop(Split(filename, '.')), '.')
  }

  /** A name with a dot is its stem, a dot and its extension; a name
      without one is all extension. */
  lemma StemAndExtension(filename: string)
    ensures '.' !in Extension(filename)
    ensures '.' in filename ==> filename == Stem(filename) + "." + Extension(filename)
    ensures '.' in filename ==> Split(Stem(filename), '.') == Pop(Split(filename, '.'))
    ensures '.' !in filename ==> Stem(filename) == "" && Extension(filename) == filename
  {
    var parts := Split(filename, '.');
    SplitSingleton(filename, '.');
    if |parts| > 1 {
      assert parts == Pop(parts) + [Last(parts)];
      JoinSnoc(Pop(parts), Last(parts), '.');
      assert forall i :: 0 <= i < |Pop(parts)| ==> Pop(parts)[i] == parts[i];
      JoinSplit(Pop(parts), '.');
    }
  }

  // ---------------------------------------------------------------------
  // addTestSuffix / removeTestSuffix
  // ---------------------------------------------------------------------

  /** `addTestSuffix(filename)`: split on dots, pop the last component, push
      the suffix and then that component, and join. The suffix lands between
      stem and extension; a name without a dot gets it in front. */
  function AddTestSuffix(filename: string, cfg: Config): (r: string)
    ensures '.' in filename ==> r == Stem(filename) + "." + cfg.testFileSuffix + "." + Extension(filename)
    ensures '.' !in filename ==> r == cfg.testFileSuffix + "." + filename
  {
    var parts := Split(filename, '.');
    var extension := Last(parts);
    StemAndExtension(filename);
    SplitSingleton(filename, '.');
    JoinTwoMore(Pop(parts), cfg.testFileSuffix, extension, '.');
    Join(Pop(parts) + [cfg.testFileSuffix, extension], '.')
  }

  /** `removeTestSuffix(filename)`: split on dots, pop the extension, pop
      whatever component precedes it, push the extension back, and join. */
  function RemoveTestSuffix(filename: string): (r: string)
    ensures '.' !in filename ==> r == filename
    ensures '.' in filename && '.' !in Stem(filename) ==> r == Extension(filename)
    ensures '.' in filename && '.' in Stem(filename) ==> r == Stem(Stem(filename)) + "." + Extension(filename)
  {
    var parts := Split(filename, '.');
    StemAndExtension(filename);
    StemAndExtension(Stem(filename));
    SplitSingleton(filename, '.');
    SplitSingleton(Stem(filename), '.');
    JoinSnocAny(Pop(Pop(parts)), Last(parts), '.');
    Join(Pop(Pop(parts)) + [Last(parts)], '.')
  }

  /** The suffix is inserted as exactly one new dot-separated component,
      second to last; every other component stays where it was. */
  lemma AddTestSuffixAddsOneComponent(filename: string, cfg: Config)
    requires '.' !in cfg.testFileSuffix
    ensures Split(AddTestSuffix(filename, cfg), '.')
         == Pop(Split(filename, '.')) + [cfg.testFileSuffix, Last(Split(filename, '.'))]
  {
    var parts := Split(filename, '.');
    var grown := Pop(parts) + [cfg.testFileSuffix, Last(parts)];
    forall i | 0 <= i < |grown|
      ensures '.' !in grown[i]
    {
      if i < |Pop(parts)| {
        assert grown[i] == parts[i];
      }
    }
    JoinSplit(grown, '.');
  }

  /** Whatever the second-to-last component is, it is dropped: nothing
      compares it with the configured suffix. */
  lemma {:induction false} RemoveTestSuffixDropsAnyComponent(kept: seq<string>, dropped: string, extension: string)
    requires forall i :: 0 <= i < |kept| ==> '.' !in kept[i]
    requires '.' !in dropped && '.' !in extension
    ensures RemoveTestSuffix(Join(kept + [dropped, extension], '.')) == Join(kept + [extension], '.')
  {
    var parts := kept + [dropped, extension];
    var f := Join(parts, '.');
    assert Split(f, '.') == parts by {
      forall i | 0 <= i < |parts|
        ensures '.' !in parts[i]
      {
        if i < |kept| {
          assert parts[i] == kept[i];
        }
      }
      JoinSplit(parts, '.');
    }
    assert Pop(Pop(parts)) + [Last(parts)] == kept + [extension] by {
      assert Pop(parts) == kept + [dropped];
    }
  }

  /** Removing the suffix undoes adding it, for every file name (with or
      without a dot) and every suffix without a dot. */
  lemma SuffixRoundTrip(filename: string, cfg: Config)
    requires '.' !in cfg.testFileSuffix
    ensures RemoveTestSuffix(AddTestSuffix(filename, cfg)) == filename
  {
    var parts := Split(filename, '.');
    var grown := Pop(parts) + [cfg.testFileSuffix, Last(parts)];
    AddTestSuffixAddsOneComponent(filename, cfg);
    PushTwoPopTwo(Pop(parts), cfg.testFileSuffix, Last(parts));
    PopThenLast(parts);
  }

  /** Conversely, adding the suffix back restores a name whose
      second-to-last component is the suffix. */
  lemma SuffixRoundTripBack(filename: string, cfg: Config)
    requires |Split(filename, '.')| >= 2
    requires Split(filename, '.')[|Split(filename, '.')| - 2] == cfg.testFileSuffix
    ensures AddTestSuffix(RemoveTestSuffix(filename), cfg) == filename
  {
    var parts := Split(filename, '.');
    var shrunk := Pop(Pop(parts)) + [Last(parts)];
    var removed := RemoveTestSuffix(filename);
    assert Split(removed, '.') == shrunk by {
      forall i | 0 <= i < |shrunk|
        ensures '.' !in shrunk[i]
      {
        if i < |shrunk| - 1 {
          assert shrunk[i] == parts[i];
        }
      }
      JoinSplit(shrunk, '.');
    }
    assert Pop(shrunk) + [cfg.testFileSuffix, Last(shrunk)] == parts by {
      assert Pop(shrunk) == Pop(Pop(parts));
      PopTwoThenLastTwo(parts);
    }
    assert '.' !in cfg.testFileSuffix;
    AddTestSuffixAddsOneComponent(removed, cfg);
  }

  /** A match of the pattern inside `w` is a match inside any string that
      contains `w`, shifted by what comes before it. */
  lemma MarkerInContext(a: string, w: string, b: string, suffix: string, i: nat)
    requires MarkerAt(w, suffix, i)
    ensures MarkerAt(a + w + b, suffix, |a| + i)
  {
    var p := a + w + b;
    var j := |a| + i;
    var ps, ws := p[j + 1..j + 1 + |suffix|], w[i + 1..i + 1 + |suffix|];
    forall k | 0 <= k < |ps|
      ensures ps[k] == ws[k]
    {
      assert ps[k] == p[j + 1 + k];
    }
    assert ps == ws;
    assert p[j] == w[i];
    assert p[j + 1 + |suffix|] == w[i + 1 + |suffix|];
    assert p[j + 2 + |suffix|] == w[i + 2 + |suffix|];
  }

  /** `<a>.<suffix>.<e>` contains the pattern right after `a` when `e`
      starts with a word character. */
  lemma MarkerAfterStem(a: string, suffix: string, e: string)
    requires e != "" && IsWordChar(e[0])
    ensures MarkerAt(a + "." + suffix + "." + e, suffix, |a|)
  {
    var p := a + "." + suffix + "." + e;
    var i := |a|;
    var ps := p[i + 1..i + 1 + |suffix|];
    forall k | 0 <= k < |suffix|
      ensures ps[k] == suffix[k]
    {
      assert ps[k] == p[i + 1 + k];
    }
    assert ps == suffix;
    assert p[i + 2 + |suffix|] == e[0];
  }

  /** A generated name is recognised as a test when the source name has a
      dot and its extension starts with a word character. */
  lemma GeneratedNameIsTest(filename: string, cfg: Config)
    requires WellFormed(cfg)
    requires '.' in filename
    requires Extension(filename) != "" && IsWordChar(Extension(filename)[0])
    ensures IsTest(AddTestSuffix(filename, cfg), cfg)
  {
    MarkerAfterStem(Stem(filename), cfg.testFileSuffix, Extension(filename));
  }

  /** A name without a dot is never recognised once the suffix is added:
      the result has a single dot, and the pattern needs two. */
  lemma DotlessGeneratedNameIsNotTest(filename: string, cfg: Config)
    requires WellFormed(cfg)
    requires '.' !in filename
    ensures !IsTest(AddTestSuffix(filename, cfg), cfg)
  {
    WellFormedSuffixHasNoDot(cfg);
    var r := AddTestSuffix(filename, cfg);
    var s := cfg.testFileSuffix;
    assert r == s + "." + filename;
    forall k | 0 <= k < |r| && k != |s|
      ensures r[k] != '.'
    {
      if k < |s| {
        assert r[k] == s[k];
      } else {
        assert r[k] == filename[k - |s| - 1];
      }
    }
    forall i: nat
      ensures !MarkerAt(r, s, i)
    {
      if i + |s| + 3 <= |r| {
        if i != |s| {
          assert r[i] != '.';
        } else {
          assert r[i + 1 + |s|] != '.';
        }
      }
    }
  }

  /** Adding the suffix lengthens a name by the suffix and one dot. */
  lemma AddTestSuffixLength(filename: string, cfg: Config)
    ensures |AddTestSuffix(filename, cfg)| == |filename| + |cfg.testFileSuffix| + 1
  {
    StemAndExtension(filename);
  }

  /** Stem and extension are made of characters of the name. */
  lemma StemAndExtensionAvoid(filename: string, ch: char)
    requires ch !in filename
    ensures ch !in Stem(filename) && ch !in Extension(filename)
  {
    StemAndExtension(filename);
    if '.' in filename {
      var st, ex := Stem(filename), Extension(filename);
      forall k | 0 <= k < |st|
        ensures st[k] != ch
      {
        assert st[k] == filename[k];
      }
      forall k | 0 <= k < |ex|
        ensures ex[k] != ch
      {
        assert ex[k] == filename[|st| + 1 + k];
      }
    }
  }

  /** A generated name is never empty and, when the source name is one
      normalized path component and the suffix has no separator, it is one
      too. */
  lemma GeneratedNameIsOneComponent(filename: string, cfg: Config)
    requires cfg.sep != '.' && cfg.sep !in filename && cfg.sep !in cfg.testFileSuffix
    ensures AddTestSuffix(filename, cfg) != ""
    ensures cfg.sep !in AddTestSuffix(filename, cfg)
    ensures Component(filename, cfg.sep) ==> Component(AddTestSuffix(filename, cfg), cfg.sep)
  {
    var r := AddTestSuffix(filename, cfg);
    AddTestSuffixLength(filename, cfg);
    assert cfg.sep !in r by {
      StemAndExtensionAvoid(filename, cfg.sep);
    }
    if Component(filename, cfg.sep) && |r| == 2 {
      assert r != ".." by {
        assert filename == [filename[0]];
        assert filename[0] != '.';
        assert r == "." + filename;
        assert r[1] == filename[0];
      }
    }
  }

  // ---------------------------------------------------------------------
  // getParentDir
  // ---------------------------------------------------------------------

  /** `getParentDir(dirPath)`: unchanged when no sub-folder is configured;
      otherwise the last separator-delimited component is removed, whatever
      it is called. */
  function ParentDir(dirPath: string, cfg: Config): (r: string)
    ensures cfg.testSubFolder == "" ==> r == dirPath
    ensures cfg.testSubFolder != "" && cfg.sep in dirPath ==> dirPath == r + [cfg.sep] + Basename(dirPath, cfg.sep)
    ensures cfg.testSubFolder != "" && cfg.sep !in dirPath ==> r == ""
  {
    if cfg.testSubFolder == "" then
      dirPath
    else
      var parts := Split(dirPath, cfg.sep);
      SplitSingleton(dirPath, cfg.sep);
      assert parts == Pop(parts) + [Last(parts)];
      JoinSnocAny(Pop(parts), Last(parts), cfg.sep);
      Join(Pop(parts), cfg.sep)
  }

  /** With a sub-folder configured, the parent of `<dir><sep><x>` is `<dir>`
      for every component `x`, not only for the sub-folder's own name. */
  lemma ParentDirPopsAnyComponent(dirs: seq<string>, x: string, cfg: Config)
    requires cfg.testSubFolder != ""
    requires Components(dirs, cfg.sep) && cfg.sep !in x
    ensures ParentDir(AbsDir(dirs + [x], cfg.sep), cfg) == AbsDir(dirs, cfg.sep)
  {
    AbsPathParts(dirs, x, cfg.sep);
    SplitAbsPath(dirs, x, cfg.sep);
    assert Pop([""] + dirs + [x]) == [""] + dirs;
  }

  // ---------------------------------------------------------------------
  // getCorrespondingSourceFilePath / getCorrespondingTestFilePath
  // ---------------------------------------------------------------------

  /** `getCorrespondingSourceFilePath(testFilePath)`: the parent of the
      test file's directory, joined with the test file's name minus its
      second-to-last dot component. The result ends in that name. */
  function CorrespondingSourceFilePath(testFilePath: string, cfg: Config): (r: string)
    ensures EndsWith(r, RemoveTestSuffix(Basename(testFilePath, cfg.sep)))
  {
    var sourceDir := ParentDir(Dirname(testFilePath, cfg.sep), cfg);
    var sourceFilename := RemoveTestSuffix(Basename(testFilePath, cfg.sep));
    JoinPath(sourceDir, sourceFilename, cfg.sep)
  }

  /** `getCorrespondingTestFilePath(sourceFilePath)`: the source file's
      directory with the sub-folder appended, joined with the source name
      plus the suffix. The result ends in that name. */
  function CorrespondingTestFilePath(sourceFilePath: string, cfg: Config): (r: string)
    ensures EndsWith(r, AddTestSuffix(Basename(sourceFilePath, cfg.sep), cfg))
  {
    var testDir := JoinPath(Dirname(sourceFilePath, cfg.sep), cfg.testSubFolder, cfg.sep);
    var testFilename := AddTestSuffix(Basename(sourceFilePath, cfg.sep), cfg);
    AddTestSuffixLength(Basename(sourceFilePath, cfg.sep), cfg);
    JoinPath(testDir, testFilename, cfg.sep)
  }
}
