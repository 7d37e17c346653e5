/**
  The `extension.jumpTest` command: from the active file, open the source
  counterpart when the file is recognised as a test, and the test counterpart
  otherwise. Opening the file is left to the editor; the model computes the
  path handed to it.
 */
module Jump {
  import opened Strings
  import opened Paths
  import opened Helpers
  import opened Correspondence

  /** The path `extension.jumpTest` asks the editor to open: it ends in the
      source name of a recognised test file, and in the test name of any
      other file. */
  function JumpTarget(activeFilePath: string, cfg: Config): (r: string)
    ensures IsTest(activeFilePath, cfg) ==> EndsWith(r, RemoveTestSuffix(Basename(activeFilePath, cfg.sep)))
    ensures !IsTest(activeFilePath, cfg) ==> EndsWith(r, AddTestSuffix(Basename(activeFilePath, cfg.sep), cfg))
  {
    if IsTest(activeFilePath, cfg) then
      CorrespondingSourceFilePath(activeFilePath, cfg)
    else
      CorrespondingTestFilePath(activeFilePath, cfg)
  }

  /** A name without a dot never contains the test-file pattern. */
  lemma DotlessNameHasNoMarker(name: string, suffix: string)
    requires '.' !in name
    ensures !HasMarker(name, suffix)
  {
    forall i: nat
      ensures !MarkerAt(name, suffix, i)
    {
      if i < |name| {
        assert name[i] != '.';
      }
    }
  }

  /** From an ordinary source file (a dotted name whose extension starts
      with a word character, nowhere a test-file pattern), the command goes
      to `<dir>/<sub-folder>/<stem>.<suffix>.<ext>`, that path is recognised
      as a test, and the command run there comes back to the source file. */
  lemma JumpThereAndBack(dirs: seq<string>, name: string, cfg: Config)
    requires WellFormed(cfg)
    requires |dirs| >= 1 && Components(dirs, cfg.sep) && Component(name, cfg.sep)
    requires '.' in name && Extension(name) != "" && IsWordChar(Extension(name)[0])
    requires !IsTest(AbsPath(dirs, name, cfg.sep), cfg)
    ensures JumpTarget(AbsPath(dirs, name, cfg.sep), cfg)
         == AbsPath(dirs + SubFolderDirs(cfg), AddTestSuffix(name, cfg), cfg.sep)
    ensures IsTest(JumpTarget(AbsPath(dirs, name, cfg.sep), cfg), cfg)
    ensures JumpTarget(JumpTarget(AbsPath(dirs, name, cfg.sep), cfg), cfg) == AbsPath(dirs, name, cfg.sep)
  {
    var p := AbsPath(dirs, name, cfg.sep);
    var testName := AddTestSuffix(name, cfg);
    TestFilePathShape(dirs, name, cfg);
    GeneratedNameIsTest(name, cfg);
    IsTestAbsPath(dirs + SubFolderDirs(cfg), testName, cfg);
    FullPathRoundTrip(dirs, name, cfg);
  }

  /** From a source file whose name has no dot (a `Makefile`), with no
      pattern in any directory or in the sub-folder name, the generated
      `<suffix>.<name>` is not recognised as a test, so running the command
      again descends further instead of coming back. */
  lemma DotlessNameDoesNotComeBack(dirs: seq<string>, name: string, cfg: Config)
    requires WellFormed(cfg)
    requires |dirs| >= 1 && Components(dirs, cfg.sep) && Component(name, cfg.sep)
    requires '.' !in name
    requires !SomePartHasMarker(dirs, cfg.testFileSuffix)
    requires cfg.testSubFolder == "" || !HasMarker(cfg.testSubFolder, cfg.testFileSuffix)
    ensures !IsTest(AbsPath(dirs, name, cfg.sep), cfg)
    ensures !IsTest(JumpTarget(AbsPath(dirs, name, cfg.sep), cfg), cfg)
    ensures JumpTarget(JumpTarget(AbsPath(dirs, name, cfg.sep), cfg), cfg)
         == CorrespondingTestFilePath(CorrespondingTestFilePath(AbsPath(dirs, name, cfg.sep), cfg), cfg)
    ensures JumpTarget(JumpTarget(AbsPath(dirs, name, cfg.sep), cfg), cfg) != AbsPath(dirs, name, cfg.sep)
  {
    var sep := cfg.sep;
    var s := cfg.testFileSuffix;
    var p := AbsPath(dirs, name, sep);
    var testDirs := dirs + SubFolderDirs(cfg);
    var testName := AddTestSuffix(name, cfg);
    var q := AbsPath(testDirs, testName, sep);
    var r := AbsPath(testDirs + SubFolderDirs(cfg), AddTestSuffix(testName, cfg), sep);

    assert !IsTest(p, cfg) by {
      DotlessNameHasNoMarker(name, s);
      IsTestAbsPath(dirs, name, cfg);
    }
    assert CorrespondingTestFilePath(p, cfg) == q by {
      TestFilePathShape(dirs, name, cfg);
    }
    assert !IsTest(q, cfg) by {
      WellFormedSuffixHasNoDot(cfg);
      DotlessGeneratedNameIsNotTest(name, cfg);
      assert !SomePartHasMarker(testDirs, s) by {
        forall k | 0 <= k < |testDirs|
          ensures !HasMarker(testDirs[k], s)
        {
          if k < |dirs| {
            assert testDirs[k] == dirs[k];
          }
        }
      }
      IsTestAbsPath(testDirs, testName, cfg);
    }
    assert CorrespondingTestFilePath(q, cfg) == r by {
      TestDirsComponents(dirs, cfg);
      GeneratedNameIsOneComponent(name, cfg);
      TestFilePathShape(testDirs, testName, cfg);
    }
    assert r != p by {
      TestDirsComponents(dirs, cfg);
      TestDirsComponents(testDirs, cfg);
      GeneratedNameIsOneComponent(name, cfg);
      GeneratedNameIsOneComponent(testName, cfg);
      AddTestSuffixLength(name, cfg);
      AddTestSuffixLength(testName, cfg);
      DecomposeAbsPath(dirs, name, sep);
      DecomposeAbsPath(testDirs + SubFolderDirs(cfg), AddTestSuffix(testName, cfg), sep);
      assert Basename(r, sep) != Basename(p, sep);
    }
  }

  /** A test-file pattern in any directory name makes the command treat the
      active file as a test, whatever the file is called. A name with a
      single dot then loses its stem: `<dirs>/<stem>.<ext>` is sent to
      `<ext>` in the (popped) parent directory. */
  lemma MarkedDirectoryMisroutesJump(dirs: seq<string>, name: string, cfg: Config)
    requires WellFormed(cfg)
    requires |dirs| >= 1 + |SubFolderDirs(cfg)| && Components(dirs, cfg.sep) && Component(name, cfg.sep)
    requires SomePartHasMarker(dirs, cfg.testFileSuffix)
    requires '.' in name && '.' !in Stem(name) && Extension(name) != ""
    ensures IsTest(AbsPath(dirs, name, cfg.sep), cfg)
    ensures JumpTarget(AbsPath(dirs, name, cfg.sep), cfg)
         == AbsPath(dirs[..|dirs| - |SubFolderDirs(cfg)|], Extension(name), cfg.sep)
  {
    IsTestAbsPath(dirs, name, cfg);
    StemAndExtension(name);
    StemAndExtensionAvoid(name, cfg.sep);
    SourceFilePathShape(dirs, name, cfg);
  }

  /** A name with exactly one dot splits into the parts on either side. */
  lemma SplitAtOnlyDot(name: string, i: nat)
    requires i < |name| && name[i] == '.'
    requires '.' !in name[..i] && '.' !in name[i + 1..]
    ensures Split(name, '.') == [name[..i], name[i + 1..]]
  {
    assert name == name[..i] + ['.'] + name[i + 1..];
    SplitConcat(name[..i], name[i + 1..], '.');
    SplitNoSeparator(name[..i], '.');
    SplitNoSeparator(name[i + 1..], '.');
  }

  // The lemmas about `hasTest.ts` take the name as a parameter fixed by a
  // `requires` instead of using the literal directly: with a literal
  // argument Dafny unfolds `Split` on it eagerly, which makes the proofs
  // far more expensive.

  /** How `hasTest.ts` splits on dots. */
  lemma HasTestSplit(name: string)
    requires name == "hasTest.ts"
    ensures |name| == 10 && Split(name, '.') == [name[..7], name[8..]]
  {
    assert name[..7] == "hasTest" && name[8..] == "ts";
    assert name[7] == '.';
    SplitAtOnlyDot(name, 7);
  }

  /** The test file name of the repository's integration test. */
  lemma HasTestName(name: string, cfg: Config)
    requires name == "hasTest.ts" && cfg.testFileSuffix == "test"
    ensures AddTestSuffix(name, cfg) == "hasTest.test.ts"
  {
    var stem, ext := name[..7], name[8..];
    assert Stem(name) == stem && Extension(name) == ext by {
      HasTestSplit(name);
      assert Pop([stem, ext]) == [stem];
    }
    assert name[7] == '.';
    assert stem == "hasTest" && ext == "ts";
    assert "hasTest" + "." + "test" + "." + "ts" == "hasTest.test.ts";
  }

  /** `hasTest.ts` has a single dot, so it does not contain the pattern. */
  lemma HasTestIsNoTest(name: string)
    requires name == "hasTest.ts"
    ensures !HasMarker(name, "test")
  {
    forall i: nat
      ensures !MarkerAt(name, "test", i)
    {
      if i + 7 <= |name| {
        assert name[i] != '.';
      }
    }
  }

  /** `hasTest.ts` is one normalized path component under any separator
      that is neither a dot nor a word character. */
  lemma HasTestIsComponent(name: string, sep: char)
    requires name == "hasTest.ts"
    requires sep != '.' && !IsWordChar(sep)
    ensures Component(name, sep)
  {
    forall k | 0 <= k < |name|
      ensures name[k] != sep
    {
      assert name[k] == '.' || IsWordChar(name[k]);
    }
  }

  /** The repository's integration test: with suffix `test` and sub-folder
      `tests`, jumping from `<workspace>/hasTest.ts` opens
      `<workspace>/tests/hasTest.test.ts`. */
  lemma HasTestJumpsIntoTests(workspace: seq<string>, sep: char)
    requires WellFormed(Config("test", "tests", sep))
    requires |workspace| >= 1 && Components(workspace, sep)
    requires !SomePartHasMarker(workspace, "test")
    ensures JumpTarget(AbsPath(workspace, "hasTest.ts", sep), Config("test", "tests", sep))
         == AbsPath(workspace + ["tests"], "hasTest.test.ts", sep)
  {
    var cfg := Config("test", "tests", sep);
    HasTestName("hasTest.ts", cfg);
    HasTestIsNoTest("hasTest.ts");
    HasTestIsComponent("hasTest.ts", sep);
    IsTestAbsPath(workspace, "hasTest.ts", cfg);
    TestFilePathShape(workspace, "hasTest.ts", cfg);
  }
}
