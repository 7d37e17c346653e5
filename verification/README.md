# jump-source path conventions in Dafny

A model of the path-convention resolver of the `jumpSource` editor extension.
Given the path of the file open in the editor, the extension works out the
path of its test file, or of the source file when the open file is a test.
Two settings drive this: the test-file suffix token (`testFileSuffix`,
e.g. `test`) and the test sub-folder name (`testSubFolder`, e.g. `tests`,
or empty for "same folder").

The model follows `src/helpers.ts` and the `extension.jumpTest` dispatch in
`src/extension.ts`:

- `isTest(path)` is an unanchored test of the pattern `\.<suffix>\.\w+`
  anywhere in the path, directories included.
- `addTestSuffix` splits a file name on `.`, pops the last component,
  pushes the suffix and then that component back, and joins again.
- `removeTestSuffix` pops the last component, pops the one before it
  without looking at it, and pushes the last component back.
- `getParentDir` returns its input when no sub-folder is set. Otherwise it
  splits on the platform separator and pops the last component, whatever
  its name.
- `getCorrespondingTestFilePath` and `getCorrespondingSourceFilePath`
  combine these with Node's `dirname`, `basename` and `join`.

Files:

- `strings.dfy` (module `Strings`): JavaScript `split` with a one-character
  separator, `join` and `pop`, plus the split/join inverse laws.
- `paths.dfy` (module `Paths`): Node's POSIX `dirname`, `basename` and
  `join`, with the separator as a parameter. Also builds normalized absolute paths from
  their components (`AbsDir`, `AbsPath`).
- `helpers.dfy` (module `Helpers`): the six helpers of `src/helpers.ts`.
  `Config` holds the two settings and the separator. The file also holds
  the file-name laws: one added component, the unchecked drop, the suffix
  round trip both ways, and when a generated name is recognised.
- `correspondence.dfy` (module `Correspondence`): whole-path laws. A match
  of the test pattern lies inside one path component. The file also gives
  the shape of the test and source counterparts of a normalized path, the
  full-path round trip, and the failure of that round trip at the top of
  the file system.
- `jump.dfy` (module `Jump`): the `extension.jumpTest` dispatch and what
  repeated jumps do. Also holds the repository's integration-test example.

Edge cases of the code, stated as lemmas rather than assumed away:

- a name without a dot, like `Makefile`, becomes `test.Makefile`. That
  name is not recognised as a test, so jumping again descends into
  `tests/tests/…` instead of coming back;
- a test pattern in a directory name, like `/p/v1.test.data/util.ts`, makes
  every file below that directory count as a test. The jump then sends
  `util.ts` to `ts`;
- with a sub-folder set, a file directly under the root, `/a.ts`, goes to
  `/tests/a.test.ts`. The way back pops `tests` and leaves an empty
  directory, so it yields the relative `a.ts`.

`src/constants.ts:3-22` names further settings (`matchExtension`,
`filterCaseSensitive`, `excludePattern`, `testFileExtension`) and further
commands (`extension.createTest`, `extension.cycleFilename`).
`src/helpers.ts` reads none of these settings and implements none of these
commands; the model follows `src/helpers.ts`. In particular the extension
is always carried over unchanged. `getParentDir` (src/helpers.ts:40-49)
pops the last directory without comparing it with the sub-folder name, as
`Helpers.ParentDirPopsAnyComponent` states.

## Model

| member | source | states |
|---|---|---|
| Strings.Pop | src/helpers.ts:53-54 | `pop()` on a non-empty array leaves the array that, followed by the popped last element, is the original; on an empty array it leaves the array empty, as the second `pop()` of `removeTestSuffix` (src/helpers.ts:54) does for a dotless name |
| Strings.JoinSnoc | src/helpers.ts:48 | `join` of at least one part plus one more part is the join of the parts, the separator and the new part; with `Strings.JoinSplit` this pins `join` down as the inverse of `split` |
| Strings.Split | src/helpers.ts:52 | `split` returns at least one part; no part contains the separator; joining the parts with the separator gives the input back |
| Strings.SplitConcat | src/helpers.ts:52 | splitting `a`, the separator and `b` gives the parts of `a` followed by the parts of `b` |
| Strings.JoinSplit | src/helpers.ts:57 | splitting a joined array of separator-free parts (at least one) returns exactly those parts |
| Paths.Basename | src/helpers.ts:15 | the basename is a separator-free suffix of the path, preceded by a separator unless it is the whole path |
| Paths.Dirname | src/helpers.ts:14 | the dirname is `.` for a path without a separator and the root separator for `<sep><name>`; otherwise the path is the dirname, a separator and the basename |
| Paths.JoinPath | src/helpers.ts:17 | joining two empty sides gives `.`; an empty side is skipped; a left side ending in a separator is followed directly by the right side; otherwise exactly one separator goes between them |
| Paths.DecomposeAbsPath | src/helpers.ts:14-15 | `dirname`/`basename` of a normalized absolute path below the root, with a non-empty name, give its directory and its name |
| Paths.JoinOntoAbsDir | src/helpers.ts:24 | `join` of a normalized directory and one normalized component is the absolute path of that component in that directory |
| Helpers.MatchFrom | src/helpers.ts:10 | the left-to-right scan from index `i` succeeds iff the pattern matches at some index at or after `i` |
| Helpers.IsTest | src/helpers.ts:8-11 | `isTest` holds iff `.`, the suffix, `.` and a word character occur consecutively somewhere in the path |
| Helpers.AddTestSuffix | src/helpers.ts:60-67 | a dotted name `<stem>.<ext>` becomes `<stem>.<suffix>.<ext>`; a dotless name `n` becomes `<suffix>.n` |
| Helpers.RemoveTestSuffix | src/helpers.ts:51-58 | a dotless name is unchanged; a one-dot name is reduced to its extension; otherwise the second-to-last component is removed and stem-of-stem and extension are rejoined |
| Helpers.AddTestSuffixAddsOneComponent | src/helpers.ts:60-67 | for a dot-free suffix the components of the result are those of the name with the suffix inserted second to last |
| Helpers.RemoveTestSuffixDropsAnyComponent | src/helpers.ts:51-58 | the second-to-last component is dropped whatever it is, never compared with the suffix |
| Helpers.SuffixRoundTrip | src/helpers.ts:51-67 | removing the suffix after adding it gives back every file name, dotless ones included, for any dot-free suffix |
| Helpers.SuffixRoundTripBack | src/helpers.ts:51-67 | adding the suffix after removing it restores a name whose second-to-last component is the suffix |
| Helpers.AddTestSuffixLength | src/helpers.ts:60-67 | the generated name is longer by the suffix and one dot |
| Helpers.GeneratedNameIsOneComponent | src/helpers.ts:22 | the generated name is non-empty, has no separator, and is a normalized component when the source name is one |
| Helpers.GeneratedNameIsTest | src/helpers.ts:60-67 | for a well-formed configuration (a suffix that is a literal token), `isTest` accepts the generated name when the source name has a dot and its extension starts with a word character |
| Helpers.DotlessGeneratedNameIsNotTest | src/helpers.ts:60-67 | for a well-formed configuration, `isTest` rejects the generated name of a dotless source name, because it has one dot where the pattern needs two |
| Helpers.ParentDir | src/helpers.ts:40-49 | identity without a sub-folder; otherwise the input is the result, a separator and the input's last component, or the result is empty when there is no separator |
| Helpers.ParentDirPopsAnyComponent | src/helpers.ts:40-49 | with a sub-folder set, the parent of `<dir>/<x>` is `<dir>` for every component `x`, not only the sub-folder's name |
| Helpers.CorrespondingSourceFilePath | src/helpers.ts:13-18 | the source path always ends in the test file's name with its second-to-last dot component removed; its full shape is `Correspondence.SourceFilePathShape` |
| Helpers.CorrespondingTestFilePath | src/helpers.ts:20-25 | the test path ends in the source file's name with the suffix added; its full shape is `Correspondence.TestFilePathShape` |
| Correspondence.MarkerAcrossSeparator | src/helpers.ts:8-11 | the pattern matches `a<sep>b` iff it matches `a` or `b` |
| Correspondence.MarkerInSomeComponent | src/helpers.ts:8-11 | the pattern matches a separator-joined path iff it matches one of its components |
| Correspondence.IsTestAbsPath | src/helpers.ts:8-11 | `isTest` of an absolute path holds iff a directory name or the file name contains the pattern |
| Correspondence.TestFilePathShape | src/helpers.ts:20-25 | the test path of `<dirs>/<name>` is `<dirs>/<sub-folder>/<name with suffix>`, with no extra directory when the sub-folder is unset |
| Correspondence.SourceFilePathShape | src/helpers.ts:13-18 | the source path of `<dirs>/<name>` is `<dirs minus the last one when a sub-folder is set>/<name without its second-to-last component>`, when that source name is a normalized component |
| Correspondence.FullPathRoundTrip | src/helpers.ts:13-25 | going from a normalized absolute path below the root to its test path and back returns the path |
| Correspondence.TopLevelRoundTripLosesRoot | src/helpers.ts:40-49 | with a sub-folder set, `/<name>` goes to `/<sub-folder>/<test name>` and comes back as the relative `<name>`, not `/<name>` |
| Jump.JumpTarget | src/extension.ts:26-32 | the path opened ends in the source name when the active file is recognised as a test, and in the test name otherwise; `Jump.JumpThereAndBack` and the lemmas below give the whole path |
| Jump.JumpThereAndBack | src/extension.ts:26-32 | from a non-test file with a dotted name and a word-character extension, the jump opens the test path, which is recognised as a test, and jumping again returns to the file |
| Jump.DotlessNameDoesNotComeBack | src/extension.ts:26-32 | from a dotless non-test name, the test path is not recognised as a test, so the second jump builds a test path of the test path and does not return to the file |
| Jump.MarkedDirectoryMisroutesJump | src/extension.ts:26-32 | a pattern in any directory name makes the file count as a test; a one-dot name is then sent to its bare extension in the popped directory |
| Jump.HasTestJumpsIntoTests | src/test/suite/extension.test.ts:10-23 | with suffix `test` and sub-folder `tests`, `<workspace>/hasTest.ts` jumps to `<workspace>/tests/hasTest.test.ts` |

## Left out

- `openNewTab` (src/helpers.ts:27-38): opening a document and showing an error message are editor I/O. Only the path it is given is modelled.
- The configuration reads (src/helpers.ts:69-73) become the fields of `Config`. A missing setting (`undefined`) is not modelled; both settings are strings.
- `Paths` follows Node's POSIX path functions (`path.posix`), with the separator abstracted as the `sep` field of `Config`, a single character; absolute paths are `<sep>d1<sep>…<sep>name`. Node's Windows functions (`path.win32`) are not modelled. They also treat `/` as a separator in `dirname` and `basename`, rewrite `/` to `\` in `join`, and know drive prefixes. Only `getParentDir` (src/helpers.ts:46) splits on `sep` alone. So with `sep` set to `\`, the lemmas do not describe Windows: for instance, a sub-folder such as `tests/unit` is one component for the model but two for Windows' `join`.
- Paths.JoinPath: Node's normalization of `.`, `..` and repeated separators is not modelled. The lemmas that put a name into a directory (`Paths.JoinOntoAbsDir`, `Correspondence.TestFilePathShape`, `Correspondence.SourceFilePathShape`, `Correspondence.FullPathRoundTrip`) require directories and the joined name to be normalized components (`Paths.Component`), where normalization changes nothing. A source name of `.` or `..` (from test names such as `.x.` or `...`) is therefore not covered.
- Paths.Dirname, Paths.Basename: trailing separators, which Node strips first, are not modelled; normalized paths have none, and `Paths.DecomposeAbsPath` requires a non-empty name for that reason.
- Helpers.IsTest: the suffix is matched as a literal token. In the source it is interpolated unescaped into a `RegExp`, so a suffix with metacharacters would change the pattern. `Helpers.WellFormed` excludes such suffixes wherever a lemma depends on it.
- Helpers.RemoveTestSuffix: for a name without a dot, the second `pop()` (src/helpers.ts:54) runs on an empty array and returns `undefined`, which is discarded. The model reaches this case through the empty-array branch of `Strings.Pop`, which leaves the array empty; the returned `undefined` itself is not modelled because nothing uses it.
- The other commands registered in src/extension.ts (index-file jump, index-file list with its quick pick) call helpers that are not part of this model (`getClosestIndexFilePaths`, `getListOfIndexFiles`, `getCurrentAbsolutePath`, `relativeRootToAbsolute`).
- src/constants.ts holds only string enums. The test harness under src/test only supplies the integration-test example above.
