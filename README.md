# A verified model of CIFuzz's `FuzzTarget`

CIFuzz runs a project's fuzz targets briefly on a pull request and reports a
crash only if that crash is new. Its `FuzzTarget` class (in
`infra/cifuzz/fuzz_target.py`) handles one target in four steps:

- It fuzzes the target.
- It picks the reproducer path out of libFuzzer's `Test unit written to ./<path>` line.
- It replays the reproducer up to ten times against the build under test.
- When the target belongs to an OSS-Fuzz project, it replays the reproducer
  against the latest published build of that project. It fetches that build
  into `<out_dir>/oss_fuzz_latest/<project>` unless the target binary is
  already there.

When the target has a project, a crash counts as a failure only if it
reproduces in the build under test and not in the published build; if the
published build cannot be fetched, it does not count. When the target has no
project, every crash that reproduces in the build under test counts.

The project has five modules:

- `Paths` (`paths.dfy`): the `posixpath` operations the class relies on, as
  string functions. These are `join`, `basename` and `dirname`, plus the
  directories `os.makedirs` leaves behind.
- `CrashMarker` (`crash_marker.dfy`): the regular expression
  `\bTest unit written to \.\/([^\s]+)` as a leftmost-match search with a
  greedy run of non-whitespace.
- `Environment` (`environment.dfy`): the collaborators, as classes with state
  that their methods update.
  - `Sandbox` stands for docker. Its exit codes come from a fixed script
    (`exitCode(n)` is the exit code of invocation `n`), and it logs every
    command it runs.
  - `FileSystem` is the set of paths that exist.
  - `ArtifactStore` is the storage bucket. It maps version-file URLs to their
    contents and archive URLs to their entry names, and it logs every request.
- `FuzzTargets` (`fuzz_target.dfy`): the class `FuzzTarget`.
  - Its fields are set once by the constructor.
  - Its methods (`IsReproducible`, `GetLatestBuildVersion`,
    `DownloadOssFuzzBuild`, `IsCrashAFailure`, `Fuzz`) change that state step
    by step, as the Python does.
  - Each method is proved against a function on values: `Attempts` and
    `Reproducible`, `LatestVersion`, `Acquire` and `Classification`.
  - Lemmas state what the source promises about those functions.
- `Wrappers` (`wrappers.dfy`): `Option`.

## Model

| member | source | states |
|---|---|---|
| `Paths.Join` | infra/cifuzz/fuzz_target.py:219-220 | `posixpath.join` of two parts: the result ends with the second part; an absolute second part replaces the first; a relative one comes after the first, which the result starts with, and at most one character lies between them |
| `Paths.JoinSeparator` | infra/cifuzz/fuzz_target.py:219-220 | a relative part is appended directly when the first part is empty or ends with `/`, and after exactly one `/` otherwise |
| `Paths.LastSep` | infra/cifuzz/fuzz_target.py:68 | the index of the last `/` of the path (or -1), with no `/` after it |
| `Paths.Basename` | infra/cifuzz/fuzz_target.py:68 | `target_name` is a suffix of the path with no `/` in it, and the whole path when it has none |
| `Paths.BasenameMaximal` | infra/cifuzz/fuzz_target.py:68 | `target_name` is the longest such suffix: when it is not the whole path, a `/` stands right before it |
| `Paths.StripTrailingSeps` | infra/cifuzz/fuzz_target.py:153 | the trailing-`/` removal inside `dirname`: a prefix that does not end with `/`, and only `/` characters were removed |
| `Paths.DirnameShape` | infra/cifuzz/fuzz_target.py:153 | `dirname` is a prefix of the path ending no later than its last `/`, only `/` characters are dropped after it, it ends with `/` only when it is all `/` (and then it is the whole head), and it is empty exactly when the path has no `/` |
| `Paths.Directories` | infra/cifuzz/fuzz_target.py:222 | `os.makedirs(build_dir)` leaves `build_dir` itself existing, and creates nothing longer than it |
| `Paths.MemberName` | infra/cifuzz/fuzz_target.py:234-235 | `extractall` writes an entry under its name with the leading `/` removed: the result is a relative suffix of the name, and only `/` is dropped |
| `Paths.ExtractedInside` | infra/cifuzz/fuzz_target.py:234-235 | everything `extractall(build_dir)` writes, absolute entry names included, lies under `build_dir` |
| `Paths.ExtractedUnder` | infra/cifuzz/fuzz_target.py:234-235 | after `extractall(build_dir)` of an archive of relative names, a relative name exists under `build_dir` exactly when the archive holds it |
| `Paths.JoinInjective` | infra/cifuzz/fuzz_target.py:220 | two relative names joined onto the same directory give the same path only if the names are equal, so the cache probe finds the binary only under its own name |
| `Paths.JoinAll` | infra/cifuzz/fuzz_target.py:239-248 | `url_join` and the three-part `os.path.join` at line 219: the result is at least as long as the last part (the exact layout of three parts is `Paths.JoinThree`) |
| `Paths.JoinThree` | infra/cifuzz/fuzz_target.py:239-248 | `url_join(a, b, c)` with no stray separators is `a/b/c` |
| `Paths.JoinDirnameBasename` | infra/cifuzz/fuzz_target.py:68-70 | for a path without doubled `/`, joining its `dirname` and its `basename` gives the path back |
| `Paths.BasenameDirnameOfJoin` | infra/cifuzz/fuzz_target.py:219-220 | joining a plain name onto a directory: `basename` returns the name and `dirname` returns the directory |
| `CrashMarker.FirstMatch` | infra/cifuzz/fuzz_target.py:183 | `re.search` finds the leftmost match at or after a position, and `None` exactly when nothing matches from there on |
| `CrashMarker.RunEnd` | infra/cifuzz/fuzz_target.py:183 | `[^\s]+` is greedy: the run ends at the first whitespace character or at the end of the text |
| `CrashMarker.TestCasePath` | infra/cifuzz/fuzz_target.py:183-184 | group 1 is `None` exactly when no position matches; otherwise it is non-empty, contains no whitespace, and is the text right after the leftmost matching marker, ended by whitespace or the end of the text |
| `CrashMarker.NoEarlierMatch` | infra/cifuzz/fuzz_target.py:183 | nothing matches before the first copy of the marker, because the marker cannot overlap itself |
| `CrashMarker.FirstMatchAt` | infra/cifuzz/fuzz_target.py:183 | a match with no match before it is the one `re.search` returns |
| `CrashMarker.RunEndAt` | infra/cifuzz/fuzz_target.py:183 | a run of non-whitespace followed by whitespace or the end of the text is exactly what `[^\s]+` takes |
| `CrashMarker.MatchesAtAnnouncement` | infra/cifuzz/fuzz_target.py:183 | libFuzzer's line matches where it is written when `\b` holds there and a non-space character follows |
| `CrashMarker.AnnouncedRun` | infra/cifuzz/fuzz_target.py:183 | the path written after the marker, ended by whitespace or the end of the text, is the captured run |
| `CrashMarker.FirstAnnouncementWins` | infra/cifuzz/fuzz_target.py:183-185 | a well-formed `Test unit written to ./x` with no match anywhere before it gives back exactly `x`, whatever markers (glued to a word, or followed by whitespace) come earlier |
| `CrashMarker.MarkerRoundTrip` | infra/cifuzz/fuzz_target.py:183-185 | writing `Test unit written to ./x` after text without the marker, with `\b` holding and whitespace or the end after `x`, gives back exactly `x` |
| `CrashMarker.NoMarkerNoPath` | infra/cifuzz/fuzz_target.py:183-186 | text without the marker yields no path |
| `Environment.Sandbox.Execute` | infra/cifuzz/fuzz_target.py:134 | `utils.execute` logs the command and returns the scripted exit code of that invocation |
| `Environment.FileSystem.MakeDirs` | infra/cifuzz/fuzz_target.py:222 | `os.makedirs(p, exist_ok=True)` adds the directories of `p` and changes nothing else |
| `Environment.FileSystem.ExtractAll` | infra/cifuzz/fuzz_target.py:234-235 | extraction adds the archive's entries under the directory and changes nothing else |
| `Environment.ArtifactStore.UrlOpen` | infra/cifuzz/fuzz_target.py:200-206 | the request is logged; the body comes back, or `None` where the bucket has no such file (the HTTP error) |
| `Environment.ArtifactStore.UrlRetrieve` | infra/cifuzz/fuzz_target.py:229-233 | the request is logged; the archive's entries come back, or `None` on the HTTP error |
| `FuzzTargets.DecodeEncodeAscii` | infra/cifuzz/fuzz_target.py:108 | decoding the ASCII encoding of a text gives the text back |
| `FuzzTargets.EncodeDecodeAscii` | infra/cifuzz/fuzz_target.py:108 | `err.decode('ascii')` succeeds exactly on bytes below 128, and encoding what it gives returns the same bytes |
| `FuzzTargets.Repeat` | infra/cifuzz/fuzz_target.py:127-134 | the same reproduce command is run on every attempt |
| `FuzzTargets.TwoRounds` | infra/cifuzz/fuzz_target.py:152-166 | the second round of replays starts where the first stopped, and the log holds the first round's commands and then the second's |
| `FuzzTargets.RunsFrom` | infra/cifuzz/fuzz_target.py:133-137 | the loop stops after the first non-zero exit code, or after the tenth attempt; every earlier attempt exited with 0 |
| `FuzzTargets.AttemptsStopAtFirstCrash` | infra/cifuzz/fuzz_target.py:133-137 | between 1 and 10 replays; all but the last exit with 0; the result is True exactly when the last one crashed; False takes all 10 |
| `FuzzTargets.AttemptsAt` | infra/cifuzz/fuzz_target.py:133-137 | exactly `k` replays are made when the first `k - 1` exit with 0 and the `k`-th crashes or is the tenth |
| `FuzzTargets.CrashOnThirdAttempt` | infra/cifuzz/fuzz_target.py:133-137 | two clean exits and then a crash: reproducible, after three replays |
| `FuzzTargets.NeverCrashes` | infra/cifuzz/fuzz_target.py:133-137 | ten clean exits: not reproducible, after all ten replays |
| `FuzzTargets.NoTestCaseExitAsWritten` | infra/cifuzz/fuzz_target.py:110-112 | as written, the missing-test-case exit raises TypeError instead of returning `(None, None)` (see Findings) |
| `FuzzTargets.NoTestCaseExitIntended` | infra/cifuzz/fuzz_target.py:110-112 | without the stray keyword, the exit returns `(None, None)` |
| `FuzzTargets.FuzzTarget.constructor` | infra/cifuzz/fuzz_target.py:56-72 | the four fields are set from the arguments; `target_name` is derived as the basename |
| `FuzzTargets.FuzzTarget.CandidateRunsTargetBinary` | infra/cifuzz/fuzz_target.py:152-153 | replaying from `dirname(target_path)` runs the binary at `target_path` itself |
| `FuzzTargets.FuzzTarget.VersionUrlLayout` | infra/cifuzz/fuzz_target.py:196-199 | the version file is named `<project>-address-latest.version`, and its URL is `<GCS_BASE_URL>/<project>/<project>-address-latest.version` |
| `FuzzTargets.FuzzTarget.BuildDirLayout` | infra/cifuzz/fuzz_target.py:219 | the cache is `<out_dir>/oss_fuzz_latest/<project>` |
| `FuzzTargets.FuzzTarget.CachedBinaryNonEmpty` | infra/cifuzz/fuzz_target.py:220-221 | the path `os.path.join(build_dir, target_name)` probed for the cached binary is never empty, so `os.path.exists` can find it |
| `FuzzTargets.FuzzTarget.GetTestCase` | infra/cifuzz/fuzz_target.py:174-186 | `None` exactly when nothing in the text matches; otherwise the non-empty path `os.path.join(out_dir, group 1)` |
| `FuzzTargets.FuzzTarget.GetTestCaseOfAnnouncement` | infra/cifuzz/fuzz_target.py:183-185 | libFuzzer's line `Test unit written to ./x` gives `os.path.join(out_dir, x)` |
| `FuzzTargets.FuzzTarget.LatestVersion` | infra/cifuzz/fuzz_target.py:188-206 | no version without a project; a version answered is the body of a file in the bucket |
| `FuzzTargets.FuzzTarget.LatestVersionFile` | infra/cifuzz/fuzz_target.py:194-206 | the version answered is the body of `<GCS_BASE_URL>/<project>/<project>-address-latest.version`, or `None` when the bucket has no such file |
| `FuzzTargets.FuzzTarget.Acquire` | infra/cifuzz/fuzz_target.py:208-236 | a missing (or empty) `out_dir` or no project: `None`, and nothing touched; a cache hit: the cache directory, no request; a miss: the cache is created and the version file is requested first; a build directory is only ever the cache; paths are only added |
| `FuzzTargets.FuzzTarget.Download` | infra/cifuzz/fuzz_target.py:222-236 | on a cache miss, the cache directory exists afterwards even if a later step fails; one or two requests, the version file first; a build directory comes back only after both requests |
| `FuzzTargets.FuzzTarget.AcquireOnMissFound` | infra/cifuzz/fuzz_target.py:220-236 | on a cache miss with a non-empty version whose archive is in the bucket: the cache directory comes back, the paths are the old ones plus the cache's directories and the archive's entries under it, and the requests are the version file and then the archive |
| `FuzzTargets.FuzzTarget.AcquireOnMissMissing` | infra/cifuzz/fuzz_target.py:220-233 | on a cache miss otherwise: `None`, only the cache's directories are added, and the archive is requested only when the version is non-empty |
| `FuzzTargets.FuzzTarget.DownloadFillsCache` | infra/cifuzz/fuzz_target.py:220-236 | after a successful download, the binary is in the cache exactly when the archive held `target_name` |
| `FuzzTargets.FuzzTarget.AcquireTwice` | infra/cifuzz/fuzz_target.py:214-236 | a second fetch after a successful one returns the same directory and changes nothing on disk; it makes no request exactly when the first left the binary in the cache |
| `FuzzTargets.FuzzTarget.DownloadAgain` | infra/cifuzz/fuzz_target.py:222-236 | repeating a successful download on the paths it left gives the same result and adds nothing |
| `FuzzTargets.FuzzTarget.Classification` | infra/cifuzz/fuzz_target.py:139-172 | a failure is always reproducible in the build under test; the replays made are between the first round's count and 20; paths are only added |
| `FuzzTargets.FuzzTarget.ClassificationUncompared` | infra/cifuzz/fuzz_target.py:152-163 | without a project, without a reproduction, or without a baseline build, only the first round is replayed. The verdict is the reproduction without a project and False otherwise. The fetch's effects are those of `download_oss_fuzz_build` when it was attempted, and there are none otherwise |
| `FuzzTargets.FuzzTarget.ClassificationCompared` | infra/cifuzz/fuzz_target.py:161-172 | with a baseline build, the verdict is `not reproducible_in_oss_fuzz`, and the second round replays in that build right after the first |
| `FuzzTargets.FuzzTarget.ComparedLog` | infra/cifuzz/fuzz_target.py:161-172 | the log after both rounds is the log before them followed by the classification's commands |
| `FuzzTargets.FuzzTarget.NoProjectVerdict` | infra/cifuzz/fuzz_target.py:152-155 | with no project, the verdict is the reproduction from `dirname(target_path)`, with no fetch and no second round |
| `FuzzTargets.FuzzTarget.ProjectVerdict` | infra/cifuzz/fuzz_target.py:157-172 | with a project: a crash that does not reproduce is False with no fetch; with no baseline build it is False with no second round; otherwise it is `not reproducible_in_oss_fuzz`, and the second round runs in the cache |
| `FuzzTargets.FuzzTarget.ClassificationFollowsVerdict` | infra/cifuzz/fuzz_target.py:139-172 | where the comparison is made, the result is True exactly for a new regression; where the published build cannot be fetched, the crash reproduced in a project's own build and the result is still False |
| `FuzzTargets.FuzzTarget.MockedReplays` | infra/cifuzz/cifuzz_test.py:117-159 | replay results [True, False] give a bug and [True, True] do not |
| `FuzzTargets.FuzzTarget.IsReproducible` | infra/cifuzz/fuzz_target.py:117-137 | the result is `Reproducible` of the invocations from here, and the log grows by `Attempts` copies of the same command |
| `FuzzTargets.FuzzTarget.GetLatestBuildVersion` | infra/cifuzz/fuzz_target.py:188-206 | `None` with no request when there is no project; otherwise one request for the version URL, and its body or `None` |
| `FuzzTargets.FuzzTarget.DownloadOssFuzzBuild` | infra/cifuzz/fuzz_target.py:208-236 | the result, the paths afterwards and the requests made are those `Acquire` gives for the paths before |
| `FuzzTargets.FuzzTarget.IsCrashAFailure` | infra/cifuzz/fuzz_target.py:139-172 | the result, the replays logged, the paths and the requests are those `Classification` gives for the state before |
| `FuzzTargets.FuzzTarget.Fuzz` | infra/cifuzz/fuzz_target.py:74-115 | a timeout gives `(None, None)` and touches nothing; non-ASCII error output raises `UnicodeDecodeError`; no test case gives `(None, None)` and touches nothing; otherwise the result is `(test_case, err_str)` exactly when `Classification` says failure, and `(None, None)` otherwise, with its effects |

## Left out

- Process execution is not modelled: `subprocess.Popen` and `communicate` with
  a wall-clock timeout, `utils.execute`, `utils.get_container_name`, and the
  docker argument lists, including `LIBFUZZER_OPTIONS`. A fuzzing run is an
  outcome, `Timeout` or `Finished(stderr bytes)`. A replay is a `Reproduce`
  command with its build directory, test case and target name, and its exit
  code comes from the sandbox's script. `duration` is kept as a field but
  only matters through that outcome.
- The network is not modelled: `urlopen` and `urlretrieve` are lookups in
  maps. Only the HTTP error is modelled, as a missing key. Other exceptions
  (`URLError`, a bad zip file, a body that is not UTF-8) are not.
- The archive file `oss_fuzz_latest.zip`, written in the current working
  directory, is not modelled. An archive is the set of its entry names,
  listed together with their directories.
- `Paths.MemberName` strips only the leading `/` of an entry name.
  `extractall` also drops empty, `.` and `..` parts inside the name; such
  names are joined unchanged here.
- The filesystem does not tell files from directories, and paths are never
  normalised. `exists` is membership in the set of paths, and the empty path
  never exists.
- Logging is left out, except for the one call at line 111 whose keyword
  argument raises (see Findings).
- `\w` is ASCII only, which is exact because the text was decoded as ASCII
  first. `\s` is Python's Unicode whitespace set.
- `FuzzTargets.FuzzTarget.Classification`: its own contract is weaker than
  the source's promise. The full case analysis is stated by
  `ClassificationUncompared`, `ClassificationCompared`, `NoProjectVerdict`
  and `ProjectVerdict`.
- `Paths.Directories`: its contract only says that the directory itself is
  created and that nothing longer is. The body lists every prefix that ends
  just before a `/`.
- `Paths.JoinAll` carries no contract of its own beyond a length bound. It
  stands for both `posixpath.join(*parts)` and `url_join`, which only calls
  it. What it does with three parts is stated by `Paths.JoinThree` and
  `FuzzTargets.FuzzTarget.VersionUrlLayout`.
- A failed baseline download is not a separate "classification failed"
  outcome. It gives False, the same answer as a bug that already exists,
  because that is what lines 162-163 do.
- `fuzz` does not check that `out_dir` exists. Only `download_oss_fuzz_build`
  checks it, at line 214, so only that method tests it.

## Findings

| source | as written | input that shows it | evidently intended | confidence | as-written member | corrected member |
|---|---|---|---|---|---|---|
| infra/cifuzz/fuzz_target.py:111 | `logging.error('No test case found in stack trace.', file=sys.stderr)` passes `file`, a keyword `Logger._log` does not accept. ERROR is enabled because the root level is DEBUG, so the call raises TypeError before `return None, None` | a fuzzer run that ends before its timeout with no `Test unit written to ./` line in its error output | log the message and return `(None, None)` | not executed | `FuzzTargets.NoTestCaseExitAsWritten` | `FuzzTargets.FuzzTarget.Fuzz` |
