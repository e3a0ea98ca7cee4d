/**
 * One fuzz target of a continuous-fuzzing run: fuzz it briefly, pick the
 * reproducer out of the fuzzer's error stream, replay it against the build
 * under test and, when the target belongs to an OSS-Fuzz project, against
 * the latest published build, and report the crash only when it is new.
 */
module FuzzTargets {
  import opened Wrappers
  import opened Paths
  import opened CrashMarker
  import opened Environment

  /** Where the latest OSS-Fuzz builds are published. */
  const GcsBaseUrl: string := "https://storage.googleapis.com/clusterfuzz-builds"

  /** How many times a crash is replayed before it counts as not reproducible. */
  const ReproduceAttempts: nat := 10

  /** The subdirectory of the output directory that caches published builds. */
  const CacheDirName: string := "oss_fuzz_latest"

  const Sanitizer: string := "address"

  type Byte = b: int | 0 <= b < 256

  /** How the fuzzing run ended: at its deadline, or early with this error stream. */
  datatype RunOutcome = Timeout | Finished(stderr: seq<Byte>)

  datatype PyException = UnicodeDecodeError | TypeError

  /** What `fuzz` gives its caller: the pair it returns, or the exception it raises. */
  datatype FuzzResult =
    | Returned(testCase: Option<string>, stackTrace: Option<string>)
    | Raised(error: PyException)

  /** The outcome of fetching the baseline build: its directory, and the filesystem and requests afterwards. */
  datatype Acquisition = Acquisition(buildDir: Option<string>, paths: set<string>, requests: seq<string>)

  /** The outcome of classifying a crash: the verdict and every effect on the sandbox, filesystem and store. */
  datatype ClassifierRun = ClassifierRun(failure: bool, commands: seq<Command>, paths: set<string>, requests: seq<string>)

  /** The verdicts a crash can get when the comparison with the baseline is made. */
  datatype Verdict = NotReproducible | PreExistingBug | NewRegression

  predicate IsAscii(b: seq<Byte>) {
    forall i :: 0 <= i < |b| ==> b[i] < 128
  }

  /** `bytes.decode('ascii')`; `None` where it raises. */
  function DecodeAscii(b: seq<Byte>): Option<string>
  {
    if IsAscii(b) then Some(seq(|b|, i requires 0 <= i < |b| => b[i] as char)) else None
  }

  /** `str.encode('ascii')` of text that is ASCII throughout. */
  function EncodeAscii(s: string): seq<Byte>
    requires forall i :: 0 <= i < |s| ==> s[i] as int < 128
  {
    seq(|s|, i requires 0 <= i < |s| => s[i] as int)
  }

  /** Decoding the encoding of ASCII text gives the text back. */
  lemma DecodeEncodeAscii(s: string)
    requires forall i :: 0 <= i < |s| ==> s[i] as int < 128
    ensures DecodeAscii(EncodeAscii(s)) == Some(s)
  {
    var b := EncodeAscii(s);
    assert IsAscii(b);
    assert DecodeAscii(b).value == s;
  }

  /** Bytes decode exactly when they are ASCII, and encoding the text gives them back. */
  lemma EncodeDecodeAscii(b: seq<Byte>)
    ensures DecodeAscii(b).Some? <==> IsAscii(b)
    ensures IsAscii(b) ==> var s := DecodeAscii(b).value;
                           (forall i :: 0 <= i < |s| ==> s[i] as int < 128) && EncodeAscii(s) == b
  {
  }

  /** `n` copies of the same command. */
  function Repeat(command: Command, n: nat): (r: seq<Command>)
    ensures |r| == n && forall i :: 0 <= i < n ==> r[i] == command
  {
    if n == 0 then [] else Repeat(command, n - 1) + [command]
  }

  /** Proof step (no counterpart in the program): adding the same paths again changes nothing. */
  lemma AddedTwice<T>(p: set<T>, d: set<T>, e: set<T>)
    ensures (p + d + e) + d + e == p + d + e
  {
  }

  /** Proof step (no counterpart in the program): two single appends are one append of a pair. */
  lemma Concatenated<T>(s: seq<T>, x: T, y: T)
    ensures s + [x] + [y] == s + [x, y]
  {
  }

  /**
   * Two rounds of replays, the second starting where the first stopped, log
   * the first round's commands followed by the second's.
   */
  lemma TwoRounds(exitCode: nat -> int, before: seq<Command>, mid: seq<Command>, after: seq<Command>,
                  first: Command, second: Command)
    requires mid == before + Repeat(first, Attempts(exitCode, |before|))
    requires after == mid + Repeat(second, Attempts(exitCode, |mid|))
    ensures |mid| == |before| + Attempts(exitCode, |before|)
    ensures var k := Attempts(exitCode, |before|);
            after == before + (Repeat(first, k) + Repeat(second, Attempts(exitCode, |before| + k)))
  {
    var k := Attempts(exitCode, |before|);
    assert |mid| == |before| + k;
    var r1 := Repeat(first, k);
    var r2 := Repeat(second, Attempts(exitCode, |mid|));
    assert (before + r1) + r2 == before + (r1 + r2);
  }

  /** Proof step (no counterpart in the program): the bucket URL is non-empty and has no trailing '/'. */
  lemma BaseUrlShape()
    ensures GcsBaseUrl != [] && !EndsWithSep(GcsBaseUrl)
  {
    assert GcsBaseUrl[|GcsBaseUrl| - 1] == 's';
  }

  /** Proof step (no counterpart in the program): the cache directory name is a single non-empty component. */
  lemma CacheDirShape()
    ensures CacheDirName != [] && Sep !in CacheDirName
    ensures [Sep] + CacheDirName + [Sep] == "/oss_fuzz_latest/"
  {
  }

  /** Proof step (no counterpart in the program): regrouping a concatenation. */
  lemma RegroupMiddle(a: string, m: string, b: string)
    ensures a + [Sep] + m + [Sep] + b == a + ([Sep] + m + [Sep]) + b
  {
  }

  /** Proof step (no counterpart in the program): the version file name with the sanitizer spelled out. */
  lemma VersionFileName(p: string)
    ensures p + "-" + Sanitizer + "-latest.version" == p + "-address-latest.version"
  {
    var suffix := "-" + Sanitizer + "-latest.version";
    assert suffix == "-address-latest.version";
    assert p + "-" + Sanitizer + "-latest.version" == p + suffix;
  }

  /** Proof step (no counterpart in the program): regrouping a concatenation. */
  lemma Regroup(a: string, b: string, tail: string)
    ensures a + [Sep] + b + [Sep] + (b + tail) == a + "/" + b + "/" + b + tail
  {
    assert "/" == [Sep];
  }

  // ----- Replaying a crash: REPRODUCE_ATTEMPTS tries, stopping at the first crash -----

  /** Some attempt among the `ReproduceAttempts` invocations starting at `start` exits non-zero. */
  predicate Reproducible(exitCode: nat -> int, start: nat) {
    exists n :: start <= n < start + ReproduceAttempts && exitCode(n) != 0
  }

  /**
   * The invocation after the last one made, when attempts run from `n`:
   * the first non-zero exit stops them, and they stop after the last attempt anyway.
   */
  function RunsFrom(exitCode: nat -> int, start: nat, n: nat): (end: nat)
    requires start <= n < start + ReproduceAttempts
    ensures n < end <= start + ReproduceAttempts
    ensures forall m :: n <= m < end - 1 ==> exitCode(m) == 0
    ensures exitCode(end - 1) != 0 || end == start + ReproduceAttempts
    decreases start + ReproduceAttempts - n
  {
    if exitCode(n) != 0 || n + 1 == start + ReproduceAttempts then n + 1
    else RunsFrom(exitCode, start, n + 1)
  }

  /** How many replays `is_reproducible` makes when its first one is invocation `start`. */
  function Attempts(exitCode: nat -> int, start: nat): nat
  {
    RunsFrom(exitCode, start, start) - start
  }

  /**
   * The replays stop at the first crash: between 1 and 10 of them, all but the
   * last exiting cleanly, and the verdict is whether the last one crashed; a
   * crash that never shows takes all 10.
   */
  lemma AttemptsStopAtFirstCrash(exitCode: nat -> int, start: nat)
    ensures 1 <= Attempts(exitCode, start) <= ReproduceAttempts
    ensures forall n :: start <= n < start + Attempts(exitCode, start) - 1 ==> exitCode(n) == 0
    ensures Reproducible(exitCode, start) <==> exitCode(start + Attempts(exitCode, start) - 1) != 0
    ensures !Reproducible(exitCode, start) ==> Attempts(exitCode, start) == ReproduceAttempts
  {
  }

  /** `k` replays are made exactly when the first `k - 1` exit cleanly and the `k`-th crashes or is the tenth. */
  lemma AttemptsAt(exitCode: nat -> int, start: nat, k: nat)
    requires 1 <= k <= ReproduceAttempts
    requires forall n :: start <= n < start + k - 1 ==> exitCode(n) == 0
    requires exitCode(start + k - 1) != 0 || k == ReproduceAttempts
    ensures Attempts(exitCode, start) == k
  {
  }

  /** Two clean exits and then a crash: reproducible, after three replays. */
  lemma CrashOnThirdAttempt(exitCode: nat -> int)
    requires exitCode(0) == 0 && exitCode(1) == 0 && exitCode(2) != 0
    ensures Reproducible(exitCode, 0) && Attempts(exitCode, 0) == 3
  {
    AttemptsAt(exitCode, 0, 3);
  }

  /** Ten clean exits: not reproducible, after all ten replays. */
  lemma NeverCrashes(exitCode: nat -> int)
    requires forall n: nat :: n < ReproduceAttempts ==> exitCode(n) == 0
    ensures !Reproducible(exitCode, 0) && Attempts(exitCode, 0) == ReproduceAttempts
  {
    AttemptsStopAtFirstCrash(exitCode, 0);
  }

  // ----- The verdict table the classifier is meant to follow -----

  /**
   * The intended verdict: a crash that does not reproduce is no bug; one that
   * does is new unless the target has a project whose published build
   * crashes as well.
   */
  function ExpectedVerdict(inCandidate: bool, projectKnown: bool, inBaseline: bool): Verdict
  {
    if !inCandidate then NotReproducible
    else if !projectKnown then NewRegression
    else if inBaseline then PreExistingBug
    else NewRegression
  }

  // ----- Logging the missing test case (see the findings in the README) -----

  /** The keyword arguments `Logger._log` accepts; `logging.error` hands it all of its own. */
  const LogKeywords: set<string> := {"exc_info", "extra", "stack_info", "stacklevel"}

  /**
   * `logging.error(message, **kwargs)` with ERROR enabled, as it is under the
   * DEBUG root level the module configures: any other keyword raises TypeError.
   */
  function LogError(kwargs: set<string>): Option<PyException>
  {
    if kwargs <= LogKeywords then None else Some(TypeError)
  }

  /** Leaving `fuzz` when no test case was found: log the fact, then return `(None, None)`. */
  function NoTestCaseExit(logKwargs: set<string>): FuzzResult
  {
    match LogError(logKwargs)
    case Some(e) => Raised(e)
    case None => Returned(None, None)
  }

  /** As written, the log call passes `file=sys.stderr`, so `fuzz` raises instead of returning. */
  lemma NoTestCaseExitAsWritten()
    ensures NoTestCaseExit({"file"}) == Raised(TypeError)
  {
    assert "file" !in LogKeywords;
  }

  /** Without that keyword the intended `(None, None)` is returned. */
  lemma NoTestCaseExitIntended()
    ensures NoTestCaseExit({}) == Returned(None, None)
  {
  }

  /** A fuzz target binary, its output directory and the OSS-Fuzz project it belongs to, if any. */
  class FuzzTarget {
    const duration: int
    const targetPath: string
    const outDir: string
    const projectName: Option<string>

    constructor (targetPath: string, duration: int, outDir: string, projectName: Option<string>)
      ensures this.targetPath == targetPath && this.duration == duration
      ensures this.outDir == outDir && this.projectName == projectName
    {
      this.targetPath := targetPath;
      this.duration := duration;
      this.outDir := outDir;
      this.projectName := projectName;
    }

    /** `target_name`: the binary's file name. */
    function TargetName(): string
    {
      Basename(targetPath)
    }

    /** `self.project_name` is truthy: set and not empty. */
    predicate HasProject()
    {
      projectName.Some? && projectName.value != []
    }

    function Project(): string
      requires HasProject()
    {
      projectName.value
    }

    /** The directory the build under test is replayed from: the one holding the binary. */
    function CandidateDir(): string
    {
      Dirname(targetPath)
    }

    function ReproduceCommand(testCase: string, buildDir: string): Command
    {
      Reproduce(buildDir, testCase, TargetName())
    }

    /** `url_join(GCS_BASE_URL, project, '<project>-address-latest.version')`. */
    function VersionUrl(): string
      requires HasProject()
    {
      JoinAll([GcsBaseUrl, Project(), Project() + "-" + Sanitizer + "-latest.version"])
    }

    /** `url_join(GCS_BASE_URL, project, version)`: the archive of a published build. */
    function BuildUrl(version: string): string
      requires HasProject()
    {
      JoinAll([GcsBaseUrl, Project(), version])
    }

    /** Where the latest published build of the project is cached. */
    function BuildDir(): string
      requires HasProject()
    {
      JoinAll([outDir, CacheDirName, Project()])
    }

    /** The binary whose presence makes the cache count as filled. */
    function CachedBinary(): string
      requires HasProject()
    {
      Join(BuildDir(), TargetName())
    }

    /** The path probed for the cached binary is never empty, so the probe can succeed. */
    lemma CachedBinaryNonEmpty()
      requires HasProject()
      ensures CachedBinary() != []
    {
      assert |BuildDir()| >= |Project()|;
      var n := TargetName();
      assert !IsAbsolute(n) by { if n != [] { assert n[0] in n; } }
    }

    /** Replaying in the build under test runs the target's own binary. */
    lemma {:induction false} CandidateRunsTargetBinary()
      requires NoDoubledSep(targetPath)
      ensures Join(CandidateDir(), TargetName()) == targetPath
    {
      JoinDirnameBasename(targetPath);
    }

    /** The version file of project `p` is `<base>/p/p-address-latest.version`. */
    lemma {:induction false} VersionUrlLayout()
      requires HasProject() && Sep !in Project()
      ensures VersionUrl() == GcsBaseUrl + "/" + Project() + "/" + Project() + "-address-latest.version"
    {
      var p := Project();
      var file := p + "-" + Sanitizer + "-latest.version";
      VersionFileName(p);
      BaseUrlShape();
      assert !IsAbsolute(file) by { assert file[0] == p[0]; assert p[0] in p; }
      JoinThree(GcsBaseUrl, p, file);
      Regroup(GcsBaseUrl, p, "-address-latest.version");
    }

    /** The cache of project `p` is `<out_dir>/oss_fuzz_latest/p`. */
    lemma {:induction false} BuildDirLayout()
      requires HasProject() && Sep !in Project()
      requires outDir != [] && !EndsWithSep(outDir)
      ensures BuildDir() == outDir + "/oss_fuzz_latest/" + Project()
    {
      var p := Project();
      assert !IsAbsolute(p) by { assert p[0] in p; }
      CacheDirShape();
      JoinThree(outDir, CacheDirName, p);
      RegroupMiddle(outDir, CacheDirName, p);
    }

    // ----- get_test_case -----

    /** `get_test_case`: the announced reproducer, resolved against the output directory. */
    function GetTestCase(errorString: string): (r: Option<string>)
      ensures r.None? <==> forall i: nat :: !MatchesAt(errorString, i)
      ensures r.Some? ==> r.value != []
      ensures r.Some? ==> TestCasePath(errorString).Some? && r.value == Join(outDir, TestCasePath(errorString).value)
    {
      match TestCasePath(errorString)
      case None => None
      case Some(p) => Some(Join(outDir, p))
    }

    /** A well-formed `Test unit written to ./x` line yields `<out_dir>/x`. */
    lemma {:induction false} GetTestCaseOfAnnouncement(pre: string, x: string, post: string)
      requires !ContainsMarker(pre)
      requires pre == [] || !IsWordChar(pre[|pre| - 1])
      requires x != [] && forall k :: 0 <= k < |x| ==> !IsSpace(x[k])
      requires post == [] || IsSpace(post[0])
      ensures GetTestCase(pre + Marker + x + post) == Some(Join(outDir, x))
    {
      MarkerRoundTrip(pre, x, post);
    }

    // ----- get_lastest_build_version and download_oss_fuzz_build, on values -----

    /** What `get_lastest_build_version` answers, given the bucket's version files. */
    function LatestVersion(versions: map<string, string>): (v: Option<string>)
      ensures !HasProject() ==> v.None?
      ensures v.Some? ==> v.value in versions.Values
    {
      if HasProject() && VersionUrl() in versions then Some(versions[VersionUrl()]) else None
    }

    /** The version answered is the body of `<base>/p/p-address-latest.version`, if the bucket has it. */
    lemma {:induction false} LatestVersionFile(versions: map<string, string>)
      requires HasProject() && Sep !in Project()
      ensures var url := GcsBaseUrl + "/" + Project() + "/" + Project() + "-address-latest.version";
              LatestVersion(versions) == if url in versions then Some(versions[url]) else None
    {
      VersionUrlLayout();
    }

    /** The bucket names a non-empty latest version and holds the archive of that build. */
    predicate ArchivePublished(versions: map<string, string>, archives: map<string, set<string>>)
    {
      var v := LatestVersion(versions);
      v.Some? && v.value != [] && BuildUrl(v.value) in archives
    }

    /** What `download_oss_fuzz_build` does, starting from the existing `paths`. */
    function Acquire(paths: set<string>, versions: map<string, string>, archives: map<string, set<string>>): (a: Acquisition)
      ensures paths <= a.paths
      ensures a.buildDir.Some? ==> HasProject() && a.buildDir.value == BuildDir()
      ensures !PathExists(paths, outDir) || !HasProject() ==> a == Acquisition(None, paths, [])
      ensures PathExists(paths, outDir) && HasProject() && PathExists(paths, CachedBinary()) ==>
        a == Acquisition(Some(BuildDir()), paths, [])
      ensures PathExists(paths, outDir) && HasProject() && !PathExists(paths, CachedBinary()) ==>
        BuildDir() in a.paths && 1 <= |a.requests| <= 2 && a.requests[0] == VersionUrl()
      ensures a.buildDir.Some? ==> PathExists(paths, CachedBinary()) || |a.requests| == 2
    {
      if !PathExists(paths, outDir) || !HasProject() then Acquisition(None, paths, [])
      else if PathExists(paths, CachedBinary()) then Acquisition(Some(BuildDir()), paths, [])
      else Download(paths, versions, archives)
    }

    /**
     * The download on a cache miss: make the cache directory, read the
     * version file, then fetch and unpack the build it names.
     */
    function Download(paths: set<string>, versions: map<string, string>, archives: map<string, set<string>>): (a: Acquisition)
      requires HasProject()
      ensures paths + Directories(BuildDir()) <= a.paths
      ensures 1 <= |a.requests| <= 2 && a.requests[0] == VersionUrl()
      ensures a.buildDir.Some? ==> a.buildDir.value == BuildDir() && |a.requests| == 2
    {
      var made := paths + Directories(BuildDir());
      match LatestVersion(versions)
      case None => Acquisition(None, made, [VersionUrl()])
      case Some(v) =>
        if v == [] then Acquisition(None, made, [VersionUrl()])
        else if BuildUrl(v) !in archives then Acquisition(None, made, [VersionUrl(), BuildUrl(v)])
        else Acquisition(Some(BuildDir()), made + Extracted(BuildDir(), archives[BuildUrl(v)]), [VersionUrl(), BuildUrl(v)])
    }

    /**
     * On a cache miss, a published version whose archive is in the bucket is
     * fetched and unpacked: the build directory is returned, and the cache
     * directory and the archive's entries exist afterwards.
     */
    lemma {:induction false} AcquireOnMissFound(paths: set<string>, versions: map<string, string>, archives: map<string, set<string>>)
      requires PathExists(paths, outDir) && HasProject() && !PathExists(paths, CachedBinary())
      requires ArchivePublished(versions, archives)
      ensures var v := LatestVersion(versions).value;
              Acquire(paths, versions, archives) ==
              Acquisition(Some(BuildDir()), paths + Directories(BuildDir()) + Extracted(BuildDir(), archives[BuildUrl(v)]),
                          [VersionUrl(), BuildUrl(v)])
    {
    }

    /**
     * On a cache miss without a usable published build, nothing is returned
     * and only the cache directory is left behind; the archive is requested
     * only when the version file names a non-empty version.
     */
    lemma {:induction false} AcquireOnMissMissing(paths: set<string>, versions: map<string, string>, archives: map<string, set<string>>)
      requires PathExists(paths, outDir) && HasProject() && !PathExists(paths, CachedBinary())
      requires !ArchivePublished(versions, archives)
      ensures var a := Acquire(paths, versions, archives);
              a.buildDir.None? && a.paths == paths + Directories(BuildDir())
      ensures var v := LatestVersion(versions);
              v.None? || v.value == [] ==> Acquire(paths, versions, archives).requests == [VersionUrl()]
      ensures var v := LatestVersion(versions);
              v.Some? && v.value != [] ==> Acquire(paths, versions, archives).requests == [VersionUrl(), BuildUrl(v.value)]
    {
      var made := paths + Directories(BuildDir());
      match LatestVersion(versions)
      case None =>
        assert Download(paths, versions, archives) == Acquisition(None, made, [VersionUrl()]);
      case Some(v) =>
        if v == [] {
          assert Download(paths, versions, archives) == Acquisition(None, made, [VersionUrl()]);
        } else {
          assert BuildUrl(v) !in archives;
          assert Download(paths, versions, archives) == Acquisition(None, made, [VersionUrl(), BuildUrl(v)]);
        }
    }

    /**
     * A fetch that had to download fills the cache exactly when the archive
     * holds the target's binary.
     */
    lemma {:induction false} DownloadFillsCache(paths: set<string>, versions: map<string, string>, archives: map<string, set<string>>)
      requires forall u, e :: u in archives && e in archives[u] ==> !IsAbsolute(e)
      requires TargetName() != []
      requires HasProject() && !PathExists(paths, CachedBinary())
      requires Acquire(paths, versions, archives).buildDir.Some?
      ensures LatestVersion(versions).Some? && BuildUrl(LatestVersion(versions).value) in archives
      ensures CachedBinary() in Acquire(paths, versions, archives).paths <==>
              TargetName() in archives[BuildUrl(LatestVersion(versions).value)]
    {
      var v := LatestVersion(versions).value;
      var entries := archives[BuildUrl(v)];
      var dir := BuildDir();
      var name := TargetName();
      assert !IsAbsolute(name) by { if name != [] { assert name[0] in name; } }
      assert CachedBinary() !in Directories(dir);
      ExtractedUnder(dir, entries, name);
    }

    /**
     * Fetching twice is fetching once: the second call finds the same build
     * directory and changes nothing on disk, and it makes no request exactly
     * when the first left the binary in the cache.
     */
    lemma {:induction false} AcquireTwice(paths: set<string>, versions: map<string, string>, archives: map<string, set<string>>)
      requires Acquire(paths, versions, archives).buildDir.Some?
      ensures var first := Acquire(paths, versions, archives);
              var second := Acquire(first.paths, versions, archives);
              second.buildDir == first.buildDir && second.paths == first.paths &&
              (second.requests == [] <==> PathExists(first.paths, CachedBinary()))
    {
      var first := Acquire(paths, versions, archives);
      if !PathExists(paths, CachedBinary()) {
        assert first == Download(paths, versions, archives);
        if !PathExists(first.paths, CachedBinary()) {
          DownloadAgain(paths, versions, archives);
        }
      }
    }

    /** A download that succeeded, repeated on the paths it left, leaves them as they are. */
    lemma {:induction false} DownloadAgain(paths: set<string>, versions: map<string, string>, archives: map<string, set<string>>)
      requires HasProject() && Download(paths, versions, archives).buildDir.Some?
      ensures var first := Download(paths, versions, archives);
              Download(first.paths, versions, archives) == first
    {
      var v := LatestVersion(versions).value;
      AddedTwice(paths, Directories(BuildDir()), Extracted(BuildDir(), archives[BuildUrl(v)]));
    }

    // ----- is_crash_a_failure, on values -----

    /**
     * What `is_crash_a_failure` does for `testCase` when its first replay is
     * sandbox invocation `start`: the verdict, the replays it makes, and the
     * effects of fetching the baseline.
     */
    function Classification(testCase: string, exitCode: nat -> int, start: nat,
                            paths: set<string>, versions: map<string, string>, archives: map<string, set<string>>): (c: ClassifierRun)
      ensures c.failure ==> Reproducible(exitCode, start)
      ensures Attempts(exitCode, start) <= |c.commands| <= 2 * ReproduceAttempts
      ensures paths <= c.paths
    {
      var prRuns := Attempts(exitCode, start);
      var inPr := Reproducible(exitCode, start);
      var prCommands := Repeat(ReproduceCommand(testCase, CandidateDir()), prRuns);
      if !HasProject() || !inPr then ClassifierRun(inPr, prCommands, paths, [])
      else
        var acquired := Acquire(paths, versions, archives);
        match acquired.buildDir
        case None => ClassifierRun(false, prCommands, acquired.paths, acquired.requests)
        case Some(dir) =>
          var baseRuns := Attempts(exitCode, start + prRuns);
          var inBaseline := Reproducible(exitCode, start + prRuns);
          var baseCommands := Repeat(ReproduceCommand(testCase, dir), baseRuns);
          ClassifierRun(!inBaseline, prCommands + baseCommands,
                        acquired.paths, acquired.requests)
    }

    /** The classification of a crash that is not compared with a baseline. */
    lemma ClassificationUncompared(testCase: string, exitCode: nat -> int, start: nat,
                                   paths: set<string>, versions: map<string, string>, archives: map<string, set<string>>)
      requires !HasProject() || !Reproducible(exitCode, start) || Acquire(paths, versions, archives).buildDir.None?
      ensures var c := Classification(testCase, exitCode, start, paths, versions, archives);
              c.commands == Repeat(ReproduceCommand(testCase, CandidateDir()), Attempts(exitCode, start)) &&
              c.failure == (!HasProject() && Reproducible(exitCode, start)) &&
              (!HasProject() || !Reproducible(exitCode, start) ==> c.paths == paths && c.requests == []) &&
              (HasProject() && Reproducible(exitCode, start) ==>
                 c.paths == Acquire(paths, versions, archives).paths && c.requests == Acquire(paths, versions, archives).requests)
    {
    }

    /** The classification of a crash that is compared with the baseline build in `dir`. */
    lemma ClassificationCompared(testCase: string, exitCode: nat -> int, start: nat, paths: set<string>,
                                 versions: map<string, string>, archives: map<string, set<string>>, dir: string)
      requires HasProject() && Reproducible(exitCode, start) && Acquire(paths, versions, archives).buildDir == Some(dir)
      ensures var c := Classification(testCase, exitCode, start, paths, versions, archives);
              var k := Attempts(exitCode, start);
              var a := Acquire(paths, versions, archives);
              c == ClassifierRun(!Reproducible(exitCode, start + k),
                                 Repeat(ReproduceCommand(testCase, CandidateDir()), k) +
                                 Repeat(ReproduceCommand(testCase, dir), Attempts(exitCode, start + k)),
                                 a.paths, a.requests)
    {
    }

    /**
     * The invocation log after the two rounds of replays of a compared crash
     * is the log before them followed by the classification's commands.
     */
    lemma ComparedLog(testCase: string, exitCode: nat -> int, paths: set<string>,
                      versions: map<string, string>, archives: map<string, set<string>>, dir: string,
                      before: seq<Command>, mid: seq<Command>, after: seq<Command>)
      requires HasProject() && Reproducible(exitCode, |before|) && Acquire(paths, versions, archives).buildDir == Some(dir)
      requires mid == before + Repeat(ReproduceCommand(testCase, CandidateDir()), Attempts(exitCode, |before|))
      requires after == mid + Repeat(ReproduceCommand(testCase, dir), Attempts(exitCode, |mid|))
      ensures var c := Classification(testCase, exitCode, |before|, paths, versions, archives);
              after == before + c.commands && c.failure == !Reproducible(exitCode, |mid|) &&
              c.paths == Acquire(paths, versions, archives).paths && c.requests == Acquire(paths, versions, archives).requests
    {
      TwoRounds(exitCode, before, mid, after, ReproduceCommand(testCase, CandidateDir()), ReproduceCommand(testCase, dir));
      ClassificationCompared(testCase, exitCode, |before|, paths, versions, archives, dir);
    }

    /**
     * Without a project the verdict is reproducibility in the build under
     * test, replayed from the binary's directory, with no fetch and no second replay.
     */
    lemma NoProjectVerdict(testCase: string, exitCode: nat -> int, start: nat,
                           paths: set<string>, versions: map<string, string>, archives: map<string, set<string>>)
      requires !HasProject()
      ensures var c := Classification(testCase, exitCode, start, paths, versions, archives);
              c.failure == Reproducible(exitCode, start) &&
              c.commands == Repeat(ReproduceCommand(testCase, CandidateDir()), Attempts(exitCode, start)) &&
              c.paths == paths && c.requests == []
    {
    }

    /**
     * With a project: a crash that does not reproduce is no failure and
     * fetches nothing; one whose baseline cannot be fetched is no failure and
     * is not replayed again; otherwise it is a failure exactly when the
     * baseline replays all exit cleanly.
     */
    lemma ProjectVerdict(testCase: string, exitCode: nat -> int, start: nat,
                         paths: set<string>, versions: map<string, string>, archives: map<string, set<string>>)
      requires HasProject()
      ensures var c := Classification(testCase, exitCode, start, paths, versions, archives);
              var k := Attempts(exitCode, start);
              var acquired := Acquire(paths, versions, archives);
              (!Reproducible(exitCode, start) ==> !c.failure && c.requests == [] && c.paths == paths && |c.commands| == k) &&
              (Reproducible(exitCode, start) && acquired.buildDir.None? ==> !c.failure && |c.commands| == k) &&
              (Reproducible(exitCode, start) && acquired.buildDir.Some? ==>
                 c.failure == !Reproducible(exitCode, start + k) &&
                 |c.commands| == k + Attempts(exitCode, start + k) &&
                 c.commands[k] == ReproduceCommand(testCase, BuildDir()))
    {
    }

    /**
     * Where the comparison is made, the classifier reports a failure exactly
     * for a new regression. Where the published build cannot be fetched, the
     * crash reproduces in the project's own build and still no failure is
     * reported: the program gives the answer of a bug already published, not
     * a separate "classification failed" outcome.
     */
    lemma {:induction false} ClassificationFollowsVerdict(testCase: string, exitCode: nat -> int, start: nat,
                                                          paths: set<string>, versions: map<string, string>, archives: map<string, set<string>>)
      ensures var c := Classification(testCase, exitCode, start, paths, versions, archives);
              var inPr := Reproducible(exitCode, start);
              var inBaseline := Reproducible(exitCode, start + Attempts(exitCode, start));
              var compared := !HasProject() || !inPr || Acquire(paths, versions, archives).buildDir.Some?;
              (compared ==> (c.failure <==> ExpectedVerdict(inPr, HasProject(), inBaseline) == NewRegression)) &&
              (!compared ==> inPr && HasProject() && !c.failure)
    {
      if HasProject() {
        ProjectVerdict(testCase, exitCode, start, paths, versions, archives);
      }
    }

    /**
     * The two mocked replays of the integration tests: crashing in the pull
     * request's build only is a new bug; crashing in both is an old one.
     */
    lemma MockedReplays(testCase: string, paths: set<string>, versions: map<string, string>, archives: map<string, set<string>>)
      requires HasProject() && Acquire(paths, versions, archives).buildDir.Some?
      ensures Classification(testCase, n => if n == 0 then 1 else 0, 0, paths, versions, archives).failure
      ensures !Classification(testCase, _ => 1, 0, paths, versions, archives).failure
    {
      var onlyFirst: nat -> int := n => if n == 0 then 1 else 0;
      AttemptsAt(onlyFirst, 0, 1);
      assert Reproducible(onlyFirst, 0) by { assert onlyFirst(0) != 0; }
      var always: nat -> int := _ => 1;
      AttemptsAt(always, 0, 1);
      assert Reproducible(always, 1) by { assert always(1) != 0; }
      ProjectVerdict(testCase, onlyFirst, 0, paths, versions, archives);
      ProjectVerdict(testCase, always, 0, paths, versions, archives);
    }

    // ----- The methods -----

    /**
     * `is_reproducible`: replay the test case in `buildDir` up to ten times,
     * stopping at the first non-zero exit.
     */
    method IsReproducible(testCase: string, buildDir: string, sandbox: Sandbox) returns (reproducible: bool)
      modifies sandbox
      ensures reproducible == Reproducible(sandbox.exitCode, |old(sandbox.invocations)|)
      ensures sandbox.invocations == old(sandbox.invocations) +
        Repeat(ReproduceCommand(testCase, buildDir), Attempts(sandbox.exitCode, |old(sandbox.invocations)|))
    {
      var command := ReproduceCommand(testCase, buildDir);
      ghost var start := |sandbox.invocations|;
      for attempt := 0 to ReproduceAttempts
        invariant sandbox.invocations == old(sandbox.invocations) + Repeat(command, attempt)
        invariant forall n :: start <= n < start + attempt ==> sandbox.exitCode(n) == 0
      {
        var errCode := sandbox.Execute(command);
        assert Repeat(command, attempt) + [command] == Repeat(command, attempt + 1);
        if errCode != 0 {
          AttemptsAt(sandbox.exitCode, start, attempt + 1);
          return true;
        }
      }
      AttemptsAt(sandbox.exitCode, start, ReproduceAttempts);
      return false;
    }

    /** `get_lastest_build_version`: read the project's version file from the bucket. */
    method GetLatestBuildVersion(store: ArtifactStore) returns (version: Option<string>)
      modifies store
      ensures version == LatestVersion(store.versions)
      ensures store.requests == old(store.requests) + (if HasProject() then [VersionUrl()] else [])
    {
      if !HasProject() {
        return None;
      }
      version := store.UrlOpen(VersionUrl());
    }

    /** `download_oss_fuzz_build`: the cached baseline build, fetched into the cache on a miss. */
    method DownloadOssFuzzBuild(fs: FileSystem, store: ArtifactStore) returns (buildDir: Option<string>)
      modifies fs, store
      ensures var a := Acquire(old(fs.paths), store.versions, store.archives);
              buildDir == a.buildDir && fs.paths == a.paths && store.requests == old(store.requests) + a.requests
    {
      if !fs.Exists(outDir) {
        return None;
      }
      if !HasProject() {
        return None;
      }
      var dir := BuildDir();
      if fs.Exists(Join(dir, TargetName())) {
        return Some(dir);
      }
      fs.MakeDirs(dir);
      var latest := GetLatestBuildVersion(store);
      if latest.None? || latest.value == [] {
        return None;
      }
      var url := BuildUrl(latest.value);
      var archive := store.UrlRetrieve(url);
      Concatenated(old(store.requests), VersionUrl(), url);
      if archive.None? {
        return None;
      }
      fs.ExtractAll(archive.value, dir);
      return Some(dir);
    }

    /** `is_crash_a_failure`: whether the crash reproduces here and is not already in the published build. */
    method IsCrashAFailure(testCase: string, sandbox: Sandbox, fs: FileSystem, store: ArtifactStore) returns (failure: bool)
      modifies sandbox, fs, store
      ensures var c := Classification(testCase, sandbox.exitCode, |old(sandbox.invocations)|,
                                      old(fs.paths), store.versions, store.archives);
              failure == c.failure && sandbox.invocations == old(sandbox.invocations) + c.commands &&
              fs.paths == c.paths && store.requests == old(store.requests) + c.requests
    {
      ghost var start := |sandbox.invocations|;
      ghost var paths := fs.paths;
      var reproducibleInPr := IsReproducible(testCase, CandidateDir(), sandbox);
      if !HasProject() || !reproducibleInPr {
        ClassificationUncompared(testCase, sandbox.exitCode, start, paths, store.versions, store.archives);
        return reproducibleInPr;
      }
      var buildDir := DownloadOssFuzzBuild(fs, store);
      if buildDir.None? {
        ClassificationUncompared(testCase, sandbox.exitCode, start, paths, store.versions, store.archives);
        return false;
      }
      ghost var mid := sandbox.invocations;
      var reproducibleInOssFuzz := IsReproducible(testCase, buildDir.value, sandbox);
      ComparedLog(testCase, sandbox.exitCode, paths, store.versions, store.archives, buildDir.value,
                  old(sandbox.invocations), mid, sandbox.invocations);
      failure := reproducibleInPr && !reproducibleInOssFuzz;
    }

    /**
     * `fuzz`, once the fuzzing run is over: nothing on a timeout or without a
     * test case, and the test case with the error text only for a crash the
     * classifier calls a failure.
     */
    method Fuzz(outcome: RunOutcome, sandbox: Sandbox, fs: FileSystem, store: ArtifactStore) returns (r: FuzzResult)
      modifies sandbox, fs, store
      ensures outcome.Timeout? ==> r == Returned(None, None) && unchanged(sandbox, fs, store)
      ensures outcome.Finished? && !IsAscii(outcome.stderr) ==> r == Raised(UnicodeDecodeError) && unchanged(sandbox, fs, store)
      ensures outcome.Finished? && IsAscii(outcome.stderr) && GetTestCase(DecodeAscii(outcome.stderr).value).None? ==>
                r == Returned(None, None) && unchanged(sandbox, fs, store)
      ensures outcome.Finished? && IsAscii(outcome.stderr) && GetTestCase(DecodeAscii(outcome.stderr).value).Some? ==>
                var text := DecodeAscii(outcome.stderr).value;
                var testCase := GetTestCase(text).value;
                var c := Classification(testCase, sandbox.exitCode, |old(sandbox.invocations)|,
                                        old(fs.paths), store.versions, store.archives);
                r == (if c.failure then Returned(Some(testCase), Some(text)) else Returned(None, None)) &&
                sandbox.invocations == old(sandbox.invocations) + c.commands &&
                fs.paths == c.paths && store.requests == old(store.requests) + c.requests
    {
      match outcome
      case Timeout =>
        return Returned(None, None);
      case Finished(err) =>
        var decoded := DecodeAscii(err);
        if decoded.None? {
          return Raised(UnicodeDecodeError);
        }
        var errStr := decoded.value;
        var testCase := GetTestCase(errStr);
        if testCase.None? {
          return NoTestCaseExit({});
        }
        var failure := IsCrashAFailure(testCase.value, sandbox, fs, store);
        if failure {
          return Returned(testCase, Some(errStr));
        }
        return Returned(None, None);
    }
  }
}
