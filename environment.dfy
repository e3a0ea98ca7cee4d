/**
 * The collaborators the fuzz target talks to, reduced to what its decisions
 * depend on: the docker sandbox that replays a test case, the local
 * filesystem, and the Google Cloud Storage bucket holding published builds.
 */
module Environment {
  import opened Wrappers
  import opened Paths

  /**
   * One `docker run ... reproduce <target> -runs=100` invocation: `buildDir`
   * is mounted as /out and `testCase` as /testcase.
   */
  datatype Command = Reproduce(buildDir: string, testCase: string, target: string)

  /** The docker sandbox, with a scripted exit status for its n-th invocation. */
  class Sandbox {
    const exitCode: nat -> int
    var invocations: seq<Command>

    constructor (exitCode: nat -> int)
      ensures this.exitCode == exitCode && invocations == []
    {
      this.exitCode := exitCode;
      invocations := [];
    }

    /** `utils.execute(command)`: runs the command and reports its exit status. */
    method Execute(command: Command) returns (code: int)
      modifies this
      ensures invocations == old(invocations) + [command]
      ensures code == exitCode(|old(invocations)|)
    {
      code := exitCode(|invocations|);
      invocations := invocations + [command];
    }
  }

  /** The local filesystem, as the set of paths that exist (files and directories alike). */
  class FileSystem {
    var paths: set<string>

    constructor (paths: set<string>)
      ensures this.paths == paths
    {
      this.paths := paths;
    }

    /** `os.path.exists`. */
    predicate Exists(p: string)
      reads this
    {
      PathExists(paths, p)
    }

    /** `os.makedirs(p, exist_ok=True)`: every directory on the way to `p` exists afterwards. */
    method MakeDirs(p: string)
      modifies this
      ensures paths == old(paths) + Directories(p)
    {
      paths := paths + Directories(p);
    }

    /** `ZipFile.extractall(dir)` of an archive with the given entry names. */
    method ExtractAll(entries: set<string>, dir: string)
      modifies this
      ensures paths == old(paths) + Extracted(dir, entries)
    {
      paths := paths + Extracted(dir, entries);
    }
  }

  /**
   * The bucket of published builds. `versions` maps the URL of a version file
   * to its body and `archives` the URL of a build archive to its entry names;
   * a URL missing from either is answered with an HTTP error. `requests`
   * records every URL fetched.
   */
  class ArtifactStore {
    const versions: map<string, string>
    const archives: map<string, set<string>>
    var requests: seq<string>

    constructor (versions: map<string, string>, archives: map<string, set<string>>)
      ensures this.versions == versions && this.archives == archives && requests == []
    {
      this.versions := versions;
      this.archives := archives;
      requests := [];
    }

    /** `urllib.request.urlopen(url).read()`, `None` on an HTTP error. */
    method UrlOpen(url: string) returns (body: Option<string>)
      modifies this
      ensures requests == old(requests) + [url]
      ensures body == if url in versions then Some(versions[url]) else None
    {
      requests := requests + [url];
      body := if url in versions then Some(versions[url]) else None;
    }

    /** `urllib.request.urlretrieve(url, ...)`, `None` on an HTTP error. */
    method UrlRetrieve(url: string) returns (archive: Option<set<string>>)
      modifies this
      ensures requests == old(requests) + [url]
      ensures archive == if url in archives then Some(archives[url]) else None
    {
      requests := requests + [url];
      archive := if url in archives then Some(archives[url]) else None;
    }
  }
}
