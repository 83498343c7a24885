/** git/git.go: branch names, the branch record, and the client handle that
    can only be obtained through a successful version probe. */
module Git {
  import opened Wrappers
  import opened Cli

  /** A short branch name, as git prints it with %(refname:short). */
  datatype RefName = RefName(value: string) {
    /** RefName.String: the underlying text, unchanged. */
    function String(): (s: string)
      ensures RefName(s) == this
    {
      value
    }
  }

  /** An instant in time; only the order of instants matters to the program. */
  type Instant = int

  /** A local branch as the listing reports it: its name, whether its
      upstream is gone, the date of its last commit, and the remote it tracks
      ("" when it tracks none). */
  datatype Branch = Branch(name: RefName, gone: bool, commitDate: Instant, remoteName: string)

  /** The client handle: the collaborator together with the version it
      reported. It is built only by NewGit. */
  datatype Client = Client(command: Command, version: Version)

  const UnknownVersion := "cannot recognize git version"

  /** NewGit: probe the version once; on any failure, whatever its cause,
      report the same fixed error and hand out no client; otherwise hand out a
      client holding the same command and exactly the probed version. */
  function NewGit(command: Command): (r: Traced<Result<Client, Error>>)
    ensures r.trace == GetVersion(command).trace
    ensures r.value.Err? <==> GetVersion(command).value.1.Some?
    ensures r.value.Err? ==> r.value.error == Failure(UnknownVersion)
    ensures r.value.Ok? ==> r.value.value.command == command
    ensures r.value.Ok? ==> r.value.value.version == GetVersion(command).value.0
  {
    var probe := GetVersion(command);
    if probe.value.1.Some? then Traced(Err(Failure(UnknownVersion)), probe.trace)
    else Traced(Ok(Client(command, probe.value.0)), probe.trace)
  }

  /** A client exists exactly when git reports a version line the scan
      accepts, and it then carries that version. */
  lemma NewGitGate(command: Command)
    ensures NewGit(command).value.Ok? <==>
      command.call(VersionArgs).Ok? && ScanVersion(command.call(VersionArgs).value).Some?
    ensures NewGit(command).value.Ok? ==>
      NewGit(command).value.value.version == ScanVersion(command.call(VersionArgs).value).value
    ensures NewGit(command).trace == [Call(VersionArgs)]
  {
  }
}
