# git-stale, modelled in Dafny

git-stale lists, and on request deletes, the local branches of a git
repository that have gone stale. A branch is stale when its upstream
branch is gone. With `--since`, it is stale when its last commit is older
than a given instant instead. Positional arguments restrict the selection
to branch names that start with one of the given prefixes. `-d` deletes
the selected branches locally in one `git branch -d` run. `-d --push`
deletes them on their remotes instead, with one `git push --delete` per
remote. `-f` adds `-f` to either command.

The model covers the program from the version probe to the deletion
commands:

- `wrappers.dfy`: `Option` and `Result`, for Go's nil-able values and
  `(value, error)` pairs.
- `strings.dfy`: the parts of Go's standard library that the core relies on:
  - `strings.Index` and `strings.SplitN`, with `Join` only as the inverse
    of `SplitN` in the round-trip lemmas (the program never calls
    `strings.Join`);
  - `bufio.ScanLines`, the line splitter;
  - decimal digit runs.
- `cli.dfy` (git/cli/command.go):
  - the `Command` collaborator, as two oracles;
  - the error kinds the program distinguishes;
  - `Version` and `GetVersion`.
  - Every operation returns its Go result together with the list of `git`
    invocations it made, in order.
- `git.dfy` (git/git.go): `RefName`, the `Branch` record, the client handle,
  and `NewGit`.
- `branches.dfy` (git/branches.go):
  - reading the branch listing;
  - local deletion;
  - remote deletion, grouped by remote in first-seen order.
- `stale.dfy` (cmd/git-stale/main.go):
  - prefix matching, with `strings.HasPrefix`;
  - the two selection policies;
  - the delete / push / list dispatch;
  - the whole run after option parsing, with the lines printed and the exit
    status.

Inputs the program takes from the environment are parameters of the model:

- The `git` process is the `Command` oracle pair. `call` gives the captured
  output or an error, and `run` gives the error of a run.
- Parsing of the committer date is an opaque partial function
  `parseDate: string -> Option<Instant>`, where an `Instant` is an integer.
- The parsed options are an `Options` value. `since` is already an instant.

Reading a listing line follows git/branches.go:

- The line is cut at most three times at `", "`, from the left, so the
  tracking status keeps its own separators ("ahead 1, behind 2").
- The length check at git/branches.go:27 can never fire, because splitting
  always yields at least one piece (`Branches.Fields`,
  `Branches.NeverUnexpectedText`).
- A line with fewer than three pieces makes the Go code index past the end
  of the pieces. That aborts the process. The model returns
  `Error.Panic(index, length)` instead. The whole run maps it to exit
  status 2 with nothing on standard output, which is what the Go runtime
  does.

## Model

| member | source | states |
|---|---|---|
| Strings.Index | git/branches.go:26 | The position found holds the separator and no earlier position does; there is no position exactly when the text does not contain the separator. |
| Strings.SplitN | git/branches.go:26 | A limit of 0 gives no pieces, any other limit at least one and never more than the limit. |
| Strings.SplitNJoins | git/branches.go:26 | For a positive limit, the pieces join back to the input. |
| Strings.SplitNCutsLeftmost | git/branches.go:26 | Every piece but the last is cut at the leftmost separator: it is free of the separator even against the separator that follows it. |
| Strings.SplitNLastWhole | git/branches.go:26 | When fewer pieces come back than the limit allows, the last one holds no separator. |
| Strings.SplitNOfJoin | git/branches.go:26 | Splitting the join of pieces gives back exactly those pieces. This holds when every piece but the last is free of the separator, and the last is too when there are fewer pieces than the limit. |
| Strings.UnborderedSepFree | git/branches.go:12-14 | For a two-character separator with distinct characters, a text that does not contain it cannot produce it against a following separator, so cutting at ", " is unambiguous. |
| Strings.DropCR | git/branches.go:24 | A trailing carriage return is removed, exactly one. A line not ending in a carriage return is unchanged. |
| Strings.ScanLines | git/branches.go:22-25 | No line contains a newline, and there are no lines exactly when the input is empty. |
| Strings.ScanLinesCount | git/branches.go:22-25 | The number of lines is the number of newlines, plus one when the input is non-empty and does not end in a newline. |
| Strings.ScanLinesStep | git/branches.go:22-25 | The text before the first newline, less one trailing carriage return, is the first line, followed by the lines of the rest (so "x\r\r\n" gives "x\r"). |
| Strings.ScanLinesCons | git/branches.go:22-25 | A line with no newline and no trailing carriage return, ended by "\n" or "\r\n", is scanned as that line, followed by the lines of the rest. |
| Strings.ScanLinesOfUnlines | git/branches.go:22-25 | Newline-terminated lines without newlines or trailing carriage returns scan back to themselves. |
| Strings.ScanLinesUnterminated | git/branches.go:22-25 | A non-empty final line without a newline is still returned as a line. |
| Strings.ScanLinesLastDropsCR | git/branches.go:22-25 | A non-empty final line without a newline loses one trailing carriage return, like every other line. |
| Strings.Dec | git/cli/command.go:27 | The decimal spelling of a number is a non-empty digit run whose value is that number. |
| Strings.DigitRunOfDigits | git/cli/command.go:27 | The %d verb consumes exactly the digit run and stops at the first non-digit. |
| Cli.ScanVersion | git/cli/command.go:27 | The `fmt.Fscanf` call on the version output. Every number read is at most Go's `int` maximum. With `Cli.ScanVersionLine` and `Cli.ScanVersionSound`: it accepts exactly a "git version A.B.C\n" line of in-range digit runs, followed by anything, and yields those three values. |
| Cli.Decimal | git/cli/command.go:26-27 | A number is read only up to Go's `int` maximum. The consumed prefix is a non-empty digit run whose value is the number read, and what follows does not start with a digit, so the whole run is consumed. |
| Cli.GetVersion | git/cli/command.go:19-33 | Makes one `git --version` call. A call error comes back unchanged. Otherwise the result is the scanned version, or "cannot parse: " followed by the whole output. Every failure comes with the zero version. |
| Cli.ScanVersionLine | git/cli/command.go:27 | Every "git version A.B.C\n" line with in-range digit runs scans to their values, whatever follows the newline. |
| Cli.ScanVersionOfDec | git/cli/command.go:27-32 | Round trip: the version line printed for a version scans back to that version. |
| Cli.ScanVersionSound | git/cli/command.go:27-29 | The scan accepts nothing but a version line followed by arbitrary text. |
| Cli.ScanVersionIgnoresTail | git/cli/command.go:27-28 | Text after the newline never changes an accepted result. |
| Cli.GetVersionParses | git/cli/version_test.go:29-36 | "git version 1.23.456\n" yields version 1.23.456 and no error. |
| Cli.ScanVersionRejectsTrailing | git/cli/version_test.go:37-44 | A patch number followed by a character that is neither a digit nor a blank is rejected (for example "456a"). |
| Cli.ScanVersionRejectsMissingPatch | git/cli/version_test.go:45-52 | A version without a patch number is rejected: the second dot is followed by the end, a newline ("1.23.\n"), or a character that starts no number. |
| Cli.GetVersionPassesCallError | git/cli/version_test.go:53-60 | A failing call yields the zero version and that very error. |
| Git.RefName.String | git/git.go:23-25 | The text is the name's own text, unchanged. |
| Git.NewGit | git/git.go:32-39 | Makes the same single probe as GetVersion. It fails exactly when the probe fails, always with "cannot recognize git version". On success the client holds the same command and the probed version. |
| Git.NewGitGate | git/git.go:32-39 | A client exists exactly when git answers with a line the version scan accepts, and it carries that version. |
| Branches.Fields | git/branches.go:26 | A line has one to four pieces. |
| Branches.FieldsCutLine | git/branches.go:26 | The pieces join back to the line. No piece before the last holds the separator, and the last holds none when there are fewer than four. |
| Branches.ParseLine | git/branches.go:25-46 | A line parses exactly when it has at least three pieces and the date parses. A one-piece line panics at index 1, and a two-piece line with a good date panics at index 2. A bad date fails with its text. A parsed branch has the first piece as its name, the third as its remote, and the parsed date. It is gone exactly when there are four pieces and the fourth is "gone". |
| Branches.NeverUnexpectedText | git/branches.go:26-29 | Splitting yields at least one piece, so the error "unexpected text returned from git" is never produced. |
| Branches.Traverse | git/branches.go:25-49 | The read loop with its early return. The result is Ok exactly when every element succeeds, and then holds every element's value in order. Otherwise the error is that of the first element that fails, with every earlier element succeeding. |
| Branches.ParseLines | git/branches.go:25-49 | The lines are read in order. All lines parse and give one branch each, or the result is the error of the first line that fails. |
| Branches.GetBranches | git/branches.go:11-50 | Makes one `git branch --format ...` call. A call error is returned unchanged, and otherwise the output is read line by line. |
| Branches.FieldsOfRow | git/branches.go:12-15 | When the first three fields contain no ", ", a printed listing line splits back into exactly its four fields. |
| Branches.ParseFormattedRow | git/branches.go:12-46 | A printed listing line reads back as the branch it describes, with gone exactly when the tracking status is "gone". |
| Branches.ListingScansBack | git/branches.go:22-25 | Readable rows printed one per line are scanned back as exactly those lines. |
| Branches.ParseLinesAllOk | git/branches.go:25-49 | When every line parses, the result is exactly the parsed records, in order. |
| Branches.GetBranchesOfListing | git/branches.go:11-50 | Round trip: when git prints readable rows one per line, GetBranches returns their branches in the same order. |
| Branches.DeleteArgs | git/branches.go:57-63 | The local deletion arguments: two command words, the optional force flag, and one name per branch. With `Branches.DeleteArgsShape`: in that order, names in input order. |
| Branches.DeleteArgsShape | git/branches.go:57-63 | The arguments are `branch -d`, then `-f` when forced, then every branch name in input order. |
| Branches.RemoveBranches | git/branches.go:52-66 | An empty list runs nothing and succeeds. Otherwise exactly one `branch -d` run names all the branches, and its error is the result. |
| Branches.RemoveTwoBranches | git/branches_test.go:96-102 | Deleting branches a and b without force runs `git branch -d a b`. |
| Branches.Remotes | git/branches.go:74-80 | The `remotes` list is never longer than the branch list. With `Branches.RemotesMembers`, `Branches.RemotesDistinct` and `Branches.RemotesInFirstSeenOrder`: it holds each non-empty tracked remote once, in order of first appearance. |
| Branches.RemotesMembers | git/branches.go:73-83 | A name is among the remotes exactly when it is non-empty and some branch tracks it. |
| Branches.RemotesDistinct | git/branches.go:77-79 | No remote is listed twice. |
| Branches.RefsOf | git/branches.go:73-86 | The names grouped under one remote are never more than the branches. With `Branches.RefsOfMembers`: exactly the names of the branches tracking that remote. |
| Branches.RefsOfMembers | git/branches.go:76-82 | A name is listed for a remote exactly when a branch with that name tracks that remote. The list is empty exactly when no branch tracks it. |
| Branches.PushArgs | git/branches.go:87-96 | The push arguments: two command words, the optional force flag, the remote, and one name per ref. With `Branches.PushArgsShape`: in that order, refs in the given order. |
| Branches.PushArgsShape | git/branches.go:87-96 | The arguments are `push --delete`, then `-f` when forced, then the remote, then the names in order. |
| Branches.Pushes | git/branches.go:85-97 | There is one push per remote in first-seen order, each naming that remote's branches. |
| Branches.RunAll | git/branches.go:85-104 | The runs made are a prefix of the batches, and every run but the last succeeded. No error means every batch ran and succeeded; an error is the last run's. |
| Branches.RemoveRemoteBranches | git/branches.go:68-105 | The result is that of running the pushes of Pushes fail-fast (RunAll). The early return for an empty list is the case of no pushes. |
| Branches.ExampleGrouping | git/branches.go:73-83 | Branches on origin, origin, upstream and no remote group as origin [first two] and upstream [third]. |
| Branches.RemoveRemoteExample | git/branches.go:68-105 | That example makes two pushes, origin's first, and never names the untracked branch. |
| Branches.FirstPushFails | git/branches.go:98-101 | When the first push fails, it is the only one made and its error is the result. |
| Branches.GroupByRemote | git/branches.go:73-83 | The map-and-list loop as written computes the same remotes and per-remote names as Remotes and RefsOf. |
| Branches.RemotesInFirstSeenOrder | git/branches.go:74-80 | Of two remotes, the one listed earlier first appears earlier among the branches. |
| Branches.RemoteDeletionCovers | git/branches.go:76-82 | Every branch with a remote is named in that remote's push. The empty remote is never pushed to. |
| Stale.AnyPrefix | cmd/git-stale/main.go:71-77 | True exactly when some listed prefix starts the name. |
| Stale.MatchPrefix | cmd/git-stale/main.go:66-78 | An empty list matches every name. Otherwise a name matches exactly when some prefix starts it. |
| Stale.MatchPrefixScan | cmd/git-stale/main.go:66-78 | The early-return loop as written decides the same relation. |
| Stale.MatchPrefixMonotone | cmd/git-stale/main.go:71-77 | Adding prefixes to a non-empty list never unmatches a name. |
| Stale.EmptyPrefixMatchesAll | cmd/git-stale/main.go:71-75 | An empty prefix in the list matches every name. |
| Stale.Stale | cmd/git-stale/main.go:114-124 | The two selection conditions: without --since, gone and a matching name; with it, a strictly older last commit and a matching name. What `Stale.SelectGone` and `Stale.SelectBefore` state about the selection. |
| Stale.Select | cmd/git-stale/main.go:113-126 | The selection is never longer than the input. |
| Stale.SelectMembers | cmd/git-stale/main.go:113-126 | A branch is selected exactly when it is in the input and stale. |
| Stale.SelectStale | cmd/git-stale/main.go:113-126 | The two appending loops as written compute Select. |
| Stale.SelectSnoc | cmd/git-stale/main.go:115-118 | One more branch at the end of the input adds it at the end of the selection exactly when it is stale. |
| Stale.StaleIndicesSound | cmd/git-stale/main.go:113-126 | Every listed position is in range and holds a stale branch. |
| Stale.StaleIndicesAscending | cmd/git-stale/main.go:113-126 | The listed positions are strictly ascending. |
| Stale.StaleIndicesComplete | cmd/git-stale/main.go:113-126 | Every position that holds a stale branch is listed. |
| Stale.SelectIsStaleSubsequence | cmd/git-stale/main.go:113-126 | The selection is the input at exactly the stale positions, in input order, so it is a subsequence of the input. |
| Stale.SelectGone | cmd/git-stale/main.go:114-119 | Without --since, a branch is selected exactly when it is gone and its name matches. The commit date plays no part. |
| Stale.SelectBefore | cmd/git-stale/main.go:120-125 | With --since, a branch is selected exactly when its commit is strictly older and its name matches. An equal date is not selected, and gone plays no part. |
| Stale.SelectMultiplicity | cmd/git-stale/main.go:113-126 | A stale branch occurs in the selection as often as in the input, and any other branch never. |
| Stale.SelectIdempotent | cmd/git-stale/main.go:113-126 | Selecting again with the same options changes nothing. |
| Stale.Finish | cmd/git-stale/main.go:130-136 | A removal error gives status 1, and its text is printed unless it is a process exit error. Success gives status 0 and prints nothing. |
| Stale.Dispatch | cmd/git-stale/main.go:128-150 | `delete` with `push` performs only remote removal, and `delete` alone only local removal. Otherwise git is not run, the status is 0, and the selected names are printed in order. |
| Stale.DispatchOnlyDeletes | cmd/git-stale/main.go:128-146 | Every invocation of the dispatch is a deleting run: a `push --delete` in push mode, a `branch -d` otherwise. |
| Stale.PushNamesSelected | git/branches.go:85-97 | Past the command words, flags and remote, a push names only branches of the selection. |
| Stale.DispatchNamesOnlySelected | cmd/git-stale/main.go:128-146 | Every name a deletion passes to git is the name of a selected branch. |
| Stale.DeletesOnlyStale | cmd/git-stale/main.go:113-146 | Every name a deletion passes to git belongs to a listed branch that is stale by the options. |
| Stale.GitStale | cmd/git-stale/main.go:101-150 | The version probe comes first. A failed probe prints "cannot recognize git version" and exits 1 after that one call. Otherwise the listing call comes second. If the listing fails, the run stops after those two calls: an index panic exits 2 and prints nothing, and any other error is printed and exits 1. The status is at most 2. |
| Stale.GitStaleAfterListing | cmd/git-stale/main.go:101-129 | Once probe and listing succeed, the run is those two calls followed by the dispatch of the selection. |
| Stale.ListModeOnlyReads | cmd/git-stale/main.go:146-150 | Without --delete, git is only asked for output and never run. When the reads succeed, the stale names are printed in listing order with status 0. |

## Left out

- Strings.SplitN: requires a non-empty separator. Go's `strings.SplitN`
  cuts an empty separator into UTF-8 sequences, and the program only ever
  splits at ", ".
- Strings.ScanLines: no token-size limit. `bufio.Scanner` stops at a line
  longer than 64 KiB. GetBranches never checks `scanner.Err()`, so such a
  line silently ends the listing there. The model reads every line.
- Cli.GetVersion: the scan models only part of `fmt.Fscanf`. Numbers are
  unsigned digit runs, and a value above 2^63-1 is an error. Not modelled:
  a sign before a number, the blanks %d skips before a number, the blanks a
  space in the format matches, and end of input standing in for the final
  newline. The newline in the format also matches blanks (a carriage return
  included) before the input's newline, so Go accepts
  "git version 1.23.456 \n" and "git version 1.23.456\r\n". The model
  rejects both.
- Cli.ScanVersionRejectsTrailing: says nothing about a blank after the
  patch number, since Go accepts blanks followed by the newline. Go's
  rejection of a blank followed by other text is not stated.
- Cli.ScanVersionRejectsMissingPatch: says nothing about a blank or a sign
  after the second dot, since Go skips blanks and reads a sign before a
  number.
- Command output is text (a sequence of characters), not bytes. Encodings
  are not modelled.
- The `exec`-based `actualGitCommand` (cmd/git-stale/main.go:80-92) is not
  modelled. It is replaced by the `Command` oracles. Whatever git prints to
  the inherited standard output and standard error is not modelled, for
  example the "Deleted branch …" lines of `git branch -d`. An `Outcome`
  holds only the lines main itself prints.
- The `call` and `run` oracles never return `Error.Panic`. That constructor
  stands for a runtime panic, which no Go error value can be. An oracle
  that did return it would make `Stale.GitStale` exit 2 silently on a
  listing call error, where Go prints the error and exits 1.
- `run` answers by argument list alone. One operation never repeats an
  argument list, so a collaborator whose answers depend on its history
  behaves like some oracle of this shape.
- Option parsing is not modelled: `getOptions`, the `flag` package, and
  `parseSince` with `time.Parse`, the go-since library and the clock
  (cmd/git-stale/main.go:23-64). Its error path (print, exit 1) is not
  modelled either. The model starts from a parsed `Options` value.
- `time.Parse` with git's date layout is the opaque `parseDate`. Only the
  order of instants matters. `Time.Sub` saturates but keeps its sign, so
  `Sub(since) < 0` is modelled as `<` on instants.
- The `Git` interface and the three-field `Branch` struct at git/git.go:10-19
  are from an older revision of the code and disagree with git/branches.go
  and main.go. The model follows the latter. The fake-based listing test in
  git/branches_test.go, which uses the old signatures, is not part of this
  model.
- The Go index panic is an error value in the model. Only its effect on
  the whole run is modelled: exit status 2 and nothing on standard output.
  The runtime's stack trace on standard error is not modelled.
