/** git/branches.go: listing the local branches and deleting them, locally
    in one batch or on their remotes one batch per remote. */
module Branches {
  import opened Wrappers
  import opened Strings
  import opened Cli
  import opened Git

  // ---------------------------------------------------------------------
  // Listing

  /** The field separator of the listing format. The tracking field may
      itself contain it ("ahead 1, behind 2"), so a line is cut at most three
      times, from the left. */
  const FieldSep := ", "

  const ListFormat := "%(refname:short), %(committerdate), %(upstream:remotename), %(upstream:track,nobracket)"

  const ListArgs: Args := ["branch", "--format", ListFormat]

  /** The message of the length check at git/branches.go:27-29, which
      splitting can never trigger. */
  const UnexpectedText := "unexpected text returned from git"

  const BadDate := "unexpected date time format returned from git: "

  /** The pieces of a listing line: at most four, cut at the leftmost
      separators. */
  function Fields(line: string): (f: seq<string>)
    ensures 1 <= |f| <= 4
  {
    SplitN(line, FieldSep, 4)
  }

  /** The pieces of a line join back to the line; no piece but the fourth
      holds a separator, and the fourth may. */
  lemma FieldsCutLine(line: string)
    ensures Join(Fields(line), FieldSep) == line
    ensures forall i :: 0 <= i < |Fields(line)| - 1 ==> !Contains(Fields(line)[i], FieldSep)
    ensures |Fields(line)| < 4 ==> !Contains(Fields(line)[|Fields(line)| - 1], FieldSep)
  {
    var f := Fields(line);
    SplitNJoins(line, FieldSep, 4);
    SplitNCutsLeftmost(line, FieldSep, 4);
    SplitNLastWhole(line, FieldSep, 4);
    forall i | 0 <= i < |f| - 1
      ensures !Contains(f[i], FieldSep)
    {
      SepFreeHasNoSep(f[i], FieldSep);
    }
  }

  /** One listing line to one branch record. The committer date is read by
      `parseDate` (time.Parse with git's default date layout); a line with
      fewer than three pieces makes the Go code index past the end of the
      pieces, which is modelled as a Panic result. */
  function ParseLine(line: string, parseDate: string -> Option<Instant>): (r: Result<Branch, Error>)
    ensures r.Ok? <==> |Fields(line)| >= 3 && parseDate(Fields(line)[1]).Some?
    ensures |Fields(line)| == 1 ==> r == Err(Panic(1, 1))
    ensures |Fields(line)| >= 2 && parseDate(Fields(line)[1]).None? ==>
      r == Err(Failure(BadDate + Fields(line)[1]))
    ensures |Fields(line)| == 2 && parseDate(Fields(line)[1]).Some? ==> r == Err(Panic(2, 2))
    ensures r.Ok? ==> r.value.name == RefName(Fields(line)[0]) && r.value.remoteName == Fields(line)[2]
    ensures r.Ok? ==> r.value.commitDate == parseDate(Fields(line)[1]).value
    ensures r.Ok? ==> (r.value.gone <==> |Fields(line)| == 4 && Fields(line)[3] == "gone")
  {
    var f := Fields(line);
    if |f| < 2 then Err(Panic(1, |f|))
    else match parseDate(f[1])
      case None => Err(Failure(BadDate + f[1]))
      case Some(date) =>
        if |f| < 3 then Err(Panic(2, |f|))
        else Ok(Branch(RefName(f[0]), |f| == 4 && f[3] == "gone", date, f[2]))
  }

  /** The length check of git/branches.go:27-29 never fires: splitting
      always yields at least one piece, so no line fails with its message. */
  lemma NeverUnexpectedText(line: string, parseDate: string -> Option<Instant>)
    ensures |Fields(line)| >= 1
    ensures ParseLine(line, parseDate) != Err(Failure(UnexpectedText))
  {
    var f := Fields(line);
    if |f| >= 2 && parseDate(f[1]).None? {
      assert |UnexpectedText| < |BadDate| <= |BadDate + f[1]|;
    }
  }

  /** Applies `f` to each element in order: all the results, or the error of
      the first element that fails. */
  function Traverse<A, B, E>(xs: seq<A>, f: A -> Result<B, E>): (r: Result<seq<B>, E>)
    ensures r.Ok? <==> forall i :: 0 <= i < |xs| ==> f(xs[i]).Ok?
    ensures r.Ok? ==> |r.value| == |xs|
    ensures r.Ok? ==> forall i :: 0 <= i < |xs| ==> f(xs[i]) == Ok(r.value[i])
    ensures r.Err? ==> exists i :: 0 <= i < |xs| && f(xs[i]) == Err(r.error)
                                  && forall j :: 0 <= j < i ==> f(xs[j]).Ok?
  {
    if xs == [] then Ok([])
    else
      var y :- f(xs[0]);
      var ys :- Traverse(xs[1..], f);
      Ok([y] + ys)
  }

  /** The lines in order: one record per line, or the failure of the first
      line that fails, and then no records at all. */
  function ParseLines(lines: seq<string>, parseDate: string -> Option<Instant>): (r: Result<seq<Branch>, Error>)
    ensures r.Ok? <==> forall i :: 0 <= i < |lines| ==> ParseLine(lines[i], parseDate).Ok?
    ensures r.Ok? ==> |r.value| == |lines|
    ensures r.Ok? ==> forall i :: 0 <= i < |lines| ==> ParseLine(lines[i], parseDate) == Ok(r.value[i])
    ensures r.Err? ==> exists i :: 0 <= i < |lines| && ParseLine(lines[i], parseDate) == Err(r.error)
                                  && forall j :: 0 <= j < i ==> ParseLine(lines[j], parseDate).Ok?
  {
    Traverse(lines, line => ParseLine(line, parseDate))
  }

  /** GetBranches: one `git branch --format ...`; a call error is returned
      unchanged, otherwise the output is read line by line. */
  function GetBranches(client: Client, parseDate: string -> Option<Instant>): (r: Traced<Result<seq<Branch>, Error>>)
    ensures r.trace == [Call(ListArgs)]
    ensures client.command.call(ListArgs).Err? ==> r.value == Err(client.command.call(ListArgs).error)
    ensures client.command.call(ListArgs).Ok? ==>
      r.value == ParseLines(ScanLines(client.command.call(ListArgs).value), parseDate)
  {
    var out := client.command.call(ListArgs);
    if out.Err? then Traced(Err(out.error), [Call(ListArgs)])
    else Traced(ParseLines(ScanLines(out.value), parseDate), [Call(ListArgs)])
  }

  // ---------------------------------------------------------------------
  // What git prints for the listing format, and reading it back

  /** The four expanded fields of one listing line: short name, committer
      date text, upstream remote name, upstream tracking status. */
  datatype Row = Row(name: string, date: string, remote: string, track: string)

  function FormatRow(row: Row): string {
    row.name + FieldSep + row.date + FieldSep + row.remote + FieldSep + row.track
  }

  /** No separator inside the first three fields; the tracking field may
      hold any number. */
  predicate Splittable(row: Row) {
    && !Contains(row.name, FieldSep)
    && !Contains(row.date, FieldSep)
    && !Contains(row.remote, FieldSep)
  }

  /** A row the listing can be read back from: splittable, and a line the
      line scanner returns verbatim. */
  predicate Readable(row: Row) {
    Splittable(row) && IsLine(FormatRow(row))
  }

  function BranchOf(row: Row, parseDate: string -> Option<Instant>): Branch
    requires parseDate(row.date).Some?
  {
    Branch(RefName(row.name), row.track == "gone", parseDate(row.date).value, row.remote)
  }

  lemma FieldsOfRow(row: Row)
    requires Splittable(row)
    ensures Fields(FormatRow(row)) == [row.name, row.date, row.remote, row.track]
  {
    var pieces := [row.name, row.date, row.remote, row.track];
    UnborderedSepFree(row.name, FieldSep);
    UnborderedSepFree(row.date, FieldSep);
    UnborderedSepFree(row.remote, FieldSep);
    assert Join(pieces[3..], FieldSep) == row.track;
    assert Join(pieces[2..], FieldSep) == row.remote + FieldSep + row.track;
    assert Join(pieces, FieldSep) == FormatRow(row);
    SplitNOfJoin(pieces, FieldSep, 4);
  }

  /** Reading a listing line back gives the row's branch: the fourth piece is
      the whole tracking status, separators included, and the branch is gone
      exactly when that status is "gone". */
  lemma ParseFormattedRow(row: Row, parseDate: string -> Option<Instant>)
    requires Splittable(row)
    requires parseDate(row.date).Some?
    ensures ParseLine(FormatRow(row), parseDate) == Ok(BranchOf(row, parseDate))
  {
    FieldsOfRow(row);
  }

  function FormatRows(rows: seq<Row>): (lines: seq<string>)
    ensures |lines| == |rows|
    ensures forall i :: 0 <= i < |rows| ==> lines[i] == FormatRow(rows[i])
  {
    if rows == [] then [] else [FormatRow(rows[0])] + FormatRows(rows[1..])
  }

  function BranchesOf(rows: seq<Row>, parseDate: string -> Option<Instant>): (bs: seq<Branch>)
    requires forall i :: 0 <= i < |rows| ==> parseDate(rows[i].date).Some?
    ensures |bs| == |rows|
    ensures forall i :: 0 <= i < |rows| ==> bs[i] == BranchOf(rows[i], parseDate)
  {
    if rows == [] then [] else [BranchOf(rows[0], parseDate)] + BranchesOf(rows[1..], parseDate)
  }

  lemma ParseRows(rows: seq<Row>, parseDate: string -> Option<Instant>)
    requires forall i :: 0 <= i < |rows| ==> Splittable(rows[i])
    requires forall i :: 0 <= i < |rows| ==> parseDate(rows[i].date).Some?
    ensures ParseLines(FormatRows(rows), parseDate) == Ok(BranchesOf(rows, parseDate))
  {
    var lines, bs := FormatRows(rows), BranchesOf(rows, parseDate);
    forall i | 0 <= i < |rows|
      ensures ParseLine(lines[i], parseDate) == Ok(bs[i])
    {
      assert lines[i] == FormatRow(rows[i]) && bs[i] == BranchOf(rows[i], parseDate);
      ParseFormattedRow(rows[i], parseDate);
    }
    ParseLinesAllOk(lines, parseDate, bs);
  }

  /** When every line parses, ParseLines returns exactly those records. */
  lemma ParseLinesAllOk(lines: seq<string>, parseDate: string -> Option<Instant>, bs: seq<Branch>)
    requires |bs| == |lines|
    requires forall i :: 0 <= i < |lines| ==> ParseLine(lines[i], parseDate) == Ok(bs[i])
    ensures ParseLines(lines, parseDate) == Ok(bs)
  {
    var r := ParseLines(lines, parseDate);
    assert r.Ok?;
    assert r.value == bs;
  }

  /** Whole-listing round trip: when git prints readable rows, one per line,
      GetBranches returns their branches in the same order. */
  lemma GetBranchesOfListing(client: Client, rows: seq<Row>, parseDate: string -> Option<Instant>)
    requires forall i :: 0 <= i < |rows| ==> Readable(rows[i])
    requires forall i :: 0 <= i < |rows| ==> parseDate(rows[i].date).Some?
    requires client.command.call(ListArgs) == Ok(Unlines(FormatRows(rows)))
    ensures GetBranches(client, parseDate).value == Ok(BranchesOf(rows, parseDate))
  {
    ListingScansBack(rows);
    assert forall i :: 0 <= i < |rows| ==> Splittable(rows[i]);
    ParseRows(rows, parseDate);
  }

  /** Readable rows printed one per line are scanned back as the same lines. */
  lemma ListingScansBack(rows: seq<Row>)
    requires forall i :: 0 <= i < |rows| ==> Readable(rows[i])
    ensures ScanLines(Unlines(FormatRows(rows))) == FormatRows(rows)
  {
    var lines := FormatRows(rows);
    forall i | 0 <= i < |lines|
      ensures IsLine(lines[i])
    {
      assert Readable(rows[i]);
    }
    ScanLinesOfUnlines(lines);
  }

  // ---------------------------------------------------------------------
  // Local deletion

  function Names(branches: seq<Branch>): (names: seq<RefName>)
    ensures |names| == |branches|
    ensures forall i :: 0 <= i < |branches| ==> names[i] == branches[i].name
  {
    if branches == [] then [] else [branches[0].name] + Names(branches[1..])
  }

  function Texts(refs: seq<RefName>): (texts: seq<string>)
    ensures |texts| == |refs|
    ensures forall i :: 0 <= i < |refs| ==> texts[i] == refs[i].String()
  {
    if refs == [] then [] else [refs[0].String()] + Texts(refs[1..])
  }

  function ForceFlag(force: bool): Args {
    if force then ["-f"] else []
  }

  /** `git branch -d [-f] <names...>`. */
  function DeleteArgs(force: bool, branches: seq<Branch>): (args: Args)
    ensures |args| == (if force then 3 else 2) + |branches|
  {
    ["branch", "-d"] + ForceFlag(force) + Texts(Names(branches))
  }

  /** The deletion command names every branch, in the given order, after
      the command words and the optional force flag. */
  lemma DeleteArgsShape(force: bool, branches: seq<Branch>)
    ensures |DeleteArgs(force, branches)| == (if force then 3 else 2) + |branches|
    ensures DeleteArgs(force, branches)[..if force then 3 else 2] == ["branch", "-d"] + ForceFlag(force)
    ensures forall i :: 0 <= i < |branches| ==>
      DeleteArgs(force, branches)[(if force then 3 else 2) + i] == branches[i].name.value
  {
    var head, names := ["branch", "-d"] + ForceFlag(force), Texts(Names(branches));
    var args := DeleteArgs(force, branches);
    assert args == head + names;
    assert args[..|head|] == head;
    forall i | 0 <= i < |branches|
      ensures args[|head| + i] == branches[i].name.value
    {
      assert args[|head| + i] == names[i];
    }
  }

  /** RemoveBranches: nothing to delete runs nothing; otherwise exactly one
      run deletes all the branches and its error is the result. */
  function RemoveBranches(client: Client, force: bool, branches: seq<Branch>): (r: Traced<Option<Error>>)
    ensures branches == [] ==> r.value.None? && r.trace == []
    ensures branches != [] ==> r.trace == [Run(DeleteArgs(force, branches))]
    ensures branches != [] ==> r.value == client.command.run(DeleteArgs(force, branches))
  {
    if |branches| == 0 then Traced(None, [])
    else
      var args := DeleteArgs(force, branches);
      Traced(client.command.run(args), [Run(args)])
  }

  /** The second case of the package's deletion test. */
  lemma RemoveTwoBranches(client: Client, a: Branch, b: Branch)
    requires a.name == RefName("a") && b.name == RefName("b")
    ensures RemoveBranches(client, false, [a, b]).trace == [Run(["branch", "-d", "a", "b"])]
  {
    var args := DeleteArgs(false, [a, b]);
    assert args == ["branch", "-d", "a", "b"];
  }

  // ---------------------------------------------------------------------
  // Remote deletion

  /** The distinct non-empty remote names of the branches, in the order of
      their first appearance. */
  function Remotes(branches: seq<Branch>): (remotes: seq<string>)
    ensures |remotes| <= |branches|
  {
    if branches == [] then []
    else
      var last := branches[|branches| - 1];
      var earlier := Remotes(branches[..|branches| - 1]);
      if last.remoteName == "" || last.remoteName in earlier then earlier
      else earlier + [last.remoteName]
  }

  /** A name is among the remotes exactly when it is non-empty and some
      branch tracks it. */
  lemma {:induction false} RemotesMembers(branches: seq<Branch>)
    ensures forall r :: r in Remotes(branches) <==>
      r != "" && exists i :: 0 <= i < |branches| && branches[i].remoteName == r
    decreases |branches|
  {
    if branches != [] {
      var prefix := branches[..|branches| - 1];
      RemotesMembers(prefix);
      assert forall i :: 0 <= i < |prefix| ==> prefix[i] == branches[i];
    }
  }

  /** No remote is listed twice. */
  lemma {:induction false} RemotesDistinct(branches: seq<Branch>)
    ensures forall i, j :: 0 <= i < j < |Remotes(branches)| ==> Remotes(branches)[i] != Remotes(branches)[j]
    decreases |branches|
  {
    if branches != [] {
      RemotesDistinct(branches[..|branches| - 1]);
    }
  }

  /** The names of the branches tracking `remote`, in their input order. */
  function RefsOf(branches: seq<Branch>, remote: string): (refs: seq<RefName>)
    ensures |refs| <= |branches|
  {
    if branches == [] then []
    else
      var last := branches[|branches| - 1];
      var earlier := RefsOf(branches[..|branches| - 1], remote);
      if last.remoteName == remote then earlier + [last.name] else earlier
  }

  /** A name is among a remote's refs exactly when a branch of that name
      tracks the remote; the refs are empty exactly when no branch does. */
  lemma {:induction false} RefsOfMembers(branches: seq<Branch>, remote: string)
    ensures forall x :: x in RefsOf(branches, remote) <==>
      exists i :: 0 <= i < |branches| && branches[i].remoteName == remote && branches[i].name == x
    ensures RefsOf(branches, remote) == [] <==> forall i :: 0 <= i < |branches| ==> branches[i].remoteName != remote
    decreases |branches|
  {
    if branches != [] {
      var prefix := branches[..|branches| - 1];
      RefsOfMembers(prefix, remote);
      assert forall i :: 0 <= i < |prefix| ==> prefix[i] == branches[i];
    }
  }

  /** `git push --delete [-f] <remote> <names...>`. */
  function PushArgs(force: bool, remote: string, refs: seq<RefName>): (args: Args)
    ensures |args| == (if force then 4 else 3) + |refs|
  {
    ["push", "--delete"] + ForceFlag(force) + [remote] + Texts(refs)
  }

  /** The push names the remote and then every ref, in the given order,
      after the command words and the optional force flag. */
  lemma PushArgsShape(force: bool, remote: string, refs: seq<RefName>)
    ensures |PushArgs(force, remote, refs)| == (if force then 4 else 3) + |refs|
    ensures PushArgs(force, remote, refs)[..if force then 4 else 3] == ["push", "--delete"] + ForceFlag(force) + [remote]
    ensures forall i :: 0 <= i < |refs| ==>
      PushArgs(force, remote, refs)[(if force then 4 else 3) + i] == refs[i].value
  {
    var head, names := ["push", "--delete"] + ForceFlag(force) + [remote], Texts(refs);
    var args := PushArgs(force, remote, refs);
    assert args == head + names;
    assert args[..|head|] == head;
    forall i | 0 <= i < |refs|
      ensures args[|head| + i] == refs[i].value
    {
      assert args[|head| + i] == names[i];
    }
  }

  /** One push per remote, in first-seen order. */
  function Pushes(force: bool, branches: seq<Branch>): (pushes: seq<Args>)
    ensures |pushes| == |Remotes(branches)|
    ensures forall k :: 0 <= k < |pushes| ==>
      pushes[k] == PushArgs(force, Remotes(branches)[k], RefsOf(branches, Remotes(branches)[k]))
  {
    var remotes := Remotes(branches);
    seq(|remotes|, k requires 0 <= k < |remotes| => PushArgs(force, remotes[k], RefsOf(branches, remotes[k])))
  }

  /** Runs the batches in order and stops at the first that fails: the runs
      made are a prefix of the batches, all but the last of them succeeded,
      and the result is the last one's error, or none when every batch ran
      and succeeded. */
  function RunAll(command: Command, batches: seq<Args>): (r: Traced<Option<Error>>)
    ensures |r.trace| <= |batches|
    ensures forall k :: 0 <= k < |r.trace| ==> r.trace[k] == Run(batches[k])
    ensures forall k :: 0 <= k < |r.trace| - 1 ==> command.run(batches[k]).None?
    ensures r.value.None? ==> |r.trace| == |batches| && forall k :: 0 <= k < |batches| ==> command.run(batches[k]).None?
    ensures r.value.Some? ==> |r.trace| > 0 && r.value == command.run(batches[|r.trace| - 1])
  {
    if batches == [] then Traced(None, [])
    else
      var e := command.run(batches[0]);
      if e.Some? then Traced(e, [Run(batches[0])])
      else
        var rest := RunAll(command, batches[1..]);
        Traced(rest.value, [Run(batches[0])] + rest.trace)
  }

  /** RemoveRemoteBranches: one push per distinct non-empty remote, in
      first-seen order, each listing that remote's branches in input order;
      the first failing push ends the operation with its error. The early
      return for no branches is the case of no pushes at all. */
  function RemoveRemoteBranches(client: Client, force: bool, branches: seq<Branch>): (r: Traced<Option<Error>>)
    ensures r == RunAll(client.command, Pushes(force, branches))
  {
    if |branches| == 0 then
      assert Remotes(branches) == [];
      Traced(None, [])
    else RunAll(client.command, Pushes(force, branches))
  }

  lemma ExampleGrouping(a: Branch, b: Branch, c: Branch, d: Branch)
    requires a.remoteName == "origin" && b.remoteName == "origin"
    requires c.remoteName == "upstream" && d.remoteName == ""
    ensures Remotes([a, b, c, d]) == ["origin", "upstream"]
    ensures RefsOf([a, b, c, d], "origin") == [a.name, b.name]
    ensures RefsOf([a, b, c, d], "upstream") == [c.name]
  {
    var bs := [a, b, c, d];
    assert bs[..3] == [a, b, c] && bs[..3][..2] == [a, b] && bs[..3][..2][..1] == [a];
    assert [a, b][..1] == [a];
    assert Remotes([a]) == ["origin"];
    assert Remotes([a, b]) == ["origin"];
    assert Remotes([a, b, c]) == ["origin", "upstream"];
    assert RefsOf([a, b], "origin") == [a.name, b.name];
    assert RefsOf([a, b], "upstream") == [];
  }

  /** Two branches on origin, one on upstream and one tracking nothing: two
      pushes, origin's first, and the untracked branch is named in neither. */
  lemma RemoveRemoteExample(client: Client, a: Branch, b: Branch, c: Branch, d: Branch)
    requires a.remoteName == "origin" && b.remoteName == "origin"
    requires c.remoteName == "upstream" && d.remoteName == ""
    requires forall args :: client.command.run(args).None?
    ensures RemoveRemoteBranches(client, false, [a, b, c, d]) == Traced(None, [
      Run(["push", "--delete", "origin", a.name.value, b.name.value]),
      Run(["push", "--delete", "upstream", c.name.value])])
  {
    ExampleGrouping(a, b, c, d);
    var first := PushArgs(false, "origin", [a.name, b.name]);
    var second := PushArgs(false, "upstream", [c.name]);
    assert first == ["push", "--delete", "origin", a.name.value, b.name.value];
    assert second == ["push", "--delete", "upstream", c.name.value];
    var r := RemoveRemoteBranches(client, false, [a, b, c, d]);
    assert r.trace == [Run(first), Run(second)];
  }

  /** Fail-fast: when the first push fails, it is the only one made. */
  lemma FirstPushFails(client: Client, force: bool, branches: seq<Branch>)
    requires Remotes(branches) != []
    requires client.command.run(Pushes(force, branches)[0]).Some?
    ensures RemoveRemoteBranches(client, force, branches)
      == Traced(client.command.run(Pushes(force, branches)[0]), [Run(Pushes(force, branches)[0])])
  {
  }

  /** The grouping loop of git/branches.go:73-83 as written: a map from
      remote to names and a list of remotes, where a remote is new when its
      map entry is still empty. It computes the same grouping as Remotes and
      RefsOf. */
  method GroupByRemote(branches: seq<Branch>) returns (remotes: seq<string>, refs: map<string, seq<RefName>>)
    ensures remotes == Remotes(branches)
    ensures forall r :: r in refs <==> r in remotes
    ensures forall r :: r in refs ==> refs[r] == RefsOf(branches, r)
  {
    remotes := [];
    refs := map[];
    for i := 0 to |branches|
      invariant remotes == Remotes(branches[..i])
      invariant forall r :: r in refs <==> r in remotes
      invariant forall r :: r in refs ==> refs[r] == RefsOf(branches[..i], r) && refs[r] != []
    {
      var branch := branches[i];
      assert branches[..i + 1][..i] == branches[..i];
      RemotesMembers(branches[..i]);
      RefsOfMembers(branches[..i], branch.remoteName);
      if branch.remoteName != "" {
        var known := if branch.remoteName in refs then refs[branch.remoteName] else [];
        if |known| == 0 {
          remotes := remotes + [branch.remoteName];
        }
        refs := refs[branch.remoteName := known + [branch.name]];
      }
    }
    assert branches[..|branches|] == branches;
  }

  /** First-seen order: of two remotes, the one listed earlier first appears
      earlier among the branches. */
  lemma {:induction false} RemotesInFirstSeenOrder(branches: seq<Branch>, k: nat, l: nat, i: nat, j: nat)
    requires k < l < |Remotes(branches)|
    requires i < |branches| && branches[i].remoteName == Remotes(branches)[k]
    requires forall p :: 0 <= p < i ==> branches[p].remoteName != Remotes(branches)[k]
    requires j < |branches| && branches[j].remoteName == Remotes(branches)[l]
    requires forall p :: 0 <= p < j ==> branches[p].remoteName != Remotes(branches)[l]
    ensures i < j
    decreases |branches|
  {
    var n := |branches|;
    var prefix := branches[..n - 1];
    var earlier := Remotes(prefix);
    var rs := Remotes(branches);
    RemotesMembers(prefix);
    assert rs[..|earlier|] == earlier;
    // Remote k is already among the earlier remotes, so it occurs in the prefix.
    assert rs[k] in earlier;
    var i' :| 0 <= i' < |prefix| && prefix[i'] .remoteName == rs[k];
    assert i <= i';
    if l < |earlier| {
      assert rs[l] in earlier;
      var j' :| 0 <= j' < |prefix| && prefix[j'].remoteName == rs[l];
      assert j <= j';
      RemotesInFirstSeenOrder(prefix, k, l, i, j);
    } else {
      // Remote l was added for the last branch: it does not occur before it.
      assert rs[l] == branches[n - 1].remoteName;
      assert rs[l] !in earlier;
      assert j == n - 1;
    }
  }

  /** Every branch that tracks a remote is named in that remote's push; a
      branch without a remote is named in none. */
  lemma RemoteDeletionCovers(branches: seq<Branch>, i: nat)
    requires i < |branches|
    ensures branches[i].remoteName != "" ==>
      branches[i].remoteName in Remotes(branches) && branches[i].name in RefsOf(branches, branches[i].remoteName)
    ensures "" !in Remotes(branches)
  {
    RemotesMembers(branches);
    RefsOfMembers(branches, branches[i].remoteName);
  }
}
