/** cmd/git-stale/main.go: choose the stale branches from the listing and
    list them, delete them locally, or delete them on their remotes. */
module Stale {
  import opened Wrappers
  import opened Strings
  import opened Cli
  import opened Git
  import opened Branches

  /** The parsed command line: -d/--delete, -f/--force, the positional
      prefixes, --since as an instant (None when not given), --push. */
  datatype Options = Options(delete: bool, force: bool, prefixes: seq<string>, since: Option<Instant>, push: bool)

  // ---------------------------------------------------------------------
  // Prefix matching

  /** Some listed prefix starts `s` (strings.HasPrefix). */
  function AnyPrefix(s: string, prefixes: seq<string>): (b: bool)
    ensures b <==> exists i :: 0 <= i < |prefixes| && prefixes[i] <= s
  {
    if prefixes == [] then false
    else prefixes[0] <= s || AnyPrefix(s, prefixes[1..])
  }

  /** matchPrefix: no prefixes match every name; otherwise a name matches
      when any one of the prefixes starts it. */
  function MatchPrefix(s: string, prefixes: seq<string>): (b: bool)
    ensures prefixes == [] ==> b
    ensures prefixes != [] ==> (b <==> exists i :: 0 <= i < |prefixes| && prefixes[i] <= s)
  {
    |prefixes| < 1 || AnyPrefix(s, prefixes)
  }

  /** matchPrefix as written: an early `true` for an empty list, then a scan
      that returns at the first prefix that starts the name. */
  method MatchPrefixScan(s: string, prefixes: seq<string>) returns (b: bool)
    ensures b <==> prefixes == [] || exists i :: 0 <= i < |prefixes| && prefixes[i] <= s
  {
    if |prefixes| < 1 {
      return true;
    }
    for i := 0 to |prefixes|
      invariant forall p :: 0 <= p < i ==> !(prefixes[p] <= s)
    {
      if prefixes[i] <= s {
        return true;
      }
    }
    return false;
  }

  /** Adding prefixes never makes a name stop matching a non-empty list. */
  lemma MatchPrefixMonotone(s: string, prefixes: seq<string>, more: seq<string>)
    requires prefixes != []
    ensures MatchPrefix(s, prefixes) ==> MatchPrefix(s, prefixes + more)
  {
    if MatchPrefix(s, prefixes) {
      var i :| 0 <= i < |prefixes| && prefixes[i] <= s;
      assert (prefixes + more)[i] == prefixes[i];
    }
  }

  /** The empty prefix matches every name, like an empty list. */
  lemma EmptyPrefixMatchesAll(s: string, prefixes: seq<string>)
    requires "" in prefixes
    ensures MatchPrefix(s, prefixes)
  {
    var i :| 0 <= i < |prefixes| && prefixes[i] == "";
    assert prefixes[i] <= s;
  }

  // ---------------------------------------------------------------------
  // Selection

  /** The loop condition of main.go: without --since, the upstream is gone;
      with it, the last commit is strictly older than the given instant
      (time.Time.Sub saturates but keeps its sign, so `Sub(since) < 0` is
      "before"). Either way the name must match a prefix. */
  predicate Stale(b: Branch, opts: Options) {
    && (if opts.since.None? then b.gone else b.commitDate < opts.since.value)
    && MatchPrefix(b.name.String(), opts.prefixes)
  }

  /** The selection loops: the stale branches, in input order. */
  function Select(branches: seq<Branch>, opts: Options): (selected: seq<Branch>)
    ensures |selected| <= |branches|
  {
    if branches == [] then []
    else if Stale(branches[0], opts) then [branches[0]] + Select(branches[1..], opts)
    else Select(branches[1..], opts)
  }

  /** The selection holds exactly the stale branches of the listing. */
  lemma {:induction false} SelectMembers(branches: seq<Branch>, opts: Options)
    ensures forall b :: b in Select(branches, opts) <==> b in branches && Stale(b, opts)
    decreases |branches|
  {
    if branches != [] {
      SelectMembers(branches[1..], opts);
      assert branches == [branches[0]] + branches[1..];
    }
  }

  /** The two selection loops as written, appending each stale branch in
      turn; they compute Select. */
  method SelectStale(branches: seq<Branch>, opts: Options) returns (selected: seq<Branch>)
    ensures selected == Select(branches, opts)
  {
    selected := [];
    if opts.since.None? {
      for i := 0 to |branches|
        invariant selected == Select(branches[..i], opts)
      {
        var ref := branches[i];
        SelectSnoc(branches[..i], ref, opts);
        assert branches[..i + 1] == branches[..i] + [ref];
        if ref.gone && MatchPrefix(ref.name.String(), opts.prefixes) {
          selected := selected + [ref];
        }
      }
    } else {
      for i := 0 to |branches|
        invariant selected == Select(branches[..i], opts)
      {
        var ref := branches[i];
        SelectSnoc(branches[..i], ref, opts);
        assert branches[..i + 1] == branches[..i] + [ref];
        if ref.commitDate < opts.since.value && MatchPrefix(ref.name.String(), opts.prefixes) {
          selected := selected + [ref];
        }
      }
    }
    assert branches[..|branches|] == branches;
  }

  /** The positions of the stale branches, ascending. */
  function StaleIndices(branches: seq<Branch>, opts: Options): seq<nat>
    decreases |branches|
  {
    if branches == [] then []
    else
      var last := |branches| - 1;
      StaleIndices(branches[..last], opts) + (if Stale(branches[last], opts) then [last] else [])
  }

  lemma {:induction false} StaleIndicesSound(branches: seq<Branch>, opts: Options)
    ensures forall k :: 0 <= k < |StaleIndices(branches, opts)| ==>
      StaleIndices(branches, opts)[k] < |branches| && Stale(branches[StaleIndices(branches, opts)[k]], opts)
    decreases |branches|
  {
    if branches != [] {
      var last := |branches| - 1;
      var prefix := branches[..last];
      StaleIndicesSound(prefix, opts);
      var earlier := StaleIndices(prefix, opts);
      var idx := StaleIndices(branches, opts);
      forall k | 0 <= k < |idx|
        ensures idx[k] < |branches| && Stale(branches[idx[k]], opts)
      {
        if k < |earlier| {
          assert idx[k] == earlier[k] && prefix[earlier[k]] == branches[earlier[k]];
        }
      }
    }
  }

  lemma {:induction false} StaleIndicesAscending(branches: seq<Branch>, opts: Options)
    ensures forall k, l :: 0 <= k < l < |StaleIndices(branches, opts)| ==>
      StaleIndices(branches, opts)[k] < StaleIndices(branches, opts)[l]
    decreases |branches|
  {
    if branches != [] {
      var last := |branches| - 1;
      var prefix := branches[..last];
      StaleIndicesAscending(prefix, opts);
      StaleIndicesSound(prefix, opts);
      var earlier := StaleIndices(prefix, opts);
      var idx := StaleIndices(branches, opts);
      forall k, l | 0 <= k < l < |idx|
        ensures idx[k] < idx[l]
      {
        assert idx[k] == earlier[k];
        if l < |earlier| {
          assert idx[l] == earlier[l];
        } else {
          assert idx[l] == last;
        }
      }
    }
  }

  lemma {:induction false} StaleIndicesComplete(branches: seq<Branch>, opts: Options)
    ensures forall i :: 0 <= i < |branches| && Stale(branches[i], opts) ==> i in StaleIndices(branches, opts)
    decreases |branches|
  {
    if branches != [] {
      var last := |branches| - 1;
      var prefix := branches[..last];
      StaleIndicesComplete(prefix, opts);
      var earlier := StaleIndices(prefix, opts);
      var idx := StaleIndices(branches, opts);
      forall i | 0 <= i < |branches| && Stale(branches[i], opts)
        ensures i in idx
      {
        if i < last {
          assert prefix[i] == branches[i];
          assert i in earlier;
          assert idx[..|earlier|] == earlier;
        } else {
          assert idx[|idx| - 1] == last;
        }
      }
    }
  }

  /** Selection picks exactly the stale positions of the input, keeping their
      order: it is the subsequence of the input at StaleIndices. */
  lemma {:induction false} SelectIsStaleSubsequence(branches: seq<Branch>, opts: Options)
    ensures var idx := StaleIndices(branches, opts);
      && |Select(branches, opts)| == |idx|
      && forall k :: 0 <= k < |idx| ==> idx[k] < |branches| && Select(branches, opts)[k] == branches[idx[k]]
    decreases |branches|
  {
    StaleIndicesSound(branches, opts);
    if branches != [] {
      var last := |branches| - 1;
      var prefix := branches[..last];
      SelectIsStaleSubsequence(prefix, opts);
      SelectSnoc(prefix, branches[last], opts);
      assert prefix + [branches[last]] == branches;
    }
  }

  /** Selecting from a list with one more branch at the end. */
  lemma {:induction false} SelectSnoc(branches: seq<Branch>, b: Branch, opts: Options)
    ensures Select(branches + [b], opts) == Select(branches, opts) + (if Stale(b, opts) then [b] else [])
    decreases |branches|
  {
    if branches == [] {
      assert [b][1..] == [];
    } else {
      assert (branches + [b])[1..] == branches[1..] + [b];
      SelectSnoc(branches[1..], b, opts);
    }
  }

  /** Without --since: a branch is selected exactly when its upstream is gone
      and its name matches; the commit date plays no part. */
  lemma SelectGone(branches: seq<Branch>, opts: Options, b: Branch)
    requires opts.since.None?
    ensures b in Select(branches, opts) <==> b in branches && b.gone && MatchPrefix(b.name.value, opts.prefixes)
  {
  }

  /** With --since: a branch is selected exactly when its last commit is
      strictly older and its name matches; a branch committed at that very
      instant is not selected, and being gone plays no part. */
  lemma SelectBefore(branches: seq<Branch>, opts: Options, b: Branch)
    requires opts.since.Some?
    ensures b in Select(branches, opts) <==>
      b in branches && b.commitDate < opts.since.value && MatchPrefix(b.name.value, opts.prefixes)
    ensures b.commitDate == opts.since.value ==> b !in Select(branches, opts)
  {
  }

  /** A stale branch occurs in the selection as often as in the input, any
      other branch not at all. */
  lemma {:induction false} SelectMultiplicity(branches: seq<Branch>, opts: Options, b: Branch)
    ensures multiset(Select(branches, opts))[b] == if Stale(b, opts) then multiset(branches)[b] else 0
    decreases |branches|
  {
    if branches != [] {
      SelectMultiplicity(branches[1..], opts, b);
      assert branches == [branches[0]] + branches[1..];
    }
  }

  /** Selecting again with the same options changes nothing. */
  lemma {:induction false} SelectIdempotent(branches: seq<Branch>, opts: Options)
    ensures Select(Select(branches, opts), opts) == Select(branches, opts)
    decreases |branches|
  {
    if branches != [] {
      SelectIdempotent(branches[1..], opts);
      if Stale(branches[0], opts) {
        var s := Select(branches, opts);
        assert s[0] == branches[0] && s[1..] == Select(branches[1..], opts);
      }
    }
  }

  // ---------------------------------------------------------------------
  // Dispatch and the whole run

  /** What the run leaves behind: the lines main itself prints on standard
      output (git's own output to the inherited streams is not included), the
      exit status, and the git invocations in order. */
  datatype Outcome = Outcome(stdout: seq<string>, code: nat, trace: seq<Invocation>)

  /** How main reports a removal error: a process exit error is not printed
      (git has already said why), any other error is; the status is 1. */
  function Finish(removal: Traced<Option<Error>>): (o: Outcome)
    ensures o.trace == removal.trace
    ensures o.code == 0 <==> removal.value.None?
    ensures o.code != 0 ==> o.code == 1
    ensures o.code == 0 || removal.value.value.ExitError? ==> o.stdout == []
    ensures o.code != 0 && !removal.value.value.ExitError? ==> o.stdout == [removal.value.value.Text()]
  {
    match removal.value
    case None => Outcome([], 0, removal.trace)
    case Some(e) => Outcome(if e.ExitError? then [] else [e.Text()], 1, removal.trace)
  }

  /** The dispatch of main.go: --delete with --push removes on the remotes,
      --delete alone removes locally, and otherwise the selected names are
      printed one per line, in order, and git is not run at all. */
  function Dispatch(client: Client, opts: Options, selected: seq<Branch>): (o: Outcome)
    ensures opts.delete && opts.push ==> o.trace == RemoveRemoteBranches(client, opts.force, selected).trace
    ensures opts.delete && !opts.push ==> o.trace == RemoveBranches(client, opts.force, selected).trace
    ensures opts.delete && opts.push ==> o == Finish(RemoveRemoteBranches(client, opts.force, selected))
    ensures opts.delete && !opts.push ==> o == Finish(RemoveBranches(client, opts.force, selected))
    ensures !opts.delete ==> o.trace == [] && o.code == 0
    ensures !opts.delete ==> |o.stdout| == |selected|
    ensures !opts.delete ==> forall i :: 0 <= i < |selected| ==> o.stdout[i] == selected[i].name.value
  {
    if opts.delete && opts.push then Finish(RemoveRemoteBranches(client, opts.force, selected))
    else if opts.delete then Finish(RemoveBranches(client, opts.force, selected))
    else Outcome(Texts(Names(selected)), 0, [])
  }

  lemma PushArgsStart(force: bool, remote: string, refs: seq<RefName>)
    ensures |PushArgs(force, remote, refs)| >= 2 && PushArgs(force, remote, refs)[..2] == ["push", "--delete"]
  {
    var args := PushArgs(force, remote, refs);
    PushArgsShape(force, remote, refs);
    assert args[..2] == (args[..if force then 4 else 3])[..2];
  }

  lemma DeleteArgsStart(force: bool, branches: seq<Branch>)
    ensures |DeleteArgs(force, branches)| >= 2 && DeleteArgs(force, branches)[..2] == ["branch", "-d"]
  {
    var args := DeleteArgs(force, branches);
    DeleteArgsShape(force, branches);
    assert args[..2] == (args[..if force then 3 else 2])[..2];
  }

  lemma RemoteRunsArePushes(client: Client, force: bool, selected: seq<Branch>)
    ensures var t := RemoveRemoteBranches(client, force, selected).trace;
      forall k :: 0 <= k < |t| ==> t[k].Run? && |t[k].args| >= 2 && t[k].args[..2] == ["push", "--delete"]
  {
    var t := RemoveRemoteBranches(client, force, selected).trace;
    var remotes := Remotes(selected);
    forall k | 0 <= k < |t|
      ensures t[k].Run? && |t[k].args| >= 2 && t[k].args[..2] == ["push", "--delete"]
    {
      PushArgsStart(force, remotes[k], RefsOf(selected, remotes[k]));
    }
  }

  lemma LocalRunsAreBranchDeletes(client: Client, force: bool, selected: seq<Branch>)
    ensures var t := RemoveBranches(client, force, selected).trace;
      forall k :: 0 <= k < |t| ==> t[k].Run? && |t[k].args| >= 2 && t[k].args[..2] == ["branch", "-d"]
  {
    DeleteArgsStart(force, selected);
  }

  /** Every git invocation of the dispatch deletes: each is a run, remote
      deletions are pushes and local ones `branch -d`, and never both. */
  lemma DispatchOnlyDeletes(client: Client, opts: Options, selected: seq<Branch>)
    ensures var t := Dispatch(client, opts, selected).trace;
      forall k :: 0 <= k < |t| ==>
        && t[k].Run?
        && |t[k].args| >= 2
        && t[k].args[..2] == (if opts.push then ["push", "--delete"] else ["branch", "-d"])
  {
    if opts.delete && opts.push {
      RemoteRunsArePushes(client, opts.force, selected);
    } else if opts.delete {
      LocalRunsAreBranchDeletes(client, opts.force, selected);
    }
  }

  /** The first argument position after the command words and flags. */
  function NamesStart(opts: Options): nat {
    (if opts.push then 3 else 2) + (if opts.force then 1 else 0)
  }

  lemma RemoteRunNamesSelected(client: Client, force: bool, selected: seq<Branch>, k: nat, j: nat)
    requires k < |RemoveRemoteBranches(client, force, selected).trace|
    requires (if force then 4 else 3) <= j < |RemoveRemoteBranches(client, force, selected).trace[k].args|
    ensures exists i :: (0 <= i < |selected|
      && selected[i].name.value == RemoveRemoteBranches(client, force, selected).trace[k].args[j])
  {
    var t := RemoveRemoteBranches(client, force, selected).trace;
    assert t[k] == Run(Pushes(force, selected)[k]);
    PushNamesSelected(force, selected, k, j);
  }

  /** Past the command words, flags and remote, a push names only branches
      of the selection. */
  lemma PushNamesSelected(force: bool, selected: seq<Branch>, k: nat, j: nat)
    requires k < |Pushes(force, selected)|
    requires (if force then 4 else 3) <= j < |Pushes(force, selected)[k]|
    ensures exists i :: 0 <= i < |selected| && selected[i].name.value == Pushes(force, selected)[k][j]
  {
    var remote := Remotes(selected)[k];
    var refs := RefsOf(selected, remote);
    var args := Pushes(force, selected)[k];
    assert args == PushArgs(force, remote, refs);
    PushArgsShape(force, remote, refs);
    var p := j - if force then 4 else 3;
    assert args[j] == refs[p].value;
    RefsOfMembers(selected, remote);
    assert refs[p] in refs;
    var i :| 0 <= i < |selected| && selected[i].remoteName == remote && selected[i].name == refs[p];
    assert selected[i].name.value == args[j];
  }

  lemma LocalRunNamesSelected(client: Client, force: bool, selected: seq<Branch>, k: nat, j: nat)
    requires k < |RemoveBranches(client, force, selected).trace|
    requires (if force then 3 else 2) <= j < |RemoveBranches(client, force, selected).trace[k].args|
    ensures exists i :: (0 <= i < |selected|
      && selected[i].name.value == RemoveBranches(client, force, selected).trace[k].args[j])
  {
    var n := if force then 3 else 2;
    var t := RemoveBranches(client, force, selected).trace;
    assert selected != [] && k == 0;
    assert t[k] == Run(DeleteArgs(force, selected));
    DeleteArgsShape(force, selected);
    assert t[k].args[j] == selected[j - n].name.value;
  }

  /** Nothing but a selected branch is ever named in a deletion. */
  lemma DispatchNamesOnlySelected(client: Client, opts: Options, selected: seq<Branch>, k: nat, j: nat)
    requires k < |Dispatch(client, opts, selected).trace|
    requires NamesStart(opts) <= j < |Dispatch(client, opts, selected).trace[k].args|
    ensures exists i :: 0 <= i < |selected| && selected[i].name.value == Dispatch(client, opts, selected).trace[k].args[j]
  {
    if opts.push {
      RemoteRunNamesSelected(client, opts.force, selected, k, j);
    } else {
      LocalRunNamesSelected(client, opts.force, selected, k, j);
    }
  }

  /** The whole run after option parsing: probe the version, list the
      branches, select the stale ones, dispatch. A failed probe or listing
      prints its error and exits with 1; an index panic while reading the
      listing aborts with the Go runtime's status 2 and prints nothing on
      standard output. */
  function GitStale(command: Command, opts: Options, parseDate: string -> Option<Instant>): (o: Outcome)
    ensures |o.trace| >= 1 && o.trace[0] == Call(VersionArgs)
    ensures NewGit(command).value.Err? ==> o == Outcome([UnknownVersion], 1, [Call(VersionArgs)])
    ensures NewGit(command).value.Ok? ==> |o.trace| >= 2 && o.trace[1] == Call(ListArgs)
    ensures NewGit(command).value.Ok? ==>
      var listing := GetBranches(NewGit(command).value.value, parseDate).value;
      listing.Err? && listing.error.Panic? ==> o == Outcome([], 2, [Call(VersionArgs), Call(ListArgs)])
    ensures NewGit(command).value.Ok? ==>
      var listing := GetBranches(NewGit(command).value.value, parseDate).value;
      listing.Err? && !listing.error.Panic? ==>
        o == Outcome([listing.error.Text()], 1, [Call(VersionArgs), Call(ListArgs)])
    ensures o.code <= 2
  {
    var client := NewGit(command);
    match client.value
    case Err(e) => Outcome([e.Text()], 1, client.trace)
    case Ok(c) =>
      var listing := GetBranches(c, parseDate);
      match listing.value
      case Err(e) =>
        if e.Panic? then Outcome([], 2, client.trace + listing.trace)
        else Outcome([e.Text()], 1, client.trace + listing.trace)
      case Ok(branches) =>
        var d := Dispatch(c, opts, Select(branches, opts));
        var queries := client.trace + listing.trace;
        assert queries == [Call(VersionArgs), Call(ListArgs)];
        Outcome(d.stdout, d.code, queries + d.trace)
  }

  /** Without --delete the run only reads: git is asked for its version and
      the listing and nothing else, and when both succeed the stale names
      are printed in listing order with status 0. */
  lemma ListModeOnlyReads(command: Command, opts: Options, parseDate: string -> Option<Instant>)
    requires !opts.delete
    ensures forall k :: 0 <= k < |GitStale(command, opts, parseDate).trace| ==> GitStale(command, opts, parseDate).trace[k].Call?
    ensures NewGit(command).value.Ok? && GetBranches(NewGit(command).value.value, parseDate).value.Ok? ==>
      var selected := Select(GetBranches(NewGit(command).value.value, parseDate).value.value, opts);
      && GitStale(command, opts, parseDate).code == 0
      && |GitStale(command, opts, parseDate).stdout| == |selected|
      && forall i :: 0 <= i < |selected| ==> GitStale(command, opts, parseDate).stdout[i] == selected[i].name.value
  {
  }

  /** Once the probe and the listing succeed, the run is the two reads
      followed by the dispatch of the selection. */
  lemma GitStaleAfterListing(command: Command, opts: Options, parseDate: string -> Option<Instant>)
    requires NewGit(command).value.Ok?
    requires GetBranches(NewGit(command).value.value, parseDate).value.Ok?
    ensures var c := NewGit(command).value.value;
      var d := Dispatch(c, opts, Select(GetBranches(c, parseDate).value.value, opts));
      GitStale(command, opts, parseDate) == Outcome(d.stdout, d.code, [Call(VersionArgs), Call(ListArgs)] + d.trace)
  {
    var probe := NewGit(command);
    var listing := GetBranches(probe.value.value, parseDate);
    var d := Dispatch(probe.value.value, opts, Select(listing.value.value, opts));
    assert probe.trace == [Call(VersionArgs)];
    assert listing.trace == [Call(ListArgs)];
  }

  /** A deletion names only branches that are stale by the options: ones the
      listing reported and that pass the selection condition. */
  lemma DeletesOnlyStale(client: Client, opts: Options, branches: seq<Branch>, k: nat, j: nat)
    requires k < |Dispatch(client, opts, Select(branches, opts)).trace|
    requires NamesStart(opts) <= j < |Dispatch(client, opts, Select(branches, opts)).trace[k].args|
    ensures exists b :: (b in branches && Stale(b, opts)
      && b.name.value == Dispatch(client, opts, Select(branches, opts)).trace[k].args[j])
  {
    var selected := Select(branches, opts);
    DispatchNamesOnlySelected(client, opts, selected, k, j);
    var i :| 0 <= i < |selected| && selected[i].name.value == Dispatch(client, opts, selected).trace[k].args[j];
    SelectMembers(branches, opts);
    assert selected[i] in selected;
  }
}
