/**
 An abstract git repository, the git commands git-paw runs on it, and the two
 procedures it builds from them: rebasing a branch onto the default branch, and
 creating a worktree.
 */
module GitRepository {
  import opened Wrappers
  import opened Text

  /** A commit is its history. */
  datatype Commit = Commit(id: nat, parents: seq<Commit>)

  predicate Ancestor(a: Commit, c: Commit)
    decreases c
  {
    a == c || exists i :: 0 <= i < |c.parents| && Ancestor(a, c.parents[i])
  }

  datatype Head = OnBranch(name: string) | Detached(at: Commit)

  /** What `git rebase --abort` goes back to. */
  datatype Interrupted = Interrupted(head: Head)

  datatype Worktree = Worktree(path: string, head: Head, rebasing: Option<Interrupted>)

  /** `worktrees` in listing order, the main checkout first; `directories` are the paths that exist. */
  datatype Repo = Repo(
    branches: map<string, Commit>,
    worktrees: seq<Worktree>,
    originHead: Option<string>,
    directories: set<string>)

  /** Every HEAD names an existing branch, no branch is checked out twice, no rebase is under way. */
  ghost predicate Settled(r: Repo) {
    && r.worktrees != []
    && (forall i :: 0 <= i < |r.worktrees| ==>
          && r.worktrees[i].rebasing.None?
          && (r.worktrees[i].head.OnBranch? ==> r.worktrees[i].head.name in r.branches)
          && r.worktrees[i].path in r.directories)
    && (forall i, j :: 0 <= i < j < |r.worktrees| ==>
          && r.worktrees[i].path != r.worktrees[j].path
          && (r.worktrees[i].head.OnBranch? ==> r.worktrees[i].head != r.worktrees[j].head))
  }

  // ----- git commands --------------------------------------------------------------------

  /**
   How a rebase that git agrees to start can go: refused over the state of the
   files, before or after switching to the named branch; stopped by a
   conflict; or done, replaying commits with these ids.
   */
  datatype RebaseOutcome = Refused(switched: bool) | Conflict(at: Commit) | Done(replayed: seq<nat>)

  /** A whole rebase, and whether the abort or the checkout behind it fails; the procedure ignores both. */
  datatype RebaseRun = RebaseRun(outcome: RebaseOutcome, abortFails: bool, checkoutFails: bool)

  function Replay(onto: Commit, ids: seq<nat>): (c: Commit)
    decreases |ids|
  {
    if ids == [] then onto else Commit(ids[|ids| - 1], [Replay(onto, ids[..|ids| - 1])])
  }

  predicate CheckedOutElsewhere(r: Repo, at: nat, branch: string) {
    exists i :: 0 <= i < |r.worktrees| && i != at && r.worktrees[i].head == OnBranch(branch)
  }

  function WithHead(r: Repo, at: nat, head: Head): Repo
    requires at < |r.worktrees|
  {
    r.(worktrees := r.worktrees[at := r.worktrees[at].(head := head)])
  }

  function TipOf(r: Repo, head: Head): Option<Commit> {
    match head
    case OnBranch(b) => if b in r.branches then Some(r.branches[b]) else None
    case Detached(c) => Some(c)
  }

  /** git agrees to start: the names exist, no rebase is under way there, and the branch is in no other worktree. */
  predicate GitStarts(r: Repo, at: nat, upstream: string, operand: Option<string>)
    requires at < |r.worktrees|
  {
    var start := if operand.Some? then OnBranch(operand.value) else r.worktrees[at].head;
    && upstream in r.branches && TipOf(r, start).Some? && r.worktrees[at].rebasing.None?
    && !(start.OnBranch? && CheckedOutElsewhere(r, at, start.name))
  }

  /** `git -C <worktree> rebase <upstream> [<operand>]`: whether it succeeded, and the repository after it. */
  function GitRebase(r: Repo, at: nat, upstream: string, operand: Option<string>, outcome: RebaseOutcome): (result: (bool, Repo))
    requires at < |r.worktrees|
    ensures |result.1.worktrees| == |r.worktrees| && result.1.directories == r.directories
  {
    var start := if operand.Some? then OnBranch(operand.value) else r.worktrees[at].head;
    var tip := TipOf(r, start);
    if !GitStarts(r, at, upstream, operand) then (false, r)
    else
      match outcome
      case Refused(switched) => (false, if switched then WithHead(r, at, start) else r)
      case Conflict(c) =>
        (false, r.(worktrees := r.worktrees[at := Worktree(r.worktrees[at].path, Detached(c), Some(Interrupted(start)))]))
      case Done(ids) =>
        var onto := r.branches[upstream];
        var newTip := if Ancestor(onto, tip.value) then tip.value else Replay(onto, ids);
        if start.OnBranch? then
          (true, WithHead(r, at, start).(branches := r.branches[start.name := newTip]))
        else (true, WithHead(r, at, Detached(newTip)))
  }

  /** `git -C <worktree> rebase --abort`. */
  function GitRebaseAbort(r: Repo, at: nat, fails: bool): (after: Repo)
    requires at < |r.worktrees|
    ensures |after.worktrees| == |r.worktrees| && after.directories == r.directories
  {
    var w := r.worktrees[at];
    if fails || w.rebasing.None? then r
    else r.(worktrees := r.worktrees[at := Worktree(w.path, w.rebasing.value.head, None)])
  }

  /** `git -C <worktree> checkout <branch>`; an error leaves everything as it is. */
  function GitCheckout(r: Repo, at: nat, branch: string, fails: bool): (after: Repo)
    requires at < |r.worktrees|
    ensures |after.worktrees| == |r.worktrees| && after.directories == r.directories
  {
    if fails || branch !in r.branches || CheckedOutElsewhere(r, at, branch) || r.worktrees[at].rebasing.Some? then r
    else WithHead(r, at, OnBranch(branch))
  }

  /** The first listed worktree on `branch`. */
  function WorktreeOn(worktrees: seq<Worktree>, branch: string): (r: Option<nat>)
    ensures r.Some? ==> r.value < |worktrees| && worktrees[r.value].head == OnBranch(branch)
    ensures r.None? ==> forall i :: 0 <= i < |worktrees| ==> worktrees[i].head != OnBranch(branch)
  {
    if worktrees == [] then None
    else if worktrees[0].head == OnBranch(branch) then Some(0)
    else
      var r := WorktreeOn(worktrees[1..], branch);
      assert forall i :: 0 <= i < |worktrees| - 1 ==> worktrees[1..][i] == worktrees[i + 1];
      if r.None? then None else Some(r.value + 1)
  }

  // ----- The default branch -----------------------------------------------------------------

  const ORIGIN_PREFIX := "refs/remotes/origin/"

  /** `origin/HEAD` if set, else a local `main`, else a local `master`, else the checked-out branch. */
  function DefaultBranch(r: Repo): Option<string>
    requires r.worktrees != []
  {
    if r.originHead.Some? then
      if StartsWith(r.originHead.value, ORIGIN_PREFIX) then Some(r.originHead.value[|ORIGIN_PREFIX|..]) else None
    else if "main" in r.branches then Some("main")
    else if "master" in r.branches then Some("master")
    else if r.worktrees[0].head.OnBranch? && r.worktrees[0].head.name != "" then Some(r.worktrees[0].head.name)
    else None
  }

  // ----- Rebasing a branch onto the default branch ---------------------------------------------

  /** The whole procedure: whether it reports success, and the repository it leaves. */
  function Rebased(r: Repo, branch: string, listed: bool, run: RebaseRun): (result: (bool, Repo))
    requires r.worktrees != []
    ensures |result.1.worktrees| == |r.worktrees| && result.1.directories == r.directories
  {
    var default := DefaultBranch(r);
    if default.None? then (false, r)
    else
      var occupied := Occupied(r, branch, listed);
      var original := if occupied.None? && r.worktrees[0].head.OnBranch? then Some(r.worktrees[0].head.name) else None;
      var at := if occupied.Some? then occupied.value else 0;
      var (ok, after) := GitRebase(r, at, default.value, if original.Some? then Some(branch) else None, run.outcome);
      var aborted := if ok then after else GitRebaseAbort(after, at, run.abortFails);
      if original.Some? && original.value != branch
      then (ok, GitCheckout(aborted, 0, original.value, run.checkoutFails)) else (ok, aborted)
  }

  /** The worktree that has the branch checked out, as far as the listing answers. */
  function Occupied(r: Repo, branch: string, listed: bool): (at: Option<nat>)
    ensures at.Some? ==> at.value < |r.worktrees| && r.worktrees[at.value].head == OnBranch(branch)
  {
    if listed then WorktreeOn(r.worktrees, branch) else None
  }

  class Git {
    var repo: Repo

    constructor (repo: Repo)
      ensures this.repo == repo
    {
      this.repo := repo;
    }

    method Rebase(at: nat, upstream: string, operand: Option<string>, outcome: RebaseOutcome) returns (ok: bool)
      requires at < |repo.worktrees|
      modifies this
      ensures (ok, repo) == GitRebase(old(repo), at, upstream, operand, outcome)
      ensures |repo.worktrees| == |old(repo).worktrees|
    {
      var (done, after) := GitRebase(repo, at, upstream, operand, outcome);
      ok, repo := done, after;
    }

    /**
     `listed` says whether `git worktree list` answered, `run` how the commands
     go where git leaves it open.
     */
    method RebaseBranchOntoDefault(branch: string, listed: bool, run: RebaseRun) returns (ok: bool)
      requires repo.worktrees != []
      modifies this
      ensures (ok, repo) == Rebased(old(repo), branch, listed, run)
    {
      var default := DefaultBranch(repo);
      if default.None? {
        return false;
      }
      var occupiedAt := Occupied(repo, branch, listed);
      var workdir, originalHead := 0, None;
      if occupiedAt.Some? {
        workdir := occupiedAt.value;
      } else if repo.worktrees[0].head.OnBranch? {
        originalHead := Some(repo.worktrees[0].head.name);
      }
      var operand := if originalHead.Some? then Some(branch) else None;
      ok := Rebase(workdir, default.value, operand, run.outcome);
      if !ok {
        repo := GitRebaseAbort(repo, workdir, run.abortFails);
        if originalHead.Some? && originalHead.value != branch {
          repo := GitCheckout(repo, 0, originalHead.value, run.checkoutFails);
        }
        return;
      }
      if originalHead.Some? && originalHead.value != branch {
        repo := GitCheckout(repo, 0, originalHead.value, run.checkoutFails);
      }
    }

    method CreateWorktree(branch: string, path: string, rebaseOntoMain: bool, run: AddRun)
      returns (result: Option<WorktreeCreation>)
      requires repo.worktrees != []
      modifies this
      ensures (result, repo) == Created(old(repo), branch, path, rebaseOntoMain, run)
    {
      if rebaseOntoMain && branch in repo.branches {
        var ok := RebaseBranchOntoDefault(branch, run.listed, run.rebase);
        if !ok {
          return None;
        }
      }
      if path in repo.directories && run.listed && Registered(repo.worktrees, path, branch) {
        return Some(WorktreeCreation(path, false));
      }
      var (answer, after) := GitWorktreeAdd(repo, path, branch, run.addFails);
      repo := after;
      match answer {
        case Added => return Some(WorktreeCreation(path, false));
        case InvalidReference =>
          var (again, created) := GitWorktreeAddNew(repo, path, branch, run.newFails);
          repo := created;
          return if again then Some(WorktreeCreation(path, true)) else None;
        case OtherError => return None;
      }
    }
  }

  // ----- What a rebase guarantees -----------------------------------------------------------

  lemma {:induction false} ReplayKeepsBase(onto: Commit, ids: seq<nat>)
    ensures Ancestor(onto, Replay(onto, ids))
    decreases |ids|
  {
    if ids != [] {
      ReplayKeepsBase(onto, ids[..|ids| - 1]);
      var c := Replay(onto, ids);
      assert Ancestor(onto, c.parents[0]);
    }
  }

  lemma SameHeads(x: seq<Worktree>, at: nat)
    requires at < |x|
    ensures x[at := x[at].(head := x[at].head)] == x
  {
  }

  /** What a rebase of `branch` may and must do to the branches. */
  ghost predicate BranchesKept(r: Repo, default: string, branch: string, ok: bool, after: Repo) {
    && after.originHead == r.originHead && after.directories == r.directories
    && |after.worktrees| == |r.worktrees|
    && (forall i :: 0 <= i < |r.worktrees| ==> after.worktrees[i].path == r.worktrees[i].path)
    && after.branches.Keys == r.branches.Keys
    && (forall b :: b in r.branches && b != branch ==> after.branches[b] == r.branches[b])
    && (!ok ==> after.branches == r.branches)
    && (ok ==> default in r.branches && branch in r.branches && Ancestor(r.branches[default], after.branches[branch]))
  }

  /** In the worktree that has the branch checked out: undone or done, unless a needed abort fails. */
  lemma RebaseInPlace(r: Repo, at: nat, default: string, branch: string, run: RebaseRun)
    requires Settled(r) && at < |r.worktrees| && r.worktrees[at].head == OnBranch(branch)
    ensures var (ok, after) := GitRebase(r, at, default, None, run.outcome);
            var end := if ok then after else GitRebaseAbort(after, at, run.abortFails);
            && BranchesKept(r, default, branch, ok, end)
            && (end.worktrees == r.worktrees <==>
                (GitStarts(r, at, default, None) && run.outcome.Conflict? ==> !run.abortFails))
  {
    SameHeads(r.worktrees, at);
    if default in r.branches && run.outcome.Done? {
      ReplayKeepsBase(r.branches[default], run.outcome.replayed);
    }
  }

  /** What follows the rebase in the main checkout: an abort if it failed, and the way back. */
  function BackOnMain(r: Repo, branch: string, rebase: (bool, Repo), run: RebaseRun): Repo
    requires |rebase.1.worktrees| == |r.worktrees| > 0 && r.worktrees[0].head.OnBranch?
  {
    var original := r.worktrees[0].head.name;
    var aborted := if rebase.0 then rebase.1 else GitRebaseAbort(rebase.1, 0, run.abortFails);
    if original != branch then GitCheckout(aborted, 0, original, run.checkoutFails) else aborted
  }

  /** The abort and the checkout that a rebase named from the main checkout needs. */
  predicate BackSucceeds(r: Repo, branch: string, run: RebaseRun)
    requires r.worktrees != []
  {
    && (run.outcome.Conflict? ==> !run.abortFails)
    && (r.worktrees[0].head != OnBranch(branch) && run.outcome != Refused(false) ==> !run.checkoutFails)
  }

  ghost predicate MainKept(r: Repo, default: string, branch: string, run: RebaseRun, end: Repo) {
    && r.worktrees != []
    && BranchesKept(r, default, branch, false, end)
    && (end.worktrees == r.worktrees <==>
        (GitStarts(r, 0, default, Some(branch)) ==> BackSucceeds(r, branch, run)))
  }

  lemma FailedFromMain(r: Repo, default: string, branch: string, run: RebaseRun)
    requires Settled(r) && r.worktrees[0].head.OnBranch?
    requires !GitRebase(r, 0, default, Some(branch), run.outcome).0
    ensures MainKept(r, default, branch, run, BackOnMain(r, branch, GitRebase(r, 0, default, Some(branch), run.outcome), run))
  {
    if GitStarts(r, 0, default, Some(branch)) {
      if run.outcome.Conflict? { ConflictFromMain(r, default, branch, run); } else { RefusedFromMain(r, default, branch, run); }
    } else {
      SameHeads(r.worktrees, 0);
    }
  }

  lemma RefusedFromMain(r: Repo, default: string, branch: string, run: RebaseRun)
    requires Settled(r) && r.worktrees[0].head.OnBranch? && run.outcome.Refused?
    requires GitStarts(r, 0, default, Some(branch))
    ensures MainKept(r, default, branch, run, BackOnMain(r, branch, GitRebase(r, 0, default, Some(branch), run.outcome), run))
  {
    hide Ancestor, Replay;
    var after := GitRebase(r, 0, default, Some(branch), run.outcome).1;
    assert forall i :: 1 <= i < |r.worktrees| ==> after.worktrees[i] == r.worktrees[i];
    assert !CheckedOutElsewhere(after, 0, r.worktrees[0].head.name);
  }

  lemma ConflictFromMain(r: Repo, default: string, branch: string, run: RebaseRun)
    requires Settled(r) && r.worktrees[0].head.OnBranch? && run.outcome.Conflict?
    requires GitStarts(r, 0, default, Some(branch))
    ensures MainKept(r, default, branch, run, BackOnMain(r, branch, GitRebase(r, 0, default, Some(branch), run.outcome), run))
  {
    hide Ancestor, Replay;
    var aborted := GitRebaseAbort(GitRebase(r, 0, default, Some(branch), run.outcome).1, 0, run.abortFails);
    assert forall i :: 1 <= i < |r.worktrees| ==> aborted.worktrees[i] == r.worktrees[i];
    assert !CheckedOutElsewhere(aborted, 0, r.worktrees[0].head.name);
  }

  lemma DoneFromMain(r: Repo, default: string, branch: string, run: RebaseRun)
    requires Settled(r) && r.worktrees[0].head.OnBranch?
    requires GitRebase(r, 0, default, Some(branch), run.outcome).0
    ensures var end := BackOnMain(r, branch, GitRebase(r, 0, default, Some(branch), run.outcome), run);
            && BranchesKept(r, default, branch, true, end)
            && (end.worktrees == r.worktrees <==> BackSucceeds(r, branch, run))
  {
    ReplayKeepsBase(r.branches[default], run.outcome.replayed);
    hide Ancestor, Replay;
    var (ok, after) := GitRebase(r, 0, default, Some(branch), run.outcome);
    assert forall i :: 1 <= i < |r.worktrees| ==> after.worktrees[i] == r.worktrees[i];
    assert !CheckedOutElsewhere(after, 0, r.worktrees[0].head.name);
  }

  /** No abort or checkout that the procedure needs fails. */
  predicate Recovers(r: Repo, branch: string, listed: bool, run: RebaseRun)
    requires r.worktrees != []
  {
    var default, occupied := DefaultBranch(r), Occupied(r, branch, listed);
    default.None? ||
    if occupied.Some? then
      GitStarts(r, occupied.value, default.value, None) && run.outcome.Conflict? ==> !run.abortFails
    else
      GitStarts(r, 0, default.value, Some(branch)) ==> BackSucceeds(r, branch, run)
  }

  /**
   With the main checkout on a branch, for every way the listing, the rebase,
   the abort and the checkout can go: no other branch moves, a reported
   failure moves none, a reported success puts the default branch's tip in the
   branch's history; and every HEAD is where it was, with no rebase under way,
   exactly when no abort or checkout that was needed failed.
   */
  lemma RebaseGuarantee(r: Repo, branch: string, listed: bool, run: RebaseRun)
    requires Settled(r) && r.worktrees[0].head.OnBranch?
    ensures var (ok, after) := Rebased(r, branch, listed, run);
            && BranchesKept(r, if DefaultBranch(r).Some? then DefaultBranch(r).value else "", branch, ok, after)
            && (ok ==> DefaultBranch(r).Some?)
            && (after.worktrees == r.worktrees <==> Recovers(r, branch, listed, run))
            && (Recovers(r, branch, listed, run) ==> Settled(after) && (!ok ==> after == r))
  {
    hide GitRebase, GitRebaseAbort, GitCheckout, Ancestor, GitStarts, BackSucceeds, Settled, DefaultBranch, Occupied, Rebased, BackOnMain;
    HasMain(r);
    RebasedIs(r, branch, listed, run);
    var default := DefaultBranch(r);
    var after := Rebased(r, branch, listed, run).1;
    if after.worktrees == r.worktrees && after.branches.Keys == r.branches.Keys { SettledKept(r, after); }
    if default.Some? {
      var occupied := Occupied(r, branch, listed);
      if occupied.Some? {
        RebaseInPlace(r, occupied.value, default.value, branch, run);
      } else if GitRebase(r, 0, default.value, Some(branch), run.outcome).0 {
        DoneStarts(r, 0, default.value, Some(branch), run.outcome);
        DoneFromMain(r, default.value, branch, run);
      } else {
        FailedFromMain(r, default.value, branch, run);
      }
    }
  }

  /** The procedure in its two places: the worktree that has the branch, or the main checkout and back. */
  lemma RebasedIs(r: Repo, branch: string, listed: bool, run: RebaseRun)
    requires r.worktrees != [] && r.worktrees[0].head.OnBranch?
    ensures var default, occupied := DefaultBranch(r), Occupied(r, branch, listed);
            Rebased(r, branch, listed, run) ==
            if default.None? then (false, r)
            else if occupied.Some? then
              var (ok, after) := GitRebase(r, occupied.value, default.value, None, run.outcome);
              (ok, if ok then after else GitRebaseAbort(after, occupied.value, run.abortFails))
            else
              var rebase := GitRebase(r, 0, default.value, Some(branch), run.outcome);
              (rebase.0, BackOnMain(r, branch, rebase, run))
  {
    hide GitRebase, GitRebaseAbort, GitCheckout, DefaultBranch, Occupied;
  }

  lemma HasMain(r: Repo)
    requires Settled(r)
    ensures r.worktrees != []
  {
  }

  lemma SettledKept(r: Repo, after: Repo)
    requires Settled(r) && after.worktrees == r.worktrees
    requires after.branches.Keys == r.branches.Keys && after.directories == r.directories
    ensures Settled(after)
  {
  }

  lemma DoneStarts(r: Repo, at: nat, upstream: string, operand: Option<string>, outcome: RebaseOutcome)
    requires at < |r.worktrees|
    ensures GitRebase(r, at, upstream, operand, outcome).0 ==> GitStarts(r, at, upstream, operand)
  {
  }

  /** Without a branch checked out in the main checkout or anywhere for `branch`, a reported success leaves every branch where it was. */
  lemma DetachedMissesBranch(r: Repo, branch: string, listed: bool, run: RebaseRun)
    requires Settled(r) && r.worktrees[0].head.Detached?
    requires Occupied(r, branch, listed).None?
    ensures Rebased(r, branch, listed, run).1.branches == r.branches
  {
  }

  /** A detached main checkout: the procedure reports success, and the branch lacks the default branch's commit. */
  lemma DetachedExample() returns (r: Repo, run: RebaseRun)
    ensures Settled(r) && DefaultBranch(r) == Some("main") && "work" in r.branches
    ensures var (ok, after) := Rebased(r, "work", true, run);
            ok && after.branches == r.branches && !Ancestor(r.branches["main"], after.branches["work"])
  {
    var base := Commit(0, []);
    var ahead := Commit(1, [base]);
    run := RebaseRun(Done([]), false, false);
    r := Repo(map["main" := ahead, "work" := base], [Worktree("/repo", Detached(base), None)], None, {"/repo"});
    DetachedMissesBranch(r, "work", true, run);
  }

  /**
   A rebase of the user's own, under way in the main checkout, survives
   exactly when the procedure has nothing to do there: no default branch, or
   the branch is checked out in another worktree. Otherwise it is aborted, if
   the abort succeeds.
   */
  lemma UserRebaseKeptIff(r: Repo, branch: string, listed: bool, run: RebaseRun)
    requires r.worktrees != [] && r.worktrees[0].head.Detached? && r.worktrees[0].rebasing.Some?
    ensures Rebased(r, branch, listed, run).1.worktrees[0] == r.worktrees[0]
            <==> DefaultBranch(r).None? || Occupied(r, branch, listed).Some? || run.abortFails
    ensures DefaultBranch(r).Some? && Occupied(r, branch, listed).None? && !run.abortFails ==>
              && !Rebased(r, branch, listed, run).0
              && Rebased(r, branch, listed, run).1.worktrees[0] ==
                 Worktree(r.worktrees[0].path, r.worktrees[0].rebasing.value.head, None)
  {
  }

  /**
   A reported success always means the branch contains the default branch's
   tip, exactly when the main checkout is on a branch, or the branch is found
   checked out somewhere, or it contained that tip already.
   */
  lemma SuccessMeansRebasedIff(r: Repo, branch: string, listed: bool)
    requires Settled(r) && branch in r.branches
    requires DefaultBranch(r).Some? && DefaultBranch(r).value in r.branches
    ensures (forall run :: Rebased(r, branch, listed, run).0 ==>
               branch in Rebased(r, branch, listed, run).1.branches
               && Ancestor(r.branches[DefaultBranch(r).value], Rebased(r, branch, listed, run).1.branches[branch]))
            <==> (|| r.worktrees[0].head.OnBranch?
                  || Occupied(r, branch, listed).Some?
                  || Ancestor(r.branches[DefaultBranch(r).value], r.branches[branch]))
  {
    var default := DefaultBranch(r).value;
    if r.worktrees[0].head.OnBranch? {
      forall run { RebaseGuarantee(r, branch, listed, run); }
    } else if Occupied(r, branch, listed).Some? {
      forall run { RebaseInPlace(r, Occupied(r, branch, listed).value, default, branch, run); }
    } else {
      forall run { DetachedMissesBranch(r, branch, listed, run); }
      assert Rebased(r, branch, listed, RebaseRun(Done([]), false, false)).0;
    }
  }

  // ----- Onto which branch -----------------------------------------------------------------

  /** git lets the procedure rebase the branch: no other worktree holds it, or the listing answered and the rebase runs there. */
  predicate Free(r: Repo, branch: string, listed: bool) {
    listed || forall i :: 1 <= i < |r.worktrees| ==> r.worktrees[i].head != OnBranch(branch)
  }

  /** The rebase succeeded, put the tip of `onto` in the branch's history, and moved no other branch. */
  ghost predicate RebasedOnto(r: Repo, onto: string, branch: string, result: (bool, Repo)) {
    && result.0 && onto in r.branches && branch in result.1.branches
    && Ancestor(r.branches[onto], result.1.branches[branch])
    && result.1.branches.Keys == r.branches.Keys
    && forall b :: b in r.branches && b != branch ==> result.1.branches[b] == r.branches[b]
  }

  lemma DoneSucceeds(r: Repo, onto: string, branch: string, listed: bool, run: RebaseRun)
    requires Settled(r) && r.worktrees[0].head.OnBranch? && DefaultBranch(r) == Some(onto)
    requires onto in r.branches && branch in r.branches && Free(r, branch, listed) && run.outcome.Done?
    ensures RebasedOnto(r, onto, branch, Rebased(r, branch, listed, run))
  {
    RebaseGuarantee(r, branch, listed, run);
    var occupied := Occupied(r, branch, listed);
    hide Ancestor, DefaultBranch, Replay;
    if occupied.Some? {
      assert GitStarts(r, occupied.value, onto, None);
    } else {
      assert GitStarts(r, 0, onto, Some(branch));
    }
  }

  /** With `origin/HEAD` pointing to a branch, a finished rebase lands on the local branch of that name, whatever `main` and `master` are. */
  lemma RebasesOntoOriginHead(r: Repo, onto: string, branch: string, listed: bool, run: RebaseRun)
    requires Settled(r) && r.worktrees[0].head.OnBranch?
    requires r.originHead == Some("refs/remotes/origin/" + onto)
    requires onto in r.branches && branch in r.branches && Free(r, branch, listed) && run.outcome.Done?
    ensures RebasedOnto(r, onto, branch, Rebased(r, branch, listed, run))
  {
    var name := "refs/remotes/origin/" + onto;
    assert name[|ORIGIN_PREFIX|..] == onto;
    DoneSucceeds(r, onto, branch, listed, run);
  }

  /** Without it, on `main`, else on `master`, else on the branch of the main checkout. */
  lemma RebasesOntoLocal(r: Repo, branch: string, listed: bool, run: RebaseRun)
    requires Settled(r) && r.worktrees[0].head.OnBranch? && r.worktrees[0].head.name != ""
    requires r.originHead == None
    requires branch in r.branches && Free(r, branch, listed) && run.outcome.Done?
    ensures var onto := if "main" in r.branches then "main"
                        else if "master" in r.branches then "master" else r.worktrees[0].head.name;
            RebasedOnto(r, onto, branch, Rebased(r, branch, listed, run))
  {
    var onto := if "main" in r.branches then "main"
                else if "master" in r.branches then "master" else r.worktrees[0].head.name;
    DoneSucceeds(r, onto, branch, listed, run);
  }

  /** An `origin/HEAD` outside origin's branches, or one whose branch is not there locally, fails and leaves the branches alone. */
  lemma NowhereToRebase(r: Repo, branch: string, listed: bool, run: RebaseRun)
    requires r.worktrees != [] && r.originHead.Some?
    ensures !("refs/remotes/origin/" <= r.originHead.value) ==> Rebased(r, branch, listed, run) == (false, r)
    ensures (forall b :: b in r.branches ==> r.originHead.value != "refs/remotes/origin/" + b) ==>
              !Rebased(r, branch, listed, run).0 && Rebased(r, branch, listed, run).1.branches == r.branches
  {
    hide Ancestor, Replay;
    if "refs/remotes/origin/" <= r.originHead.value {
      var b := r.originHead.value[|ORIGIN_PREFIX|..];
      assert r.originHead.value == "refs/remotes/origin/" + b;
    }
  }

  // ----- Creating a worktree ------------------------------------------------------------------

  datatype WorktreeCreation = WorktreeCreation(path: string, branchCreated: bool)

  /** How the commands of one creation go, where git leaves it open. */
  datatype AddRun = AddRun(listed: bool, rebase: RebaseRun, addFails: bool, newFails: NewFailure)

  /** A failing `worktree add -b` may already have made the branch. */
  datatype NewFailure = NoFailure | FailsCleanly | FailsLeavingBranch

  datatype AddAnswer = Added | InvalidReference | OtherError

  /** Some listed worktree at `path` is on `branch`. */
  predicate Registered(worktrees: seq<Worktree>, path: string, branch: string) {
    exists i :: 0 <= i < |worktrees| && worktrees[i].path == path && worktrees[i].head == OnBranch(branch)
  }

  predicate CheckedOut(r: Repo, branch: string) {
    exists i :: 0 <= i < |r.worktrees| && r.worktrees[i].head == OnBranch(branch)
  }

  function WithWorktree(r: Repo, path: string, branch: string): Repo {
    r.(worktrees := r.worktrees + [Worktree(path, OnBranch(branch), None)], directories := r.directories + {path})
  }

  /** `git worktree add <path> <branch>`. */
  function GitWorktreeAdd(r: Repo, path: string, branch: string, fails: bool): (AddAnswer, Repo) {
    if branch !in r.branches then (InvalidReference, r)
    else if path in r.directories || CheckedOut(r, branch) || fails then (OtherError, r)
    else (Added, WithWorktree(r, path, branch))
  }

  /** `git worktree add -b <branch> <path>`, starting the branch at HEAD. */
  function GitWorktreeAddNew(r: Repo, path: string, branch: string, failure: NewFailure): (bool, Repo)
    requires r.worktrees != []
  {
    var tip := TipOf(r, r.worktrees[0].head);
    if branch in r.branches || tip.None? || failure.FailsCleanly? then (false, r)
    else
      var branched := r.(branches := r.branches[branch := tip.value]);
      if failure.FailsLeavingBranch? then (false, branched)
      else if path in r.directories then (false, r)
      else (true, WithWorktree(branched, path, branch))
  }

  /** The steps before the worktree commands. */
  function Prepared(r: Repo, branch: string, rebaseOntoMain: bool, run: AddRun): (bool, Repo)
    requires r.worktrees != []
  {
    if rebaseOntoMain && branch in r.branches then Rebased(r, branch, run.listed, run.rebase) else (true, r)
  }

  function Created(r: Repo, branch: string, path: string, rebaseOntoMain: bool, run: AddRun): (Option<WorktreeCreation>, Repo)
    requires r.worktrees != []
  {
    var (ready, base) := Prepared(r, branch, rebaseOntoMain, run);
    if !ready then (None, base) else CreatedOn(base, branch, path, run)
  }

  /** The steps after the rebase. */
  function CreatedOn(base: Repo, branch: string, path: string, run: AddRun): (Option<WorktreeCreation>, Repo)
    requires base.worktrees != []
  {
    if path in base.directories && run.listed && Registered(base.worktrees, path, branch) then
      (Some(WorktreeCreation(path, false)), base)
    else
      var (answer, after) := GitWorktreeAdd(base, path, branch, run.addFails);
      match answer
      case Added => (Some(WorktreeCreation(path, false)), after)
      case OtherError => (None, after)
      case InvalidReference =>
        var (made, created) := GitWorktreeAddNew(after, path, branch, run.newFails);
        (if made then Some(WorktreeCreation(path, true)) else None, created)
  }

  /** The rebase is the only step that looks at the main checkout's HEAD, and it must not be detached for it. */
  ghost predicate Rebasable(r: Repo, rebaseOntoMain: bool) {
    Settled(r) && (rebaseOntoMain ==> r.worktrees[0].head.OnBranch?)
  }

  /** If a rebase was asked for, every abort and checkout it needed succeeded. */
  predicate Undisturbed(r: Repo, branch: string, rebaseOntoMain: bool, run: AddRun)
    requires r.worktrees != []
  {
    rebaseOntoMain && branch in r.branches ==> Recovers(r, branch, run.listed, run.rebase)
  }

  /** The repository just before the worktree commands: rebased if asked, the same worktrees either way. */
  lemma BaseKeeps(r: Repo, branch: string, rebaseOntoMain: bool, run: AddRun)
    requires Rebasable(r, rebaseOntoMain)
    ensures var (ready, base) := Prepared(r, branch, rebaseOntoMain, run);
            && base.directories == r.directories && base.branches.Keys == r.branches.Keys
            && |base.worktrees| == |r.worktrees|
            && (forall b :: b in r.branches && b != branch ==> base.branches[b] == r.branches[b])
            && (Undisturbed(r, branch, rebaseOntoMain, run) ==> Settled(base) && base.worktrees == r.worktrees)
  {
    hide Rebased, Ancestor, Recovers, Settled;
    if rebaseOntoMain && branch in r.branches {
      RebaseGuarantee(r, branch, run.listed, run.rebase);
    }
  }

  /** After a rebase whose way back failed the main checkout is on the branch. */
  lemma StrandedOnBranch(r: Repo, branch: string, rebaseOntoMain: bool, run: AddRun)
    requires Rebasable(r, rebaseOntoMain) && !Undisturbed(r, branch, rebaseOntoMain, run)
    requires Prepared(r, branch, rebaseOntoMain, run).0
    ensures var base := Prepared(r, branch, rebaseOntoMain, run).1;
            && base.worktrees == r.worktrees[0 := r.worktrees[0].(head := OnBranch(branch))]
            && branch in base.branches && Occupied(r, branch, run.listed).None?
  {
    hide Ancestor, Replay;
  }

  /** What a creation that starts from `base` may change. */
  ghost predicate CreationKept(base: Repo, branch: string, path: string, result: Option<WorktreeCreation>, after: Repo) {
    && (result.Some? ==>
          && result.value.path == path
          && (result.value.branchCreated <==> branch !in base.branches)
          && Registered(after.worktrees, path, branch)
          && Settled(after)
          && after.branches.Keys == base.branches.Keys + {branch}
          && (after.worktrees == base.worktrees
              || after.worktrees == base.worktrees + [Worktree(path, OnBranch(branch), None)]))
    && (result.None? ==> after.worktrees == base.worktrees)
    && (forall b :: b in base.branches && b != branch ==> b in after.branches && after.branches[b] == base.branches[b])
  }

  /** A new worktree at a fresh path, on a branch nobody has checked out. */
  lemma AddedIsSettled(r: Repo, path: string, branch: string)
    requires Settled(r) && branch in r.branches && path !in r.directories && !CheckedOut(r, branch)
    ensures Settled(WithWorktree(r, path, branch)) && Registered(WithWorktree(r, path, branch).worktrees, path, branch)
  {
    var added := WithWorktree(r, path, branch).worktrees;
    assert added[|r.worktrees|].path == path;
    assert forall i :: 0 <= i < |r.worktrees| ==> added[i] == r.worktrees[i];
  }

  /** A branch made at HEAD. */
  lemma BranchedIsSettled(r: Repo, branch: string, tip: Commit)
    requires Settled(r) && branch !in r.branches
    ensures var branched := r.(branches := r.branches[branch := tip]);
            Settled(branched) && branched.branches.Keys == r.branches.Keys + {branch} && !CheckedOut(branched, branch)
  {
  }

  lemma CreatedOnKeeps(base: Repo, branch: string, path: string, run: AddRun)
    requires Settled(base)
    ensures var (result, after) := CreatedOn(base, branch, path, run);
            CreationKept(base, branch, path, result, after)
  {
    hide Ancestor, Rebased;
    if path in base.directories && run.listed && Registered(base.worktrees, path, branch) {
      assert branch in base.branches;
      assert base.branches.Keys + {branch} == base.branches.Keys;
    } else if branch in base.branches {
      assert base.branches.Keys + {branch} == base.branches.Keys;
      if path !in base.directories && !CheckedOut(base, branch) {
        AddedIsSettled(base, path, branch);
      }
    } else {
      var tip := TipOf(base, base.worktrees[0].head);
      if tip.Some? {
        BranchedIsSettled(base, branch, tip.value);
        if path !in base.directories {
          hide Settled, Registered;
          AddedIsSettled(base.(branches := base.branches[branch := tip.value]), path, branch);
        }
      }
    }
  }

  /**
   A success hands out the asked path with a worktree on the branch, says the
   branch was created exactly when it did not exist before, adds at most that
   one worktree, and moves no other branch; a failure adds none. When the way
   back from the rebase fails, nothing is created.
   */
  lemma CreationGuarantee(r: Repo, branch: string, path: string, rebaseOntoMain: bool, run: AddRun)
    requires Rebasable(r, rebaseOntoMain) && path != r.worktrees[0].path
    ensures var (result, after) := Created(r, branch, path, rebaseOntoMain, run);
            && (Undisturbed(r, branch, rebaseOntoMain, run) ==> CreationKept(r, branch, path, result, after))
            && (!Undisturbed(r, branch, rebaseOntoMain, run) ==>
                  result.None? && after == Prepared(r, branch, rebaseOntoMain, run).1 && after.branches.Keys == r.branches.Keys
                  && forall b :: b in r.branches && b != branch ==> after.branches[b] == r.branches[b])
  {
    BaseKeeps(r, branch, rebaseOntoMain, run);
    hide Rebased, CreatedOn, Ancestor, Recovers;
    var (ready, base) := Prepared(r, branch, rebaseOntoMain, run);
    if ready {
      if Undisturbed(r, branch, rebaseOntoMain, run) {
        CreatedOnKeeps(base, branch, path, run);
      } else {
        StrandedOnBranch(r, branch, rebaseOntoMain, run);
        NothingCreated(r, base, branch, path, run);
      }
    }
  }

  /** With the main checkout on the branch, git hands it to no other worktree. */
  lemma NothingCreated(r: Repo, base: Repo, branch: string, path: string, run: AddRun)
    requires Settled(r) && path != r.worktrees[0].path && branch in base.branches
    requires base.worktrees == r.worktrees[0 := r.worktrees[0].(head := OnBranch(branch))]
    requires Occupied(r, branch, run.listed).None?
    ensures CreatedOn(base, branch, path, run) == (None, base)
  {
    assert base.worktrees[0].head == OnBranch(branch);
    assert forall i :: 1 <= i < |base.worktrees| ==> base.worktrees[i] == r.worktrees[i];
    assert run.listed ==> !Registered(base.worktrees, path, branch);
  }

  /**
   Where the branches end: without a rebase all of them where they were, a new
   branch at the main checkout's HEAD, and a branch rebased for its creation
   with the default branch's tip in its history.
   */
  lemma CreatedTips(r: Repo, branch: string, path: string, rebaseOntoMain: bool, run: AddRun, onto: string)
    requires Rebasable(r, rebaseOntoMain) && path != r.worktrees[0].path
    requires Created(r, branch, path, rebaseOntoMain, run).0.Some?
    ensures var after := Created(r, branch, path, rebaseOntoMain, run).1.branches;
            && (!rebaseOntoMain ==> forall b :: b in r.branches ==> b in after && after[b] == r.branches[b])
            && (branch !in r.branches ==> branch in after && TipOf(r, r.worktrees[0].head) == Some(after[branch]))
            && (rebaseOntoMain && branch in r.branches && DefaultBranch(r) == Some(onto)
                ==> onto in r.branches && branch in after && Ancestor(r.branches[onto], after[branch]))
  {
    hide Rebased, Ancestor, DefaultBranch, Recovers;
    if rebaseOntoMain && branch in r.branches { RebaseGuarantee(r, branch, run.listed, run.rebase); }
  }

  /** Creating again after a success: the same path, no branch created, the same worktrees. */
  lemma CreateAgain(r: Repo, branch: string, path: string, first: bool, run: AddRun, again: bool, run': AddRun)
    requires Rebasable(r, first || again) && path != r.worktrees[0].path
    requires Created(r, branch, path, first, run).0.Some? && run'.listed
    ensures var once := Created(r, branch, path, first, run).1;
            var (result, twice) := Created(once, branch, path, again, run');
            && once.worktrees != []
            && (result.Some? ==> result.value == WorktreeCreation(path, false))
            && (Undisturbed(once, branch, again, run') ==> twice.worktrees == once.worktrees)
            && (!again ==> result.Some? && twice == once)
  {
    CreationGuarantee(r, branch, path, first, run);
    var once := Created(r, branch, path, first, run).1;
    assert once.worktrees[0] == r.worktrees[0];
    CreationGuarantee(once, branch, path, again, run');
    BaseKeeps(once, branch, again, run');
    hide Rebased, Ancestor, Recovers;
    assert path in once.directories by {
      var i :| 0 <= i < |once.worktrees| && once.worktrees[i].path == path && once.worktrees[i].head == OnBranch(branch);
    }
  }

  // ----- Two branches, one directory ---------------------------------------------------------

  /** The directory name of a child worktree. */
  function BranchSlug(branch: string): string {
    if branch == "" then ""
    else
      var c := branch[0];
      (if c == '/' then "-"
       else if 'A' <= c <= 'Z' || 'a' <= c <= 'z' || '0' <= c <= '9' || c == '.' || c == '_' || c == '-' then [c]
       else "") + BranchSlug(branch[1..])
  }

  function ChildPath(root: string, branch: string): string {
    root + "/.git-paw/worktrees/" + BranchSlug(branch)
  }

  /** Letters, digits, dots, underscores and dashes, all ASCII. */
  predicate SlugSafe(s: string) {
    forall c :: c in s ==>
      'A' <= c <= 'Z' || 'a' <= c <= 'z' || '0' <= c <= '9' || c == '.' || c == '_' || c == '-'
  }

  lemma {:induction false} SlugConcat(a: string, b: string)
    ensures BranchSlug(a + b) == BranchSlug(a) + BranchSlug(b)
    decreases |a|
  {
    if a == "" {
      assert a + b == b;
    } else {
      assert (a + b)[0] == a[0] && (a + b)[1..] == a[1..] + b;
      SlugConcat(a[1..], b);
    }
  }

  lemma {:induction false} SafeIsOwnSlug(s: string)
    requires SlugSafe(s)
    ensures BranchSlug(s) == s
    decreases |s|
  {
    if s != "" {
      assert forall c :: c in s[1..] ==> c in s;
      assert s[0] in s;
      SafeIsOwnSlug(s[1..]);
      assert s == [s[0]] + s[1..];
    }
  }

  lemma SlugOfChar(c: char)
    ensures BranchSlug([c]) == if c == '/' then "-" else if SlugSafe([c]) then [c] else ""
  {
    assert [c][1..] == "" && BranchSlug("") == "";
    assert c in [c] && forall d :: d in [c] ==> d == c;
  }

  /** `feat/auth-flow` gets the directory `feat-auth-flow`: a slash becomes a dash, and any character that is not safe is dropped. */
  lemma ChildPathOf(root: string, a: string, c: char, b: string)
    requires SlugSafe(a) && SlugSafe(b)
    ensures ChildPath(root, a + [c] + b) ==
            root + "/.git-paw/worktrees/" + (a + (if c == '/' then "-" else if SlugSafe([c]) then [c] else "") + b)
  {
    SafeIsOwnSlug(a);
    SafeIsOwnSlug(b);
    SlugOfChar(c);
    SlugConcat(a, [c]);
    SlugConcat(a + [c], b);
  }

  /** A branch whose slug is taken by another branch's worktree is refused, never given that worktree. */
  lemma SlugCollisionRefused(r: Repo, root: string, branch: string, other: string, rebaseOntoMain: bool, run: AddRun)
    requires Rebasable(r, rebaseOntoMain) && r.worktrees[0].path == root
    requires branch != other && BranchSlug(branch) == BranchSlug(other)
    requires Registered(r.worktrees, ChildPath(root, other), other)
    ensures Created(r, branch, ChildPath(root, branch), rebaseOntoMain, run).0.None?
  {
    hide Created, BranchSlug, Recovers;
    var path := ChildPath(root, branch);
    assert |path| > |root|;
    CreationGuarantee(r, branch, path, rebaseOntoMain, run);
    var i :| 0 <= i < |r.worktrees| && r.worktrees[i].path == path && r.worktrees[i].head == OnBranch(other);
    assert forall j :: 0 <= j < |r.worktrees| && j != i ==> r.worktrees[j].path != path;
    var added := r.worktrees + [Worktree(path, OnBranch(branch), None)];
    assert added[i].path == added[|r.worktrees|].path && i < |r.worktrees|;
  }
}
