/**
  The whole audit as `main` runs it once the repository is open: the self-merge
  audit, then the authorisation audit, then the exit status.
 */
module Audit {
  import opened Issues
  import opened Outcomes
  import opened Commits
  import opened Baselines
  import opened Tracer
  import opened SelfMerge
  import opened Roles
  import opened Permissions

  /** Both audits over the history ending at `head`, starting from an empty
      ledger. */
  function RunAudit(g: Graph, rank: map<Id, nat>, head: Id): (o: Outcome)
    requires WellFormed(g, rank) && head in g
    ensures o.Abort? ==> o.code == Error
    ensures o.Abort? <==> CheckMergesByBranchAuthors(g, rank, head, map[]).Abort?
  {
    match CheckMergesByBranchAuthors(g, rank, head, map[])
    case Ok(l) => CheckMergePermissions(g, rank, head, l)
    case other => other
  }

  /** The status the process exits with. */
  function ExitStatus(o: Outcome): (code: int)
    ensures o.Ok? ==> (code == AuditOk <==> o.ledger == map[])
    ensures o.Ok? && o.ledger != map[] ==> code == AuditFailed
    ensures o.Abort? ==> code == o.code
    ensures o.Crash? ==> code == UncaughtException
  {
    match o
    case Ok(l) =>
      assert |l| == 0 ==> l.Keys == {};
      if |l| == 0 then AuditOk else AuditFailed
    case Abort(c) => c
    case Crash(_) => UncaughtException
  }

  /** The audit ends with status 0, 1 or 2, and with 0 exactly when it
      completes with an empty ledger. */
  lemma ExitStatusOfAudit(g: Graph, rank: map<Id, nat>, head: Id)
    requires WellFormed(g, rank) && head in g
    ensures ExitStatus(RunAudit(g, rank, head)) in {AuditOk, AuditFailed, Error}
    ensures ExitStatus(RunAudit(g, rank, head)) == AuditOk <==> RunAudit(g, rank, head) == Ok(map[])
  {
  }

  /** A repository whose head has no `ROLES` file never passes. */
  lemma NoRolesNeverPasses(g: Graph, rank: map<Id, nat>, head: Id)
    requires WellFormed(g, rank) && head in g
    requires g[head].roles.None?
    ensures ExitStatus(RunAudit(g, rank, head)) != AuditOk
  {
    var o := RunAudit(g, rank, head);
    if o.Ok? {
      assert Recorded(o.ledger, NoRolesFile, NoEvidence);
    }
  }

  /** The second trunk walk, inside the authorisation audit, adds nothing: the
      first one already flagged every non-merge trunk commit. */
  lemma SecondTrunkWalkAddsNothing(g: Graph, rank: map<Id, nat>, head: Id)
    requires WellFormed(g, rank) && head in g
    requires CheckMergesByBranchAuthors(g, rank, head, map[]).Ok?
    ensures var l := CheckMergesByBranchAuthors(g, rank, head, map[]).ledger;
      FindBaselines(g, rank, head, l).1 == l
  {
    var l := CheckMergesByBranchAuthors(g, rank, head, map[]).ledger;
    var (b, l1) := FindBaselines(g, rank, head, map[]);
    FindBaselinesEvidence(g, rank, head, map[]);
    SameOutsideEvidence(l1, l, {SelfMerged}, NonMergeOnTrunk);
    BaselinesIgnoreLedger(g, rank, head, map[], l);
    FindBaselinesAgainChangesNothing(g, rank, head, l);
  }

  /** A clean run leaves both audits with an empty ledger. */
  lemma CleanRunLedgers(g: Graph, rank: map<Id, nat>, head: Id)
    requires WellFormed(g, rank) && head in g
    requires ExitStatus(RunAudit(g, rank, head)) == AuditOk
    ensures CheckMergesByBranchAuthors(g, rank, head, map[]) == Ok(map[])
    ensures CheckMergePermissions(g, rank, head, map[]) == Ok(map[])
  {
    var o1 := CheckMergesByBranchAuthors(g, rank, head, map[]);
    assert o1.Ok?;
    var o := CheckMergePermissions(g, rank, head, o1.ledger);
    assert o == Ok(map[]);
    assert o1.ledger.Keys <= {};
  }

  /** A clean run means head has a parsable `ROLES` file and every trunk
      commit before the root is a merge. */
  lemma CleanRunHasRolesAndOnlyMerges(g: Graph, rank: map<Id, nat>, head: Id)
    requires WellFormed(g, rank) && head in g
    requires ExitStatus(RunAudit(g, rank, head)) == AuditOk
    ensures g[head].roles.Some? && ParseRoles(g[head].roles.value).Success?
    ensures forall x :: x in FindBaselines(g, rank, head, map[]).0 ==> |g[x].parents| > 1
  {
    CleanRunLedgers(g, rank, head);
    var (b, l1) := FindBaselines(g, rank, head, map[]);
    FindBaselinesEvidence(g, rank, head, map[]);
    SameOutsideEvidence(l1, map[], {SelfMerged}, NonMergeOnTrunk);
    forall x | x in b
      ensures |g[x].parents| > 1
    {
      assert |g[x].parents| == 1 ==> CommitRef(x) in SingleParentRefs(g, b);
    }
  }

  /** A clean run means, when there is a baseline, that `ROLES` configures
      `master` and lists every baseline's author under it. */
  lemma CleanRunAuthorised(g: Graph, rank: map<Id, nat>, head: Id)
    requires WellFormed(g, rank) && head in g
    requires ExitStatus(RunAudit(g, rank, head)) == AuditOk
    ensures g[head].roles.Some? && ParseRoles(g[head].roles.value).Success?
    ensures FindBaselines(g, rank, head, map[]).0 != [] ==>
      && CheckedBranch in ParseRoles(g[head].roles.value).value
      && forall x :: x in FindBaselines(g, rank, head, map[]).0
           ==> g[x].author in ParseRoles(g[head].roles.value).value[CheckedBranch]
  {
    CleanRunLedgers(g, rank, head);
    CleanRunHasRolesAndOnlyMerges(g, rank, head);
    var b := FindBaselines(g, rank, head, map[]).0;
    if b != [] {
      var mergers := ParseRoles(g[head].roles.value).value;
      AuthorisationFindings(g, rank, head, map[]);
      var allowed := mergers[CheckedBranch];
      forall x | x in b
        ensures g[x].author in allowed
      {
        var note := UnauthorisedNote(g[x].author, x);
        assert g[x].author !in allowed ==> note in UnauthorisedNotes(g, b, allowed);
      }
    }
  }

  /** A clean run means no merged feature branch holds, within the tracer's
      reach, a commit by its merger that the tracer would stop at. */
  lemma CleanRunHasNoSelfMerges(g: Graph, rank: map<Id, nat>, head: Id)
    requires WellFormed(g, rank) && head in g
    requires ExitStatus(RunAudit(g, rank, head)) == AuditOk
    ensures var b := FindBaselines(g, rank, head, map[]).0;
      forall m, j, k :: m in b && 1 <= j < |g[m].parents|
        ==> !FirstSelfAuthored(g, g[m].parents[j], g[m].author, b, k)
  {
    CleanRunLedgers(g, rank, head);
    CheckMergesReports(g, rank, head, map[]);
  }

  /** A completed run reports a self-merge exactly when some merge on the trunk
      has a feature branch holding, within the tracer's reach, a commit by the
      merger for the tracer to stop at. */
  lemma SelfMergeReportedIff(g: Graph, rank: map<Id, nat>, head: Id)
    requires WellFormed(g, rank) && head in g
    ensures var b := FindBaselines(g, rank, head, map[]).0;
      var o := RunAudit(g, rank, head);
      o.Ok? ==> (SelfMerged in o.ledger <==> SomeSelfMergedBranch(g, b, b))
  {
    var o1 := CheckMergesByBranchAuthors(g, rank, head, map[]);
    if o1.Ok? {
      CheckMergesReportsIff(g, rank, head);
      CheckMergePermissionsKeepsOthers(g, rank, head, o1.ledger);
      var o := CheckMergePermissions(g, rank, head, o1.ledger);
      if o.Ok? {
        SameOutsideEvidence(o1.ledger, o.ledger, {NonMergeOnTrunk, NoRolesFile, Unauthorised}, SelfMerged);
      }
    }
  }

  /** What a clean run needs of the history ending at `head`, whose baselines
      are `b`: a parsable `ROLES` file, a `master` entry listing every
      baseline's author whenever there is a baseline, only merges on the
      trunk, no feature branch running into the depth cap, and no feature
      branch for the tracer to stop at with a report. */
  ghost predicate PassesAudit(g: Graph, head: Id, b: seq<Id>)
    requires Closed(g) && head in g && forall x :: x in b ==> x in g
  {
    && g[head].roles.Some?
    && ParseRoles(g[head].roles.value).Success?
    && (b != [] ==>
          && CheckedBranch in ParseRoles(g[head].roles.value).value
          && forall x :: x in b ==> g[x].author in ParseRoles(g[head].roles.value).value[CheckedBranch])
    && (forall x :: x in b ==> |g[x].parents| > 1)
    && !SomeMergeExceedsDepth(g, b, b)
    && !SomeSelfMergedBranch(g, b, b)
  }

  /** A history that meets every requirement runs clean. */
  lemma PassingHistoryRunsClean(g: Graph, rank: map<Id, nat>, head: Id)
    requires WellFormed(g, rank) && head in g
    requires PassesAudit(g, head, FindBaselines(g, rank, head, map[]).0)
    ensures RunAudit(g, rank, head) == Ok(map[])
  {
    OnlyMergesFlagNothing(g, rank, head);
    SelfMergeLedgerEmpty(g, rank, head);
    AuthorisedHistoryPermitted(g, rank, head);
  }

  /** A trunk of merges only gets no non-merge flags. */
  lemma OnlyMergesFlagNothing(g: Graph, rank: map<Id, nat>, head: Id)
    requires WellFormed(g, rank) && head in g
    requires forall x :: x in FindBaselines(g, rank, head, map[]).0 ==> |g[x].parents| > 1
    ensures FindBaselines(g, rank, head, map[]).1 == map[]
  {
    var b := FindBaselines(g, rank, head, map[]).0;
    assert SingleParentRefs(g, b) == {};
    FindBaselinesAgainChangesNothing(g, rank, head, map[]);
  }

  /** With no feature branch running into the depth cap or holding a commit to
      report, the self-merge audit of a trunk of merges leaves the ledger
      empty. */
  lemma SelfMergeLedgerEmpty(g: Graph, rank: map<Id, nat>, head: Id)
    requires WellFormed(g, rank) && head in g
    requires var b := FindBaselines(g, rank, head, map[]).0;
      && FindBaselines(g, rank, head, map[]).1 == map[]
      && !SomeMergeExceedsDepth(g, b, b)
      && !SomeSelfMergedBranch(g, b, b)
    ensures CheckMergesByBranchAuthors(g, rank, head, map[]) == Ok(map[])
  {
    var o := CheckMergesByBranchAuthors(g, rank, head, map[]);
    CheckMergesAbortsIff(g, rank, head, map[]);
    assert o.Ok?;
    CheckMergesReportsIff(g, rank, head);
    SameOutsideEmpty(o.ledger, SelfMerged);
  }

  /** When `ROLES` parses and, given any baseline, lists every baseline's
      author under `master`, the authorisation audit of a trunk of merges
      records nothing. */
  lemma AuthorisedHistoryPermitted(g: Graph, rank: map<Id, nat>, head: Id)
    requires WellFormed(g, rank) && head in g
    requires var b := FindBaselines(g, rank, head, map[]).0;
      && FindBaselines(g, rank, head, map[]).1 == map[]
      && g[head].roles.Some?
      && ParseRoles(g[head].roles.value).Success?
      && (b != [] ==>
            && CheckedBranch in ParseRoles(g[head].roles.value).value
            && forall x :: x in b ==> g[x].author in ParseRoles(g[head].roles.value).value[CheckedBranch])
    ensures CheckMergePermissions(g, rank, head, map[]) == Ok(map[])
  {
    var b := FindBaselines(g, rank, head, map[]).0;
    if b != [] {
      var allowed := ParseRoles(g[head].roles.value).value[CheckedBranch];
      AuthorisationFindings(g, rank, head, map[]);
      CheckMergePermissionsKeepsValid(g, rank, head, map[]);
      var o := CheckMergePermissions(g, rank, head, map[]);
      assert UnauthorisedNotes(g, b, allowed) == {};
      ValidPresentIffEvidence(o.ledger, Unauthorised);
      SameOutsideEmpty(o.ledger, Unauthorised);
    }
  }

  /** A clean run means the history meets every requirement. */
  lemma CleanRunPassesAudit(g: Graph, rank: map<Id, nat>, head: Id)
    requires WellFormed(g, rank) && head in g
    requires ExitStatus(RunAudit(g, rank, head)) == AuditOk
    ensures PassesAudit(g, head, FindBaselines(g, rank, head, map[]).0)
  {
    var b := FindBaselines(g, rank, head, map[]).0;
    CleanRunHasRolesAndOnlyMerges(g, rank, head);
    CleanRunAuthorised(g, rank, head);
    CleanRunHasNoSelfMerges(g, rank, head);
    ExitsWithErrorIff(g, rank, head);
    assert !SomeSelfMergedBranch(g, b, b);
  }

  /** A run is clean exactly when the history meets every requirement. */
  lemma CleanRunIff(g: Graph, rank: map<Id, nat>, head: Id)
    requires WellFormed(g, rank) && head in g
    ensures ExitStatus(RunAudit(g, rank, head)) == AuditOk
        <==> PassesAudit(g, head, FindBaselines(g, rank, head, map[]).0)
  {
    if ExitStatus(RunAudit(g, rank, head)) == AuditOk {
      CleanRunPassesAudit(g, rank, head);
    }
    if PassesAudit(g, head, FindBaselines(g, rank, head, map[]).0) {
      PassingHistoryRunsClean(g, rank, head);
    }
  }

  /** The audit exits with status 2 exactly when some merge on the trunk has a
      feature branch that runs into the depth cap. */
  lemma ExitsWithErrorIff(g: Graph, rank: map<Id, nat>, head: Id)
    requires WellFormed(g, rank) && head in g
    ensures var b := FindBaselines(g, rank, head, map[]).0;
      ExitStatus(RunAudit(g, rank, head)) == Error <==> SomeMergeExceedsDepth(g, b, b)
  {
    CheckMergesAbortsIff(g, rank, head, map[]);
  }

  /** A completed run reports every category with a non-empty, duplicate-free
      list of evidence. */
  lemma RunAuditKeepsValid(g: Graph, rank: map<Id, nat>, head: Id)
    requires WellFormed(g, rank) && head in g
    ensures var o := RunAudit(g, rank, head);
      o.Ok? ==> Valid(o.ledger)
  {
    CheckMergesKeepsValid(g, rank, head, map[]);
    var o1 := CheckMergesByBranchAuthors(g, rank, head, map[]);
    if o1.Ok? {
      CheckMergePermissionsKeepsValid(g, rank, head, o1.ledger);
    }
  }
}
