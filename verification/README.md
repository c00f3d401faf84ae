# git-audit `check.py` in Dafny

`check.py` audits the history of a git repository against a simple policy:
the trunk should consist of merge commits only, nobody should merge a feature
branch they contributed to, and every commit on the trunk should be by a user
that the `ROLES` file in the head commit allows to merge to `master`.
Findings go into a ledger that maps an issue category to the evidence
collected for it, and the process exits with status 0 (no issues), 1
(issues) or 2 (error).

This project models that audit as pure functions over an immutable commit
graph and proves what it reports.

- `Issues` is the ledger and `record_issue`. Categories form a datatype whose
  `Label` is the exact category string.
- `Commits` is the commit graph: a map from id to author, ordered parents and
  the text of `ROLES` in that commit's tree. A `rank` map that decreases from
  every commit to its parents stands for acyclicity.
- `Baselines` is `find_baselines`.
- `Tracer` is `track_back_to_parents`, both as written and as intended. See
  Findings.
- `SelfMerge` is `check_merges_by_branch_authors`: the trunk loop, its inner
  loop over feature parents, and a reference definition (`AuditEach`) that
  audits the baselines one by one.
- `Roles` covers `str.strip`, `str.split` and the parse of `ROLES`.
- `Permissions` is `check_merge_permissions`.
- `Audit` covers the two audits in the order `main` runs them, and the exit
  status.

A run ends in one of three ways (`Outcomes.Outcome`):

- `Ok(ledger)`: the audit completed.
- `Abort(code)`: the program called `sys.exit`. Only the depth cap does so, with status 2.
- `Crash(error)`: the program raised an uncaught exception, and CPython
  exits with status 1.

The exceptions that the audit's own logic can raise are modelled:

- `IndexError`: a `ROLES` line without `:`.
- `KeyError`: no `master` entry while there are baselines.
- `TypeError`: the log call of the code as written. Only
  `Tracer.TraceAsWritten` produces it; the audits use the intended tracer
  (see Findings and Left out).

Some behaviour of the code differs from how the tool describes itself. The
model follows the code:

- `ROLES` is read only from the head commit and applied to every baseline.
- A `ROLES` file without a `master` entry raises `KeyError` as soon as there
  is a baseline to check. It is not skipped.
- A missing `ROLES` file is recorded once, with no evidence.
- Each `ROLES` line is stripped before it is split at `:`. Users are split
  at `,` with nothing trimmed.

## Model

| member | source | states |
|---|---|---|
| Issues.Record | check.py:15-20 | the evidence ends up under its category; no other category changes; every existing list only grows at its end; recording evidence that is already there changes nothing; otherwise the evidence is appended, or the category is created with it |
| Issues.RecordEvidence | check.py:15-20 | the category's evidence set gains exactly the new item |
| Issues.RecordIdempotent | check.py:16-18 | recording the same evidence twice is the same as recording it once |
| Issues.RecordKeepsValid | check.py:15-20 | every list stays non-empty and free of duplicates |
| Issues.RecordCommutesAcrossCategories | check.py:15-20 | records in different categories can be made in either order |
| Issues.LabelsDistinct | check.py:15-20 | two categories have the same label exactly when they are the same category, so keying the ledger by category keys it by the label strings `record_issue` uses |
| Baselines.FindBaselines | check.py:56-70 | the result is the first-parent line from the start commit down to, but excluding, the root; only "Non-merge commit on trunk" changes; the ledger only grows |
| Baselines.FindBaselinesEvidence | check.py:61-70 | "Non-merge commit on trunk" gains exactly the single-parent commits among the baselines |
| Baselines.FindBaselinesKeepsValid | check.py:67-68 | the walk keeps the ledger free of empty lists and duplicates |
| Baselines.BaselinesIgnoreLedger | check.py:56-70 | the commits returned do not depend on the ledger |
| Baselines.FindBaselinesAgainChangesNothing | check.py:67-68 | walking again once every single-parent baseline is recorded leaves the ledger unchanged |
| Baselines.TrunkIsAncestry | check.py:60-70 | entry i of the walk is the i-th first-parent ancestor, and the step after the last entry reaches a root |
| Baselines.BaselinesAreTrunkNonRoots | check.py:56-70 | a commit is a baseline exactly when it is on the first-parent line and is not a root |
| Baselines.TrunkDistinct | check.py:60-70 | no commit appears twice among the baselines |
| Baselines.OneBaselinePerNonRoot | check.py:56-70 | when every non-root commit is on head's first-parent line, there are as many baselines as non-root commits |
| Baselines.NoMergesAllFlagged | check.py:67-70 | in a history without merges, every baseline is flagged as a non-merge trunk commit |
| Tracer.Trace | check.py:27-49 | abort with status 2 past depth 20; stop at a baseline; record the first commit by the merging author and stop; stop at a root; only "Feature branch merged by one of its contributors" changes, and only with commits by the excluded author |
| Tracer.TraceAbortsIff | check.py:32-35 | started at depth d ≤ 20, the tracer aborts exactly when each of the first 21 − d commits on the first-parent line is passed over |
| Tracer.TraceSkipsPassedCommits | check.py:47-49 | stepping over passed commits is the same as starting further back at a greater depth |
| Tracer.TraceReportsAtMostOne | check.py:40-46 | one trace adds at most one report |
| Tracer.TraceFromTipAbortsIff | check.py:32-35 | a trace started at depth 1 aborts exactly when the feature branch runs into the depth cap, whatever the ledger holds |
| Tracer.TraceReportsFirstSelfAuthored | check.py:40-49 | started at depth 1, the tracer records the first commit by the excluded author it reaches before a baseline, a root or the depth cap, however far back it lies |
| Tracer.TraceReportsOnlyStop | check.py:32-49 | a trace started at depth d that completes has either met no commit to stop at within its 21 − d steps and left the ledger unchanged, or recorded exactly the first such commit |
| Tracer.TraceReportsOnlyFirstSelfAuthored | check.py:32-49 | started at depth 1, a completed trace leaves the ledger unchanged when the branch holds no commit by the excluded author within reach, and otherwise records exactly the first one |
| Tracer.TraceKeepsValid | check.py:44-45 | a trace keeps every ledger list non-empty and duplicate-free |
| Tracer.TraceAsWritten | check.py:27-49 | the code as written returns, aborts with status 2, or raises TypeError at the self-merge report |
| Tracer.AsWrittenCrashesWhereReportIntended | check.py:40-46 | the code as written raises TypeError exactly when the intended tracer would record a report, and otherwise agrees with it |
| Tracer.SelfMergeCrashesAsWritten | check.py:40-46 | on a four-commit history in which alice merges her own feature commit, the code as written crashes and the intended tracer reports that commit |
| SelfMerge.TraceFeatures | check.py:98-101 | the loop completes or aborts with status 2; only the self-merge category changes, and only with non-baseline commits by the merger; every non-baseline feature tip by the merger is reported |
| SelfMerge.TraceFeaturesAbortsIff | check.py:100-101 | the loop aborts exactly when some feature branch runs into the depth cap |
| SelfMerge.TraceFeaturesReportsSelfAuthored | check.py:98-101 | when the loop completes, every feature branch's first commit by the merger within the tracer's reach is reported |
| SelfMerge.TraceFeaturesReportsOnlyFirst | check.py:98-101 | every report the loop adds is the first commit by the merger within the tracer's reach of one of the feature branches |
| SelfMerge.TraceFeaturesKeepsValid | check.py:100-101 | the loop keeps every ledger list non-empty and duplicate-free |
| SelfMerge.AuditTrunkCommit | check.py:82-102 | one turn of the trunk loop changes only the non-merge and self-merge categories, or aborts with status 2 |
| SelfMerge.AuditTrunkCommitAbortsIff | check.py:94-101 | one turn aborts exactly when the commit is a merge with a feature branch that runs into the depth cap |
| SelfMerge.AuditTrunkCommitReportsOnly | check.py:89-101 | every report one turn adds is the first commit by that merge's author within the tracer's reach of one of its feature branches; a non-merge adds none |
| SelfMerge.AuditEach | check.py:81-102 | auditing the trunk commits in turn changes only the non-merge and self-merge categories and only grows the ledger, or aborts with status 2 |
| SelfMerge.WalkTrunk | check.py:81-102 | the trunk loop completes or aborts with status 2 |
| SelfMerge.WalkTrunkKeepsValid | check.py:81-102 | the trunk loop keeps every ledger list non-empty and duplicate-free |
| SelfMerge.AuditEachAbortsIff | check.py:81-102 | auditing the trunk commits aborts exactly when one of them is a merge with a feature branch that runs into the depth cap |
| SelfMerge.WalkTrunkAuditsBaselines | check.py:79-102 | the trunk loop audits exactly the commits the trunk walk returns, in the same order |
| SelfMerge.AuditEachReportsOnlySelfAuthoredBranches | check.py:81-101 | every report the audit adds is, for some audited merge and one of its feature parents, the first commit by that merge's author within the tracer's reach; so no baseline, nothing past a baseline or the depth cap, and no commit by another merge's author |
| SelfMerge.AuditEachReportsSelfAuthoredBranches | check.py:98-101 | when the audit completes, every feature branch of an audited merge has its first commit by the merger within the tracer's reach reported, however deep in the branch it lies |
| SelfMerge.AuditEachAddsNoNonMerge | check.py:89-92 | flagging the trunk again adds nothing once the trunk walk has flagged it |
| SelfMerge.CheckMergesByBranchAuthors | check.py:73-102 | completes or aborts with status 2; only grows the ledger; after the trunk walk, changes only the self-merge category |
| SelfMerge.CheckMergesReports | check.py:73-102 | over its baselines, the audit reports exactly the first commit by the merger within the tracer's reach in each merged feature branch: every such commit is reported and nothing else is |
| SelfMerge.CheckMergesReportsIff | check.py:73-102 | from an empty ledger, a completed self-merge audit has a self-merge category exactly when some merge among the baselines has a feature branch holding such a commit |
| SelfMerge.CheckMergesAbortsIff | check.py:73-102 | the self-merge audit aborts exactly when some merge among the baselines has a feature branch that runs into the depth cap |
| SelfMerge.CheckMergesKeepsValid | check.py:73-102 | the self-merge audit keeps every ledger list non-empty and duplicate-free |
| Roles.StripLeft | check.py:125 | the result is no longer than the input and does not start with whitespace |
| Roles.StripRight | check.py:125 | the result is no longer than the input and does not end with whitespace |
| Roles.Strip | check.py:125 | the result neither starts nor ends with whitespace |
| Roles.StripKeepsMiddle | check.py:125 | the result is a contiguous run of the input, with only whitespace before and after it |
| Roles.Split | check.py:119 | at least one piece; no piece contains the separator; joining the pieces with the separator gives back the text |
| Roles.SplitJoin | check.py:119 | splitting undoes joining, for pieces free of the separator |
| Roles.SplitHasSecondPiece | check.py:125-127 | there is a second piece exactly when the separator occurs |
| Roles.ParseLine | check.py:125-128 | a line fails with IndexError exactly when its stripped text has no `:` |
| Roles.AddLine | check.py:123-128 | a blank line changes nothing; a malformed line fails with IndexError; any other line sets the branch it names to its users and leaves every other branch as it was |
| Roles.ParseLineReadsFields | check.py:125-127 | the branch is the text before the first `:`; the users are the text up to the next `:`, or to the end, split at `,` |
| Roles.ParseLines | check.py:122-128 | parsing fails with IndexError exactly when some non-empty line is malformed |
| Roles.ParseLinesStep | check.py:122-128 | a line sets the branch it names and leaves every other branch as it was |
| Roles.ParsedBranches | check.py:128 | a branch is configured exactly when some non-empty line names it |
| Roles.LastLineWins | check.py:128 | a branch gets the users of the last line that names it |
| Roles.ParseRoles | check.py:119-128 | the whole `ROLES` text fails to parse exactly when one of its lines is malformed |
| Permissions.CheckAuthors | check.py:132-137 | the loop over baselines changes only "Unauthorised user committed to branch" and only grows the ledger |
| Permissions.CheckAuthorsEvidence | check.py:132-137 | the loop records exactly one note per baseline whose author is not allowed |
| Permissions.CheckAuthorsKeepsValid | check.py:132-137 | the loop over baselines keeps every ledger list non-empty and duplicate-free |
| Permissions.UnauthorisedNoteFormat | check.py:135-137 | on a sample author `r@x` and commit `b1`, the note reads `r@x committed to master at b1`, as check.py:136-137 formats it |
| Permissions.UnauthorisedNoteNamesCommit | check.py:135-137 | two notes for the same author are equal exactly when they name the same commit, so `record_issue` never folds two commits' notes into one |
| Permissions.CheckMergePermissions | check.py:112-137 | no `ROLES` means one evidence-free "Repository has no ROLES file" entry; the audit crashes exactly on a malformed line (IndexError) or on a missing `master` entry with baselines present (KeyError); the ledger only grows |
| Permissions.AuthorisationFindings | check.py:131-137 | when `ROLES` parses with a `master` entry, the audit completes; it changes nothing but the unauthorised category, and adds exactly the notes owed to the baselines whose author `master` does not list |
| Permissions.CheckMergePermissionsKeepsValid | check.py:112-137 | the authorisation audit keeps every ledger list non-empty and duplicate-free |
| Permissions.CheckMergePermissionsKeepsOthers | check.py:112-137 | the authorisation audit changes nothing outside the non-merge, no-ROLES and unauthorised categories; in particular no self-merge report appears or disappears |
| Audit.RunAudit | check.py:158-159 | the run aborts only with status 2, and exactly when the self-merge audit aborts |
| Audit.ExitStatus | check.py:162-176 | a completed run exits with 0 exactly when the ledger is empty, and with 1 otherwise; an abort exits with its code; a crash exits with 1 |
| Audit.ExitsWithErrorIff | check.py:32-35 | the audit exits with status 2 exactly when some merge on the trunk has a feature branch that runs into the depth cap |
| Audit.RunAuditKeepsValid | check.py:15-20 | a completed run reports every category with a non-empty, duplicate-free list of evidence |
| Audit.ExitStatusOfAudit | check.py:158-176 | the audit exits with 0, 1 or 2, and with 0 exactly when it completes with an empty ledger |
| Audit.NoRolesNeverPasses | check.py:114-117 | a head without `ROLES` never exits with 0 |
| Audit.SecondTrunkWalkAddsNothing | check.py:131 | the trunk walk repeated by the authorisation audit changes nothing |
| Audit.CleanRunLedgers | check.py:158-164 | after a clean run, both audits completed with an empty ledger |
| Audit.CleanRunHasRolesAndOnlyMerges | check.py:158-164 | a clean run means head has a parsable `ROLES`, and every baseline is a merge |
| Audit.CleanRunAuthorised | check.py:131-137 | a clean run means `ROLES` parses and, when there are baselines, has a `master` entry that lists every baseline's author |
| Audit.CleanRunHasNoSelfMerges | check.py:98-101 | a clean run means no merged feature branch holds, within the tracer's reach, a commit by its merger that the tracer would stop at |
| Audit.SelfMergeReportedIff | check.py:158-176 | a completed run reports a self-merge exactly when some merge on the trunk has a feature branch holding, within the tracer's reach, a commit by its merger for the tracer to stop at |
| Audit.AuthorisedHistoryPermitted | check.py:112-137 | on a trunk of merges only, when `ROLES` parses and, given any baseline, lists every baseline's author under `master`, the authorisation audit records nothing |
| Audit.PassingHistoryRunsClean | check.py:158-164 | a history with a parsable `ROLES` that authorises every baseline's author, only merges on the trunk, no feature branch past the depth cap and none holding a commit by its merger within reach, runs clean |
| Audit.CleanRunPassesAudit | check.py:158-164 | a clean run means the history meets all of those requirements |
| Audit.CleanRunIff | check.py:158-164 | the audit exits with 0 exactly when the history meets all of those requirements |

## Left out

- Reading the repository through pygit2 (`repo.head`, `peel`, `tree['ROLES']`, `repo.get`): the graph is a parameter.
- Commit ids are strings here, while pygit2 uses `Oid` objects. Only their equality matters.
- The command-line and directory checks in `main`, and opening the repository (check.py:143-156): these are I/O that exits with status 2 before any audit logic runs.
- Logging and every `print`, including the issue report (check.py:161-176). Only the exit status is modelled.
- The order in which categories are printed, and the "counts, not listed" form for more than five entries: these are presentation only.
- `check_can_merge_to_this_branch` (check.py:23-24): it does nothing and returns nothing.
- `print_commit` (check.py:52-53): nothing calls it.
- The TODO about taking `ROLES` from the previous revision (check.py:109-110): it is not implemented, and the model follows the code.
- Acyclicity of the history is taken as given through the `rank` witness. Git histories are acyclic.
- The global `issues` dictionary becomes a ledger value that is threaded through every function.
- Exceptions that pygit2 could raise while reading objects are not modelled.
- Permissions.CheckAuthors leaves out text encodings. Author emails and the `ROLES` text are both `string`, and it compares them, as check.py:134 does, as plain character strings. Under Python 2, which `check.py` targets, pygit2 gives the `ROLES` blob as a byte string and an author email as decoded text, so a non-ASCII email never matches a `ROLES` entry and is always reported as unauthorised. The model assumes ASCII emails, or equivalently that `author` and `roles` hold text in one and the same decoding, and it calls such an author authorised when `ROLES` lists the address.
- SelfMerge.TraceFeatures and everything built on it (`SelfMerge.WalkTrunk`, `SelfMerge.CheckMergesByBranchAuthors`, `Audit.RunAudit`) use the intended tracer `Tracer.Trace`, not `Tracer.TraceAsWritten`. So no run of the audit model raises TypeError. As written, the first self-merge the trunk walk meets ends the program with status 1, before any later merge is traced. Example: the head merge and its feature tip are by alice, and an older trunk merge has a feature branch that runs past the depth cap. As written, the program exits with 1. The model records the self-merge and then exits with 2. `Tracer.AsWrittenCrashesWhereReportIntended` states, for a single trace, where the two versions part.
- Crash and failure both exit with status 1. The model keeps them apart, but a caller that sees only the exit status cannot tell them apart.

## Findings

| source | as written | input that shows it | evidently intended | confidence | as-written member | corrected member |
|---|---|---|---|---|---|---|
| check.py:41-46 | `%` binds tighter than `+`. The two-element tuple is therefore applied to the second string literal alone, which has a single `%s`. Python raises TypeError ("not all arguments converted") before `record_issue` runs. Any self-merge therefore ends the run with an uncaught exception, which exits with status 1. | A history root ← b1 (bob) ← f1 (alice), plus a merge m with parents b1 and f1 by alice. Tracing f1 with alice excluded and baselines [m, b1] crashes instead of recording f1. | Log the message, then record f1 under "Feature branch merged by one of its contributors" and continue. | high; not executed | Tracer.TraceAsWritten | Tracer.Trace |
