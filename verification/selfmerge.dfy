/**
  The self-merge audit (`check_merges_by_branch_authors`): walk the trunk from
  head by first parents; flag single-parent trunk commits again, and for each
  merge trace every non-first parent with the merge's author excluded.
 */
module SelfMerge {
  import opened Issues
  import opened Outcomes
  import opened Commits
  import opened Baselines
  import opened Tracer

  /** Every self-merge report `r` holds beyond `l` names, for some feature
      parent `p` among `features`, the first commit by `excluded` that a trace
      from `p` stops at. */
  ghost predicate ReportsOnlyFirstOfFeatures(g: Graph, l: Ledger, r: Ledger, features: seq<Id>, excluded: string, baselines: seq<Id>)
    requires Closed(g) && forall p :: p in features ==> p in g
  {
    forall e :: e in EvidenceOf(r, SelfMerged) - EvidenceOf(l, SelfMerged) ==>
      exists p, k: nat :: && p in features
                          && FirstSelfAuthored(g, p, excluded, baselines, k)
                          && e == CommitRef(Ancestor(g, p, k).value)
  }

  /** Every self-merge report `r` holds beyond `l` names, for some merge `m`
      among `ids` and one of its feature parents, the first commit by `m`'s
      author that a trace from that parent stops at. */
  ghost predicate ReportsOnlySelfAuthoredBranches(g: Graph, l: Ledger, r: Ledger, ids: seq<Id>, baselines: seq<Id>)
    requires Closed(g)
  {
    forall e :: e in EvidenceOf(r, SelfMerged) - EvidenceOf(l, SelfMerged) ==>
      exists m, j, k: nat :: && m in ids && m in g && 1 <= j < |g[m].parents|
                             && FirstSelfAuthored(g, g[m].parents[j], g[m].author, baselines, k)
                             && e == CommitRef(Ancestor(g, g[m].parents[j], k).value)
  }

  /** The inner `for p in feature_branches` loop: trace each feature parent
      from depth 1; an abort ends the whole run. */
  function TraceFeatures(g: Graph, features: seq<Id>, excluded: string, baselines: seq<Id>, l: Ledger): (o: Outcome)
    requires Closed(g) && forall p :: p in features ==> p in g
    ensures o.Ok? || o == Abort(Error)
    ensures o.Ok? ==> SameOutside(l, o.ledger, {SelfMerged}) && Extends(l, o.ledger)
    ensures o.Ok? ==> ReportsOnlyAuthor(g, l, o.ledger, excluded, baselines)
    ensures o.Ok? ==> forall p :: p in features && p !in baselines && g[p].author == excluded
                        ==> Recorded(o.ledger, SelfMerged, CommitRef(p))
    decreases |features|
  {
    if features == [] then
      Ok(l)
    else
      match Trace(g, features[0], excluded, baselines, 1, l)
      case Ok(l1) =>
        var o := TraceFeatures(g, features[1..], excluded, baselines, l1);
        GrowsWithinTransitive(l, l1, o, {SelfMerged});
        o
      case other => other
  }

  /** The feature loop aborts exactly when some feature branch runs into the
      depth cap. */
  lemma {:induction false} TraceFeaturesAbortsIff(g: Graph, features: seq<Id>, excluded: string, baselines: seq<Id>, l: Ledger)
    requires Closed(g) && forall p :: p in features ==> p in g
    ensures TraceFeatures(g, features, excluded, baselines, l).Abort?
        <==> exists p :: p in features && ExceedsDepth(g, p, excluded, baselines)
    decreases |features|
  {
    if features != [] {
      TraceFromTipAbortsIff(g, features[0], excluded, baselines, l);
      var t := Trace(g, features[0], excluded, baselines, 1, l);
      if t.Ok? {
        TraceFeaturesAbortsIff(g, features[1..], excluded, baselines, t.ledger);
        assert forall p :: p in features <==> p == features[0] || p in features[1..];
      }
    }
  }

  /** Completeness of the feature loop: when it completes, every feature
      branch's first commit by the merger within the tracer's reach is
      reported. */
  lemma {:induction false} TraceFeaturesReportsSelfAuthored(g: Graph, features: seq<Id>, excluded: string, baselines: seq<Id>, l: Ledger)
    requires Closed(g) && forall p :: p in features ==> p in g
    ensures var o := TraceFeatures(g, features, excluded, baselines, l);
      o.Ok? ==> forall p, k :: p in features && FirstSelfAuthored(g, p, excluded, baselines, k)
                  ==> Recorded(o.ledger, SelfMerged, CommitRef(Ancestor(g, p, k).value))
    decreases |features|
  {
    if features != [] {
      var t := Trace(g, features[0], excluded, baselines, 1, l);
      if t.Ok? {
        TraceFeaturesReportsSelfAuthored(g, features[1..], excluded, baselines, t.ledger);
        var o := TraceFeatures(g, features[1..], excluded, baselines, t.ledger);
        if o.Ok? {
          forall p, k | p in features && FirstSelfAuthored(g, p, excluded, baselines, k)
            ensures Recorded(o.ledger, SelfMerged, CommitRef(Ancestor(g, p, k).value))
          {
            if p == features[0] {
              TraceReportsFirstSelfAuthored(g, p, excluded, baselines, l, k);
              ExtendsKeepsRecords(t.ledger, o.ledger, SelfMerged, CommitRef(Ancestor(g, p, k).value));
            } else {
              assert p in features[1..];
            }
          }
        }
      }
    }
  }

  /** Soundness of the feature loop: every report it adds is the first commit
      by the merger that the trace of one of the feature branches stops at. */
  lemma {:induction false} TraceFeaturesReportsOnlyFirst(g: Graph, features: seq<Id>, excluded: string, baselines: seq<Id>, l: Ledger)
    requires Closed(g) && forall p :: p in features ==> p in g
    ensures var o := TraceFeatures(g, features, excluded, baselines, l);
      o.Ok? ==> ReportsOnlyFirstOfFeatures(g, l, o.ledger, features, excluded, baselines)
    decreases |features|
  {
    if features != [] {
      var p0 := features[0];
      var t := Trace(g, p0, excluded, baselines, 1, l);
      if t.Ok? {
        TraceReportsOnlyFirstSelfAuthored(g, p0, excluded, baselines, l);
        TraceFeaturesReportsOnlyFirst(g, features[1..], excluded, baselines, t.ledger);
        var o := TraceFeatures(g, features[1..], excluded, baselines, t.ledger);
        if o.Ok? {
          forall e | e in EvidenceOf(o.ledger, SelfMerged) - EvidenceOf(l, SelfMerged)
            ensures exists p, k: nat :: && p in features
                                        && FirstSelfAuthored(g, p, excluded, baselines, k)
                                        && e == CommitRef(Ancestor(g, p, k).value)
          {
            if e in EvidenceOf(t.ledger, SelfMerged) {
              var k: nat :| && FirstSelfAuthored(g, p0, excluded, baselines, k)
                            && t.ledger == Record(l, SelfMerged, CommitRef(Ancestor(g, p0, k).value));
              RecordEvidence(l, SelfMerged, CommitRef(Ancestor(g, p0, k).value));
              assert e == CommitRef(Ancestor(g, p0, k).value);
            } else {
              assert e in EvidenceOf(o.ledger, SelfMerged) - EvidenceOf(t.ledger, SelfMerged);
              var p, k: nat :| && p in features[1..]
                               && FirstSelfAuthored(g, p, excluded, baselines, k)
                               && e == CommitRef(Ancestor(g, p, k).value);
              assert p in features;
            }
          }
        }
      }
    }
  }

  lemma {:induction false} TraceFeaturesKeepsValid(g: Graph, features: seq<Id>, excluded: string, baselines: seq<Id>, l: Ledger)
    requires Closed(g) && forall p :: p in features ==> p in g
    requires Valid(l)
    ensures var o := TraceFeatures(g, features, excluded, baselines, l);
      o.Ok? ==> Valid(o.ledger)
    decreases |features|
  {
    if features != [] {
      TraceKeepsValid(g, features[0], excluded, baselines, 1, l);
      var t := Trace(g, features[0], excluded, baselines, 1, l);
      if t.Ok? {
        TraceFeaturesKeepsValid(g, features[1..], excluded, baselines, t.ledger);
      }
    }
  }

  /** What the audit does at one non-root trunk commit. */
  function AuditTrunkCommit(g: Graph, id: Id, baselines: seq<Id>, l: Ledger): (o: Outcome)
    requires Closed(g) && id in g && |g[id].parents| > 0
    ensures o.Ok? || o == Abort(Error)
    ensures o.Ok? ==> SameOutside(l, o.ledger, {NonMergeOnTrunk, SelfMerged}) && Extends(l, o.ledger)
  {
    var c := g[id];
    if |c.parents| < 2 then
      var r := Record(l, NonMergeOnTrunk, CommitRef(id));
      SameOutsideWiden(l, r, {NonMergeOnTrunk}, {NonMergeOnTrunk, SelfMerged});
      Ok(r)
    else
      var o := TraceFeatures(g, c.parents[1..], c.author, baselines, l);
      GrowsWithinWiden(l, o, {SelfMerged}, {NonMergeOnTrunk, SelfMerged});
      o
  }

  /** Some feature branch of merge `m` runs into the depth cap when traced with
      `m`'s author excluded. */
  ghost predicate MergeExceedsDepth(g: Graph, m: Id, baselines: seq<Id>)
    requires Closed(g) && m in g
  {
    exists j :: 1 <= j < |g[m].parents| && ExceedsDepth(g, g[m].parents[j], g[m].author, baselines)
  }

  /** One trunk commit's audit aborts exactly when it is a merge with a feature
      branch that runs into the depth cap. */
  lemma AuditTrunkCommitAbortsIff(g: Graph, id: Id, baselines: seq<Id>, l: Ledger)
    requires Closed(g) && id in g && |g[id].parents| > 0
    ensures AuditTrunkCommit(g, id, baselines, l).Abort? <==> MergeExceedsDepth(g, id, baselines)
  {
    var c := g[id];
    if |c.parents| >= 2 {
      var features := c.parents[1..];
      TraceFeaturesAbortsIff(g, features, c.author, baselines, l);
      if MergeExceedsDepth(g, id, baselines) {
        var j :| 1 <= j < |c.parents| && ExceedsDepth(g, c.parents[j], c.author, baselines);
        assert features[j - 1] == c.parents[j];
      }
      if exists p :: p in features && ExceedsDepth(g, p, c.author, baselines) {
        var p :| p in features && ExceedsDepth(g, p, c.author, baselines);
        var i :| 0 <= i < |features| && features[i] == p;
        assert c.parents[i + 1] == p;
      }
    }
  }

  /** Reference definition: the trunk commits `ids` audited one after another,
      newest first, stopping at the first abort. */
  function AuditEach(g: Graph, ids: seq<Id>, baselines: seq<Id>, l: Ledger): (o: Outcome)
    requires Closed(g) && forall x :: x in ids ==> x in g && |g[x].parents| > 0
    ensures o.Ok? || o == Abort(Error)
    ensures o.Ok? ==> SameOutside(l, o.ledger, {NonMergeOnTrunk, SelfMerged}) && Extends(l, o.ledger)
    decreases |ids|
  {
    if ids == [] then
      Ok(l)
    else
      match AuditTrunkCommit(g, ids[0], baselines, l)
      case Ok(l1) =>
        var o := AuditEach(g, ids[1..], baselines, l1);
        GrowsWithinTransitive(l, l1, o, {NonMergeOnTrunk, SelfMerged});
        o
      case other => other
  }

  /** The `while True` loop of `check_merges_by_branch_authors`. Whatever the
      tracer finds, the walk always continues from the first parent. */
  function WalkTrunk(g: Graph, rank: map<Id, nat>, id: Id, baselines: seq<Id>, l: Ledger): (o: Outcome)
    requires WellFormed(g, rank) && id in g
    ensures o.Ok? || o == Abort(Error)
    decreases rank[id]
  {
    var c := g[id];
    if |c.parents| == 0 then
      Ok(l)
    else if |c.parents| < 2 then
      WalkTrunk(g, rank, c.parents[0], baselines, Record(l, NonMergeOnTrunk, CommitRef(id)))
    else
      match TraceFeatures(g, c.parents[1..], c.author, baselines, l)
      case Ok(l1) => WalkTrunk(g, rank, c.parents[0], baselines, l1)
      case other => other
  }

  lemma {:induction false} WalkTrunkKeepsValid(g: Graph, rank: map<Id, nat>, id: Id, baselines: seq<Id>, l: Ledger)
    requires WellFormed(g, rank) && id in g
    requires Valid(l)
    ensures var o := WalkTrunk(g, rank, id, baselines, l);
      o.Ok? ==> Valid(o.ledger)
    decreases rank[id]
  {
    var c := g[id];
    if |c.parents| == 1 {
      RecordKeepsValid(l, NonMergeOnTrunk, CommitRef(id));
      WalkTrunkKeepsValid(g, rank, c.parents[0], baselines, Record(l, NonMergeOnTrunk, CommitRef(id)));
    } else if |c.parents| >= 2 {
      TraceFeaturesKeepsValid(g, c.parents[1..], c.author, baselines, l);
      var t := TraceFeatures(g, c.parents[1..], c.author, baselines, l);
      if t.Ok? {
        WalkTrunkKeepsValid(g, rank, c.parents[0], baselines, t.ledger);
      }
    }
  }

  /** Some merge among `ids` has a feature branch that runs into the depth cap. */
  ghost predicate SomeMergeExceedsDepth(g: Graph, ids: seq<Id>, baselines: seq<Id>)
    requires Closed(g)
  {
    exists m :: m in ids && m in g && MergeExceedsDepth(g, m, baselines)
  }

  /** Some merge among `ids` has a feature branch holding, within the tracer's
      reach, a commit by the merger for the tracer to stop at. */
  ghost predicate SomeSelfMergedBranch(g: Graph, ids: seq<Id>, baselines: seq<Id>)
    requires Closed(g)
  {
    exists m, j, k: nat :: && m in ids && m in g && 1 <= j < |g[m].parents|
                           && FirstSelfAuthored(g, g[m].parents[j], g[m].author, baselines, k)
  }

  /** Auditing the trunk commits aborts exactly when one of them is a merge with
      a feature branch that runs into the depth cap, whatever the ledger. */
  lemma {:induction false} AuditEachAbortsIff(g: Graph, ids: seq<Id>, baselines: seq<Id>, l: Ledger)
    requires Closed(g) && forall x :: x in ids ==> x in g && |g[x].parents| > 0
    ensures AuditEach(g, ids, baselines, l).Abort? <==> SomeMergeExceedsDepth(g, ids, baselines)
    decreases |ids|
  {
    if ids != [] {
      AuditTrunkCommitAbortsIff(g, ids[0], baselines, l);
      var o1 := AuditTrunkCommit(g, ids[0], baselines, l);
      if o1.Ok? {
        AuditEachAbortsIff(g, ids[1..], baselines, o1.ledger);
        assert forall m :: m in ids <==> m == ids[0] || m in ids[1..];
      }
    }
  }

  /** Soundness of one trunk commit's audit: every report it adds is the first
      commit by the merger that the trace of one of its feature branches stops
      at. */
  lemma AuditTrunkCommitReportsOnly(g: Graph, m: Id, baselines: seq<Id>, l: Ledger)
    requires Closed(g) && m in g && |g[m].parents| > 0
    ensures var o := AuditTrunkCommit(g, m, baselines, l);
      o.Ok? ==> ReportsOnlySelfAuthoredBranches(g, l, o.ledger, [m], baselines)
  {
    var c := g[m];
    var o := AuditTrunkCommit(g, m, baselines, l);
    if o.Ok? {
      if |c.parents| < 2 {
        SameOutsideEvidence(l, o.ledger, {NonMergeOnTrunk}, SelfMerged);
      } else {
        TraceFeaturesReportsOnlyFirst(g, c.parents[1..], c.author, baselines, l);
        forall e | e in EvidenceOf(o.ledger, SelfMerged) - EvidenceOf(l, SelfMerged)
          ensures exists m', j, k: nat :: && m' in [m] && m' in g && 1 <= j < |g[m'].parents|
                                          && FirstSelfAuthored(g, g[m'].parents[j], g[m'].author, baselines, k)
                                          && e == CommitRef(Ancestor(g, g[m'].parents[j], k).value)
        {
          var p, k: nat :| && p in c.parents[1..]
                           && FirstSelfAuthored(g, p, c.author, baselines, k)
                           && e == CommitRef(Ancestor(g, p, k).value);
          var i :| 0 <= i < |c.parents[1..]| && c.parents[1..][i] == p;
          assert c.parents[i + 1] == p;
          assert FirstSelfAuthored(g, g[m].parents[i + 1], g[m].author, baselines, k);
        }
      }
    }
  }

  /** Reports owed to the first commit of `ids` followed by reports owed to the
      rest are reports owed to `ids`. */
  lemma ReportsOnlySelfAuthoredBranchesCons(g: Graph, l: Ledger, l1: Ledger, r: Ledger, ids: seq<Id>, baselines: seq<Id>)
    requires Closed(g) && ids != []
    requires ReportsOnlySelfAuthoredBranches(g, l, l1, [ids[0]], baselines)
    requires ReportsOnlySelfAuthoredBranches(g, l1, r, ids[1..], baselines)
    ensures ReportsOnlySelfAuthoredBranches(g, l, r, ids, baselines)
  {
    forall e | e in EvidenceOf(r, SelfMerged) - EvidenceOf(l, SelfMerged)
      ensures exists m, j, k: nat :: && m in ids && m in g && 1 <= j < |g[m].parents|
                                     && FirstSelfAuthored(g, g[m].parents[j], g[m].author, baselines, k)
                                     && e == CommitRef(Ancestor(g, g[m].parents[j], k).value)
    {
      if e in EvidenceOf(l1, SelfMerged) {
        assert e in EvidenceOf(l1, SelfMerged) - EvidenceOf(l, SelfMerged);
        var m, j, k: nat :| && m in [ids[0]] && m in g && 1 <= j < |g[m].parents|
                            && FirstSelfAuthored(g, g[m].parents[j], g[m].author, baselines, k)
                            && e == CommitRef(Ancestor(g, g[m].parents[j], k).value);
        assert m in ids;
      } else {
        assert e in EvidenceOf(r, SelfMerged) - EvidenceOf(l1, SelfMerged);
        var m, j, k: nat :| && m in ids[1..] && m in g && 1 <= j < |g[m].parents|
                            && FirstSelfAuthored(g, g[m].parents[j], g[m].author, baselines, k)
                            && e == CommitRef(Ancestor(g, g[m].parents[j], k).value);
        assert m in ids;
      }
    }
  }

  /** Soundness of the self-merge audit: every report it adds is, for some
      audited merge and one of its feature branches, the first commit by the
      merger that the trace of that branch stops at. So it reports no baseline,
      nothing past a baseline or the depth cap, and no commit by another
      merge's author. */
  lemma {:induction false} AuditEachReportsOnlySelfAuthoredBranches(g: Graph, ids: seq<Id>, baselines: seq<Id>, l: Ledger)
    requires Closed(g) && forall x :: x in ids ==> x in g && |g[x].parents| > 0
    ensures var o := AuditEach(g, ids, baselines, l);
      o.Ok? ==> ReportsOnlySelfAuthoredBranches(g, l, o.ledger, ids, baselines)
    decreases |ids|
  {
    if ids != [] {
      var o1 := AuditTrunkCommit(g, ids[0], baselines, l);
      if o1.Ok? {
        AuditTrunkCommitReportsOnly(g, ids[0], baselines, l);
        AuditEachReportsOnlySelfAuthoredBranches(g, ids[1..], baselines, o1.ledger);
        var o := AuditEach(g, ids[1..], baselines, o1.ledger);
        if o.Ok? {
          ReportsOnlySelfAuthoredBranchesCons(g, l, o1.ledger, o.ledger, ids, baselines);
        }
      }
    }
  }

  /** Every feature branch of a merge among `ids` has its first commit by the
      merger within the tracer's reach reported. */
  ghost predicate ReportsSelfAuthoredBranches(g: Graph, r: Ledger, ids: seq<Id>, baselines: seq<Id>)
    requires Closed(g)
  {
    forall m, j, k :: m in ids && m in g && 1 <= j < |g[m].parents|
      && FirstSelfAuthored(g, g[m].parents[j], g[m].author, baselines, k)
      ==> Recorded(r, SelfMerged, CommitRef(Ancestor(g, g[m].parents[j], k).value))
  }

  /** Completeness of the self-merge audit: when it completes, every feature
      branch of an audited merge has its first commit by the merger within the
      tracer's reach reported, however deep in the branch it lies. */
  lemma {:induction false} AuditEachReportsSelfAuthoredBranches(g: Graph, ids: seq<Id>, baselines: seq<Id>, l: Ledger)
    requires Closed(g) && forall x :: x in ids ==> x in g && |g[x].parents| > 0
    ensures var o := AuditEach(g, ids, baselines, l);
      o.Ok? ==> ReportsSelfAuthoredBranches(g, o.ledger, ids, baselines)
    decreases |ids|
  {
    if ids != [] {
      var m0 := ids[0];
      var o1 := AuditTrunkCommit(g, m0, baselines, l);
      if o1.Ok? {
        var l1 := o1.ledger;
        AuditEachReportsSelfAuthoredBranches(g, ids[1..], baselines, l1);
        var o := AuditEach(g, ids[1..], baselines, l1);
        if o.Ok? {
          if |g[m0].parents| >= 2 {
            TraceFeaturesReportsSelfAuthored(g, g[m0].parents[1..], g[m0].author, baselines, l);
          }
          forall m, j, k | m in ids && m in g && 1 <= j < |g[m].parents|
              && FirstSelfAuthored(g, g[m].parents[j], g[m].author, baselines, k)
            ensures Recorded(o.ledger, SelfMerged, CommitRef(Ancestor(g, g[m].parents[j], k).value))
          {
            var p := g[m].parents[j];
            if m != m0 {
              assert m in ids[1..];
            } else {
              assert p in g[m].parents[1..];
              ExtendsKeepsRecords(l1, o.ledger, SelfMerged, CommitRef(Ancestor(g, p, k).value));
            }
          }
        }
      }
    }
  }

  /** The trunk loop audits exactly the commits `find_baselines` returns, in the
      same order, whatever the tracer finds along the way. */
  lemma {:induction false} WalkTrunkAuditsBaselines(g: Graph, rank: map<Id, nat>, id: Id, baselines: seq<Id>, l: Ledger, l0: Ledger)
    requires WellFormed(g, rank) && id in g
    ensures WalkTrunk(g, rank, id, baselines, l) == AuditEach(g, FindBaselines(g, rank, id, l0).0, baselines, l)
    decreases rank[id]
  {
    var c := g[id];
    if |c.parents| > 0 {
      var p := c.parents[0];
      var l0' := if |c.parents| > 1 then l0 else Record(l0, NonMergeOnTrunk, CommitRef(id));
      var rest := FindBaselines(g, rank, p, l0').0;
      assert FindBaselines(g, rank, id, l0).0 == [id] + rest;
      assert ([id] + rest)[1..] == rest;
      match AuditTrunkCommit(g, id, baselines, l)
      case Ok(l1) =>
        WalkTrunkAuditsBaselines(g, rank, p, baselines, l1, l0');
      case _ =>
    }
  }

  /** Re-auditing trunk commits whose non-merge records already exist changes
      nothing outside the self-merge category. */
  lemma {:induction false} AuditEachAddsNoNonMerge(g: Graph, ids: seq<Id>, baselines: seq<Id>, l: Ledger)
    requires Closed(g) && forall x :: x in ids ==> x in g && |g[x].parents| > 0
    requires SingleParentRefs(g, ids) <= EvidenceOf(l, NonMergeOnTrunk)
    ensures var o := AuditEach(g, ids, baselines, l);
      o.Ok? ==> SameOutside(l, o.ledger, {SelfMerged})
    decreases |ids|
  {
    if ids != [] {
      var m := ids[0];
      var o1 := AuditTrunkCommit(g, m, baselines, l);
      if o1.Ok? {
        var l1 := o1.ledger;
        if |g[m].parents| < 2 {
          assert CommitRef(m) in SingleParentRefs(g, ids);
          assert l1 == l;
        } else {
          assert o1 == TraceFeatures(g, g[m].parents[1..], g[m].author, baselines, l);
        }
        assert SameOutside(l, l1, {SelfMerged});
        assert SingleParentRefs(g, ids[1..]) <= SingleParentRefs(g, ids);
        AuditEachAddsNoNonMerge(g, ids[1..], baselines, l1);
        var o := AuditEach(g, ids[1..], baselines, l1);
        if o.Ok? {
          SameOutsideTransitive(l, l1, o.ledger, {SelfMerged});
        }
      }
    }
  }

  /** `check_merges_by_branch_authors`: find the baselines (flagging non-merge
      trunk commits), then walk the trunk tracing every merged feature branch. */
  function CheckMergesByBranchAuthors(g: Graph, rank: map<Id, nat>, head: Id, l: Ledger): (o: Outcome)
    requires WellFormed(g, rank) && head in g
    ensures o.Ok? || o == Abort(Error)
    ensures o.Ok? ==> Extends(l, o.ledger)
    ensures o.Ok? ==> SameOutside(FindBaselines(g, rank, head, l).1, o.ledger, {SelfMerged})
  {
    var (b, l1) := FindBaselines(g, rank, head, l);
    WalkTrunkAuditsBaselines(g, rank, head, b, l1, l);
    FindBaselinesEvidence(g, rank, head, l);
    AuditEachAddsNoNonMerge(g, b, b, l1);
    var o := WalkTrunk(g, rank, head, b, l1);
    SameOutsideWiden(l, l1, {NonMergeOnTrunk}, {NonMergeOnTrunk, SelfMerged});
    GrowsWithinTransitive(l, l1, o, {NonMergeOnTrunk, SelfMerged});
    o
  }

  /** What the self-merge audit reports, over the baselines `b` it finds: only
      and all of, in every merged feature branch, the first commit by its
      merger within the tracer's reach. */
  lemma CheckMergesReports(g: Graph, rank: map<Id, nat>, head: Id, l: Ledger)
    requires WellFormed(g, rank) && head in g
    ensures var b := FindBaselines(g, rank, head, l).0;
      var o := CheckMergesByBranchAuthors(g, rank, head, l);
      o.Ok? ==>
        && ReportsOnlySelfAuthoredBranches(g, l, o.ledger, b, b)
        && ReportsSelfAuthoredBranches(g, o.ledger, b, b)
  {
    var (b, l1) := FindBaselines(g, rank, head, l);
    WalkTrunkAuditsBaselines(g, rank, head, b, l1, l);
    assert CheckMergesByBranchAuthors(g, rank, head, l) == AuditEach(g, b, b, l1);
    SameOutsideEvidence(l, l1, {NonMergeOnTrunk}, SelfMerged);
    AuditEachReportsOnlySelfAuthoredBranches(g, b, b, l1);
    AuditEachReportsSelfAuthoredBranches(g, b, b, l1);
  }

  /** Started on an empty ledger, the self-merge audit, when it completes,
      reports a self-merge exactly when some merge among its baselines has a
      feature branch holding a commit for the tracer to stop at. */
  lemma CheckMergesReportsIff(g: Graph, rank: map<Id, nat>, head: Id)
    requires WellFormed(g, rank) && head in g
    ensures var b := FindBaselines(g, rank, head, map[]).0;
      var o := CheckMergesByBranchAuthors(g, rank, head, map[]);
      o.Ok? ==> (SelfMerged in o.ledger <==> SomeSelfMergedBranch(g, b, b))
  {
    var b := FindBaselines(g, rank, head, map[]).0;
    var o := CheckMergesByBranchAuthors(g, rank, head, map[]);
    if o.Ok? {
      var l := o.ledger;
      CheckMergesReports(g, rank, head, map[]);
      CheckMergesKeepsValid(g, rank, head, map[]);
      ValidPresentIffEvidence(l, SelfMerged);
      if EvidenceOf(l, SelfMerged) != {} {
        var e :| e in EvidenceOf(l, SelfMerged);
        assert e in EvidenceOf(l, SelfMerged) - EvidenceOf(map[], SelfMerged);
      }
      if SomeSelfMergedBranch(g, b, b) {
        var m, j, k: nat :| && m in b && m in g && 1 <= j < |g[m].parents|
                            && FirstSelfAuthored(g, g[m].parents[j], g[m].author, b, k);
        assert Recorded(l, SelfMerged, CommitRef(Ancestor(g, g[m].parents[j], k).value));
      }
    }
  }

  /** The self-merge audit aborts, with status 2, exactly when some merge among
      the baselines has a feature branch that runs into the depth cap. */
  lemma CheckMergesAbortsIff(g: Graph, rank: map<Id, nat>, head: Id, l: Ledger)
    requires WellFormed(g, rank) && head in g
    ensures var b := FindBaselines(g, rank, head, l).0;
      CheckMergesByBranchAuthors(g, rank, head, l).Abort? <==> SomeMergeExceedsDepth(g, b, b)
  {
    var (b, l1) := FindBaselines(g, rank, head, l);
    WalkTrunkAuditsBaselines(g, rank, head, b, l1, l);
    AuditEachAbortsIff(g, b, b, l1);
  }

  /** The self-merge audit keeps every ledger list non-empty and
      duplicate-free. */
  lemma CheckMergesKeepsValid(g: Graph, rank: map<Id, nat>, head: Id, l: Ledger)
    requires WellFormed(g, rank) && head in g
    requires Valid(l)
    ensures var o := CheckMergesByBranchAuthors(g, rank, head, l);
      o.Ok? ==> Valid(o.ledger)
  {
    var (b, l1) := FindBaselines(g, rank, head, l);
    FindBaselinesKeepsValid(g, rank, head, l);
    WalkTrunkKeepsValid(g, rank, head, b, l1);
  }
}
