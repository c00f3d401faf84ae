/**
  The feature-branch tracer (`track_back_to_parents`): from the tip of a merged
  feature branch, follow first parents back to a known baseline, reporting the
  first commit authored by the person who performed the merge, and giving up
  with exit status 2 once the depth passes 20.
 */
module Tracer {
  import opened Issues
  import opened Outcomes
  import opened Commits

  const MaxDepth: nat := 20

  /** The tracer moves past `x`: it is no baseline, not by the excluded author,
      and has a parent to move to. */
  predicate Passes(g: Graph, x: Id, excluded: string, baselines: seq<Id>)
    requires x in g
  {
    x !in baselines && g[x].author != excluded && |g[x].parents| > 0
  }

  /** The tracer moves past the `k`-th first-parent ancestor of `id`. */
  predicate PassesAt(g: Graph, id: Id, k: nat, excluded: string, baselines: seq<Id>)
    requires Closed(g) && id in g
  {
    var a := Ancestor(g, id, k);
    a.Some? && Passes(g, a.value, excluded, baselines)
  }

  /** Every self-merge report `r` holds beyond `l` names a commit outside the
      baselines authored by `excluded`. */
  ghost predicate ReportsOnlyAuthor(g: Graph, l: Ledger, r: Ledger, excluded: string, baselines: seq<Id>) {
    forall e :: e in EvidenceOf(r, SelfMerged) - EvidenceOf(l, SelfMerged) ==>
      e.CommitRef? && e.id in g && e.id !in baselines && g[e.id].author == excluded
  }

  /** `track_back_to_parents` with the self-merge report it evidently intends
      (the code as written fails before reporting; see `TraceAsWritten`). */
  function Trace(g: Graph, id: Id, excluded: string, baselines: seq<Id>, depth: nat, l: Ledger): (o: Outcome)
    requires Closed(g) && id in g
    ensures depth > MaxDepth ==> o == Abort(Error)
    ensures depth <= MaxDepth && id in baselines ==> o == Ok(l)
    ensures depth <= MaxDepth && id !in baselines && g[id].author == excluded
            ==> o == Ok(Record(l, SelfMerged, CommitRef(id)))
    ensures depth <= MaxDepth && id !in baselines && g[id].author != excluded && |g[id].parents| == 0
            ==> o == Ok(l)
    ensures o.Ok? || o == Abort(Error)
    ensures o.Ok? ==> SameOutside(l, o.ledger, {SelfMerged}) && Extends(l, o.ledger)
    ensures o.Ok? ==> ReportsOnlyAuthor(g, l, o.ledger, excluded, baselines)
    decreases MaxDepth + 1 - depth
  {
    var c := g[id];
    if depth > MaxDepth then
      Abort(Error)
    else if id in baselines then
      Ok(l)
    else if c.author == excluded then
      RecordEvidence(l, SelfMerged, CommitRef(id));
      Ok(Record(l, SelfMerged, CommitRef(id)))
    else if |c.parents| == 0 then
      Ok(l)
    else
      Trace(g, c.parents[0], excluded, baselines, depth + 1, l)
  }

  /** A trace that stops adds at most one self-merge report. */
  lemma {:induction false} TraceReportsAtMostOne(g: Graph, id: Id, excluded: string, baselines: seq<Id>, depth: nat, l: Ledger)
    requires Closed(g) && id in g
    ensures var o := Trace(g, id, excluded, baselines, depth, l);
      o.Ok? ==> o.ledger == l || exists x :: o.ledger == Record(l, SelfMerged, CommitRef(x))
    decreases MaxDepth + 1 - depth
  {
    var c := g[id];
    if depth <= MaxDepth && id !in baselines && c.author != excluded && |c.parents| > 0 {
      TraceReportsAtMostOne(g, c.parents[0], excluded, baselines, depth + 1, l);
    }
  }

  /** The tracer skips straight over commits it passes: started at depth `d`,
      it behaves as if started `k` steps further back at depth `d + k`. */
  lemma {:induction false} TraceSkipsPassedCommits(g: Graph, id: Id, excluded: string, baselines: seq<Id>, depth: nat, l: Ledger, k: nat)
    requires Closed(g) && id in g
    requires depth + k <= MaxDepth + 1
    requires forall j :: 0 <= j < k ==> PassesAt(g, id, j, excluded, baselines)
    ensures Ancestor(g, id, k).Some?
    ensures Trace(g, id, excluded, baselines, depth, l)
         == Trace(g, Ancestor(g, id, k).value, excluded, baselines, depth + k, l)
    decreases k
  {
    if k > 0 {
      assert PassesAt(g, id, 0, excluded, baselines);
      var p := g[id].parents[0];
      forall j | 0 <= j < k - 1
        ensures PassesAt(g, p, j, excluded, baselines)
      {
        assert PassesAt(g, id, j + 1, excluded, baselines);
      }
      TraceSkipsPassedCommits(g, p, excluded, baselines, depth + 1, l, k - 1);
    }
  }

  /** The depth cap: a trace started at depth `d <= 20` aborts exactly when each
      of the `21 - d` commits it may examine is passed over. Started at depth 1
      it therefore examines at most 20 commits. */
  lemma {:induction false} TraceAbortsIff(g: Graph, id: Id, excluded: string, baselines: seq<Id>, depth: nat, l: Ledger)
    requires Closed(g) && id in g
    requires depth <= MaxDepth
    ensures Trace(g, id, excluded, baselines, depth, l).Abort?
        <==> forall k :: 0 <= k <= MaxDepth - depth ==> PassesAt(g, id, k, excluded, baselines)
    decreases MaxDepth - depth
  {
    var c := g[id];
    if Passes(g, id, excluded, baselines) {
      var p := c.parents[0];
      if depth < MaxDepth {
        TraceAbortsIff(g, p, excluded, baselines, depth + 1, l);
        forall k | 1 <= k <= MaxDepth - depth
          ensures PassesAt(g, id, k, excluded, baselines) == PassesAt(g, p, k - 1, excluded, baselines)
        {
        }
        forall k | 0 <= k <= MaxDepth - depth - 1
          ensures PassesAt(g, p, k, excluded, baselines) == PassesAt(g, id, k + 1, excluded, baselines)
        {
        }
        assert PassesAt(g, id, 0, excluded, baselines);
      }
    } else {
      assert !PassesAt(g, id, 0, excluded, baselines);
    }
  }

  /** Started at depth 1 on `p`, the tracer passes over all 20 commits it may
      examine and so runs into the depth cap. */
  ghost predicate ExceedsDepth(g: Graph, p: Id, excluded: string, baselines: seq<Id>)
    requires Closed(g) && p in g
  {
    forall k :: 0 <= k < MaxDepth ==> PassesAt(g, p, k, excluded, baselines)
  }

  /** A feature branch's trace aborts exactly when it runs into the depth cap,
      whatever the ledger holds. */
  lemma TraceFromTipAbortsIff(g: Graph, p: Id, excluded: string, baselines: seq<Id>, l: Ledger)
    requires Closed(g) && p in g
    ensures Trace(g, p, excluded, baselines, 1, l).Abort? <==> ExceedsDepth(g, p, excluded, baselines)
  {
    TraceAbortsIff(g, p, excluded, baselines, 1, l);
  }

  /** Every commit before the `k`-th first-parent ancestor of `id` is passed
      over, and that ancestor is a non-baseline commit by `excluded`: the
      tracer stops there with a report, if the depth cap lets it get that far. */
  ghost predicate StopsAtSelfAuthored(g: Graph, id: Id, excluded: string, baselines: seq<Id>, k: nat)
    requires Closed(g) && id in g
  {
    && (forall j :: 0 <= j < k ==> PassesAt(g, id, j, excluded, baselines))
    && Ancestor(g, id, k).Some?
    && Ancestor(g, id, k).value !in baselines
    && g[Ancestor(g, id, k).value].author == excluded
  }

  /** The `k`-th first-parent ancestor of `p` lies within the reach of a trace
      started at depth 1, and the tracer stops there with a report. */
  ghost predicate FirstSelfAuthored(g: Graph, p: Id, excluded: string, baselines: seq<Id>, k: nat)
    requires Closed(g) && p in g
  {
    k < MaxDepth && StopsAtSelfAuthored(g, p, excluded, baselines, k)
  }

  /** Stopping `k + 1` steps back from a passed commit is stopping `k` steps
      back from its first parent. */
  lemma StopsAtSelfAuthoredShifts(g: Graph, id: Id, excluded: string, baselines: seq<Id>, k: nat)
    requires Closed(g) && id in g && Passes(g, id, excluded, baselines)
    ensures StopsAtSelfAuthored(g, id, excluded, baselines, k + 1)
        <==> StopsAtSelfAuthored(g, g[id].parents[0], excluded, baselines, k)
  {
    var p := g[id].parents[0];
    assert Ancestor(g, id, k + 1) == Ancestor(g, p, k);
    assert PassesAt(g, id, 0, excluded, baselines);
    forall j | 0 <= j < k
      ensures PassesAt(g, id, j + 1, excluded, baselines) == PassesAt(g, p, j, excluded, baselines)
    {
      assert Ancestor(g, id, j + 1) == Ancestor(g, p, j);
    }
    if StopsAtSelfAuthored(g, p, excluded, baselines, k) {
      forall j | 0 <= j < k + 1
        ensures PassesAt(g, id, j, excluded, baselines)
      {
        if j > 0 {
          assert PassesAt(g, p, j - 1, excluded, baselines);
        }
      }
    }
  }

  /** Soundness of a trace started at depth `d`: when it completes it has
      either reached no commit to stop at within its `21 - d` steps and added
      nothing, or added exactly the report of the first one. */
  lemma {:induction false} TraceReportsOnlyStop(g: Graph, id: Id, excluded: string, baselines: seq<Id>, depth: nat, l: Ledger)
    requires Closed(g) && id in g
    ensures var o := Trace(g, id, excluded, baselines, depth, l);
      o.Ok? ==>
        || (&& o.ledger == l
            && forall k: nat :: k + depth <= MaxDepth ==> !StopsAtSelfAuthored(g, id, excluded, baselines, k))
        || exists k: nat :: && k + depth <= MaxDepth
                       && StopsAtSelfAuthored(g, id, excluded, baselines, k)
                       && o.ledger == Record(l, SelfMerged, CommitRef(Ancestor(g, id, k).value))
    decreases MaxDepth + 1 - depth
  {
    var c := g[id];
    if depth <= MaxDepth {
      if c.author == excluded && id !in baselines {
        assert StopsAtSelfAuthored(g, id, excluded, baselines, 0);
      } else if !Passes(g, id, excluded, baselines) {
        forall k: nat | k + depth <= MaxDepth
          ensures !StopsAtSelfAuthored(g, id, excluded, baselines, k)
        {
          assert !PassesAt(g, id, 0, excluded, baselines);
        }
      } else {
        var p := c.parents[0];
        TraceReportsOnlyStop(g, p, excluded, baselines, depth + 1, l);
        var o := Trace(g, p, excluded, baselines, depth + 1, l);
        if o.Ok? {
          if exists k: nat :: && k + depth + 1 <= MaxDepth
                         && StopsAtSelfAuthored(g, p, excluded, baselines, k)
                         && o.ledger == Record(l, SelfMerged, CommitRef(Ancestor(g, p, k).value)) {
            var k: nat :| && k + depth + 1 <= MaxDepth
                     && StopsAtSelfAuthored(g, p, excluded, baselines, k)
                     && o.ledger == Record(l, SelfMerged, CommitRef(Ancestor(g, p, k).value));
            StopsAtSelfAuthoredShifts(g, id, excluded, baselines, k);
            assert Ancestor(g, id, k + 1) == Ancestor(g, p, k);
          } else {
            forall k: nat | k + depth <= MaxDepth
              ensures !StopsAtSelfAuthored(g, id, excluded, baselines, k)
            {
              if k > 0 {
                StopsAtSelfAuthoredShifts(g, id, excluded, baselines, k - 1);
              }
            }
          }
        }
      }
    }
  }

  /** Soundness of one trace: started at depth 1 on `p`, the tracer adds
      nothing when no commit of the branch within its reach is one to stop at,
      and otherwise adds exactly the report of the first such commit. Together
      with `TraceReportsFirstSelfAuthored` and `TraceFromTipAbortsIff` this
      fixes the trace completely. */
  lemma TraceReportsOnlyFirstSelfAuthored(g: Graph, p: Id, excluded: string, baselines: seq<Id>, l: Ledger)
    requires Closed(g) && p in g
    ensures var o := Trace(g, p, excluded, baselines, 1, l);
      o.Ok? ==>
        || (o.ledger == l && forall k: nat :: !FirstSelfAuthored(g, p, excluded, baselines, k))
        || exists k: nat :: && FirstSelfAuthored(g, p, excluded, baselines, k)
                       && o.ledger == Record(l, SelfMerged, CommitRef(Ancestor(g, p, k).value))
  {
    TraceReportsOnlyStop(g, p, excluded, baselines, 1, l);
  }

  /** Completeness of one trace: started at depth 1, the tracer reports the
      first commit by the excluded author it reaches before a baseline, a root
      or the depth cap, however deep in the feature branch it lies. */
  lemma TraceReportsFirstSelfAuthored(g: Graph, p: Id, excluded: string, baselines: seq<Id>, l: Ledger, k: nat)
    requires Closed(g) && p in g
    requires FirstSelfAuthored(g, p, excluded, baselines, k)
    ensures Trace(g, p, excluded, baselines, 1, l)
         == Ok(Record(l, SelfMerged, CommitRef(Ancestor(g, p, k).value)))
  {
    TraceSkipsPassedCommits(g, p, excluded, baselines, 1, l, k);
  }

  /** The tracer keeps every ledger list non-empty and duplicate-free. */
  lemma {:induction false} TraceKeepsValid(g: Graph, id: Id, excluded: string, baselines: seq<Id>, depth: nat, l: Ledger)
    requires Closed(g) && id in g
    requires Valid(l)
    ensures var o := Trace(g, id, excluded, baselines, depth, l);
      o.Ok? ==> Valid(o.ledger)
    decreases MaxDepth + 1 - depth
  {
    var c := g[id];
    if depth <= MaxDepth && id !in baselines {
      if c.author == excluded {
        RecordKeepsValid(l, SelfMerged, CommitRef(id));
      } else if |c.parents| > 0 {
        TraceKeepsValid(g, c.parents[0], excluded, baselines, depth + 1, l);
      }
    }
  }

  /** `track_back_to_parents` as written: the log call at the self-merge report
      formats `"%s" % (id, email)`, which raises TypeError before anything is
      recorded. */
  function TraceAsWritten(g: Graph, id: Id, excluded: string, baselines: seq<Id>, depth: nat, l: Ledger): (o: Outcome)
    requires Closed(g) && id in g
    ensures o == Ok(l) || o == Abort(Error) || o == Crash(TypeError)
    decreases MaxDepth + 1 - depth
  {
    var c := g[id];
    if depth > MaxDepth then
      Abort(Error)
    else if id in baselines then
      Ok(l)
    else if c.author == excluded then
      Crash(TypeError)
    else if |c.parents| == 0 then
      Ok(l)
    else
      TraceAsWritten(g, c.parents[0], excluded, baselines, depth + 1, l)
  }

  /** The code as written crashes exactly where the intended tracer would add a
      self-merge report to a ledger that has none, and agrees with it otherwise. */
  lemma {:induction false} AsWrittenCrashesWhereReportIntended(g: Graph, id: Id, excluded: string, baselines: seq<Id>, depth: nat, l: Ledger)
    requires Closed(g) && id in g
    requires SelfMerged !in l
    ensures var fixed := Trace(g, id, excluded, baselines, depth, l);
      && (TraceAsWritten(g, id, excluded, baselines, depth, l) == Crash(TypeError)
          <==> fixed.Ok? && SelfMerged in fixed.ledger)
      && (TraceAsWritten(g, id, excluded, baselines, depth, l) != Crash(TypeError)
          ==> TraceAsWritten(g, id, excluded, baselines, depth, l) == fixed)
    decreases MaxDepth + 1 - depth
  {
    var c := g[id];
    if depth <= MaxDepth && id !in baselines && c.author != excluded && |c.parents| > 0 {
      AsWrittenCrashesWhereReportIntended(g, c.parents[0], excluded, baselines, depth + 1, l);
    }
  }

  /** A concrete history: alice merges feature commit "f1", which she wrote
      herself on top of baseline "b1". */
  function SelfMergeExample(): Graph {
    map[
      "root" := Commit("bob@x", [], None),
      "b1" := Commit("bob@x", ["root"], None),
      "f1" := Commit("alice@x", ["b1"], None),
      "m" := Commit("alice@x", ["b1", "f1"], None)
    ]
  }

  /** On that history the code as written crashes where the intended tracer
      reports "f1". */
  lemma SelfMergeCrashesAsWritten()
    ensures Closed(SelfMergeExample())
    ensures TraceAsWritten(SelfMergeExample(), "f1", "alice@x", ["m", "b1"], 1, map[]) == Crash(TypeError)
    ensures Trace(SelfMergeExample(), "f1", "alice@x", ["m", "b1"], 1, map[])
         == Ok(map[SelfMerged := [CommitRef("f1")]])
  {
  }
}
