/**
  The trunk walk (`find_baselines`): from a commit, follow first parents down to
  the root, collecting every commit met before the root, newest first, and
  flagging each single-parent one as a non-merge commit on the trunk.
 */
module Baselines {
  import opened Issues
  import opened Commits

  /** The "Non-merge commit on trunk" evidence owed to the single-parent
      commits among `ids`. */
  ghost function SingleParentRefs(g: Graph, ids: seq<Id>): set<Evidence> {
    set x | x in ids && x in g && |g[x].parents| == 1 :: CommitRef(x)
  }

  /** The first-parent line from `id` without its root: `b[0]` is `id`, each
      entry's first parent is the next entry, and the last entry's first parent
      is a root. */
  ghost predicate IsTrunk(g: Graph, id: Id, b: seq<Id>)
    requires Closed(g) && id in g
  {
    && (b == [] <==> |g[id].parents| == 0)
    && (b != [] ==> b[0] == id)
    && (forall i :: 0 <= i < |b| ==> b[i] in g && |g[b[i]].parents| > 0)
    && (forall i :: 0 <= i < |b| - 1 ==> g[b[i]].parents[0] == b[i + 1])
    && (b != [] ==> |g[g[b[|b| - 1]].parents[0]].parents| == 0)
  }

  /** `find_baselines`, threading the issue ledger. */
  function FindBaselines(g: Graph, rank: map<Id, nat>, id: Id, l: Ledger): (r: (seq<Id>, Ledger))
    requires WellFormed(g, rank) && id in g
    ensures IsTrunk(g, id, r.0)
    ensures SameOutside(l, r.1, {NonMergeOnTrunk})
    ensures Extends(l, r.1)
    decreases rank[id]
  {
    var c := g[id];
    if |c.parents| == 0 then
      ([], l)
    else
      var l1 := if |c.parents| > 1 then l else Record(l, NonMergeOnTrunk, CommitRef(id));
      var (rest, l') := FindBaselines(g, rank, c.parents[0], l1);
      var b := [id] + rest;
      assert forall i :: 1 <= i < |b| ==> b[i] == rest[i - 1];
      SameOutsideTransitive(l, l1, l', {NonMergeOnTrunk});
      ExtendsTransitive(l, l1, l');
      (b, l')
  }

  /** Which commits the walk returns does not depend on the ledger it threads. */
  lemma {:induction false} BaselinesIgnoreLedger(g: Graph, rank: map<Id, nat>, id: Id, l1: Ledger, l2: Ledger)
    requires WellFormed(g, rank) && id in g
    ensures FindBaselines(g, rank, id, l1).0 == FindBaselines(g, rank, id, l2).0
    decreases rank[id]
  {
    var c := g[id];
    if |c.parents| > 1 {
      BaselinesIgnoreLedger(g, rank, c.parents[0], l1, l2);
    } else if |c.parents| == 1 {
      BaselinesIgnoreLedger(g, rank, c.parents[0],
        Record(l1, NonMergeOnTrunk, CommitRef(id)), Record(l2, NonMergeOnTrunk, CommitRef(id)));
    }
  }

  lemma SingleParentRefsCons(g: Graph, id: Id, rest: seq<Id>)
    requires id in g
    ensures SingleParentRefs(g, [id] + rest)
         == (if |g[id].parents| == 1 then {CommitRef(id)} else {}) + SingleParentRefs(g, rest)
  {
    var lhs := SingleParentRefs(g, [id] + rest);
    var rhs := (if |g[id].parents| == 1 then {CommitRef(id)} else {}) + SingleParentRefs(g, rest);
    forall e | e in lhs
      ensures e in rhs
    {
      var x :| x in [id] + rest && x in g && |g[x].parents| == 1 && e == CommitRef(x);
      if x != id {
        assert x in rest;
      }
    }
  }

  /** "Non-merge commit on trunk" gains exactly the single-parent baselines. */
  lemma {:induction false} FindBaselinesEvidence(g: Graph, rank: map<Id, nat>, id: Id, l: Ledger)
    requires WellFormed(g, rank) && id in g
    ensures var r := FindBaselines(g, rank, id, l);
      EvidenceOf(r.1, NonMergeOnTrunk) == EvidenceOf(l, NonMergeOnTrunk) + SingleParentRefs(g, r.0)
    decreases rank[id]
  {
    var c := g[id];
    if |c.parents| > 1 {
      FindBaselinesEvidence(g, rank, c.parents[0], l);
      SingleParentRefsCons(g, id, FindBaselines(g, rank, c.parents[0], l).0);
    } else if |c.parents| == 1 {
      var l1 := Record(l, NonMergeOnTrunk, CommitRef(id));
      RecordEvidence(l, NonMergeOnTrunk, CommitRef(id));
      FindBaselinesEvidence(g, rank, c.parents[0], l1);
      SingleParentRefsCons(g, id, FindBaselines(g, rank, c.parents[0], l1).0);
    }
  }

  /** The walk keeps the ledger's lists non-empty and duplicate-free. */
  lemma {:induction false} FindBaselinesKeepsValid(g: Graph, rank: map<Id, nat>, id: Id, l: Ledger)
    requires WellFormed(g, rank) && id in g
    requires Valid(l)
    ensures Valid(FindBaselines(g, rank, id, l).1)
    decreases rank[id]
  {
    var c := g[id];
    if |c.parents| > 1 {
      FindBaselinesKeepsValid(g, rank, c.parents[0], l);
    } else if |c.parents| == 1 {
      RecordKeepsValid(l, NonMergeOnTrunk, CommitRef(id));
      FindBaselinesKeepsValid(g, rank, c.parents[0], Record(l, NonMergeOnTrunk, CommitRef(id)));
    }
  }

  /** Walking again over a trunk whose non-merge commits are already recorded
      leaves the ledger as it was. */
  lemma {:induction false} FindBaselinesAgainChangesNothing(g: Graph, rank: map<Id, nat>, id: Id, l: Ledger)
    requires WellFormed(g, rank) && id in g
    requires SingleParentRefs(g, FindBaselines(g, rank, id, l).0) <= EvidenceOf(l, NonMergeOnTrunk)
    ensures FindBaselines(g, rank, id, l).1 == l
    decreases rank[id]
  {
    var c := g[id];
    if |c.parents| > 0 {
      var rest := FindBaselines(g, rank, c.parents[0], l).0;
      BaselinesIgnoreLedger(g, rank, c.parents[0], l, Record(l, NonMergeOnTrunk, CommitRef(id)));
      SingleParentRefsCons(g, id, rest);
      if |c.parents| == 1 {
        assert CommitRef(id) in EvidenceOf(l, NonMergeOnTrunk);
        assert Record(l, NonMergeOnTrunk, CommitRef(id)) == l;
      }
      FindBaselinesAgainChangesNothing(g, rank, c.parents[0], l);
    }
  }

  /** One first-parent step past the `k`-th ancestor is the `k + 1`-th ancestor. */
  lemma {:induction false} AncestorStep(g: Graph, id: Id, k: nat)
    requires Closed(g) && id in g
    ensures Ancestor(g, id, k + 1)
         == match Ancestor(g, id, k)
            case None => None
            case Some(x) => if |g[x].parents| == 0 then None else Some(g[x].parents[0])
    decreases k
  {
    if k > 0 && |g[id].parents| > 0 {
      AncestorStep(g, g[id].parents[0], k - 1);
    }
  }

  /** The `i`-th entry of a trunk is the `i`-th first-parent ancestor, and the
      entry after the last is a root. */
  lemma {:induction false} TrunkIsAncestry(g: Graph, id: Id, b: seq<Id>, i: nat)
    requires Closed(g) && id in g && IsTrunk(g, id, b)
    requires i <= |b|
    ensures i < |b| ==> Ancestor(g, id, i) == Some(b[i])
    ensures i == |b| ==> Ancestor(g, id, i).Some? && |g[Ancestor(g, id, i).value].parents| == 0
    decreases i
  {
    if i > 0 {
      TrunkIsAncestry(g, id, b, i - 1);
      AncestorStep(g, id, i - 1);
    }
  }

  /** Past the root the first-parent line has nothing. */
  lemma {:induction false} NothingPastRoot(g: Graph, id: Id, i: nat, j: nat)
    requires Closed(g) && id in g
    requires Ancestor(g, id, i).Some? && |g[Ancestor(g, id, i).value].parents| == 0
    requires i < j
    ensures Ancestor(g, id, j) == None
    decreases j - i
  {
    AncestorStep(g, id, i);
    if j > i + 1 {
      AncestorStep(g, id, j - 1);
      NothingPastRoot(g, id, i, j - 1);
    }
  }

  /** The baselines are exactly the non-root commits on the first-parent line
      from the start commit. */
  lemma BaselinesAreTrunkNonRoots(g: Graph, rank: map<Id, nat>, id: Id, l: Ledger, x: Id)
    requires WellFormed(g, rank) && id in g && x in g
    ensures x in FindBaselines(g, rank, id, l).0 <==> OnFirstParentLine(g, id, x) && |g[x].parents| > 0
  {
    var b := FindBaselines(g, rank, id, l).0;
    if x in b {
      var i :| 0 <= i < |b| && b[i] == x;
      TrunkIsAncestry(g, id, b, i);
    }
    if OnFirstParentLine(g, id, x) && |g[x].parents| > 0 {
      var k: nat :| Ancestor(g, id, k) == Some(x);
      TrunkIsAncestry(g, id, b, |b|);
      if k < |b| {
        TrunkIsAncestry(g, id, b, k);
      } else if k > |b| {
        NothingPastRoot(g, id, |b|, k);
      }
    }
  }

  /** Along a trunk the rank strictly decreases, so no commit appears twice. */
  lemma {:induction false} TrunkStrictlyOlder(g: Graph, rank: map<Id, nat>, id: Id, b: seq<Id>, i: nat, j: nat)
    requires WellFormed(g, rank) && id in g && IsTrunk(g, id, b)
    requires i < j < |b|
    ensures rank[b[j]] < rank[b[i]]
    decreases j - i
  {
    if j > i + 1 {
      TrunkStrictlyOlder(g, rank, id, b, i, j - 1);
    }
  }

  /** No commit appears twice on a trunk. */
  lemma TrunkDistinct(g: Graph, rank: map<Id, nat>, id: Id, b: seq<Id>)
    requires WellFormed(g, rank) && id in g && IsTrunk(g, id, b)
    ensures forall i, j :: 0 <= i < j < |b| ==> b[i] != b[j]
  {
    forall i, j | 0 <= i < j < |b|
      ensures b[i] != b[j]
    {
      TrunkStrictlyOlder(g, rank, id, b, i, j);
    }
  }

  lemma {:induction false} DistinctCardinality(s: seq<Id>)
    requires forall i, j :: 0 <= i < j < |s| ==> s[i] != s[j]
    ensures |set x | x in s| == |s|
  {
    if s != [] {
      DistinctCardinality(s[1..]);
      var tail := set x | x in s[1..];
      assert (set x | x in s) == tail + {s[0]};
      assert s[0] !in tail;
    }
  }

  /** When every non-root commit lies on the start commit's first-parent line, the
      walk returns one entry per non-root commit. */
  lemma OneBaselinePerNonRoot(g: Graph, rank: map<Id, nat>, head: Id, l: Ledger)
    requires WellFormed(g, rank) && head in g
    requires forall x :: x in g && |g[x].parents| > 0 ==> OnFirstParentLine(g, head, x)
    ensures |FindBaselines(g, rank, head, l).0| == |set x | x in g && |g[x].parents| > 0|
  {
    var b := FindBaselines(g, rank, head, l).0;
    TrunkDistinct(g, rank, head, b);
    DistinctCardinality(b);
    var entries := set x | x in b;
    var nonRoots := set x | x in g && |g[x].parents| > 0;
    forall x | x in entries
      ensures x in nonRoots
    {
      var i :| 0 <= i < |b| && b[i] == x;
      BaselinesAreTrunkNonRoots(g, rank, head, l, x);
    }
    forall x | x in nonRoots
      ensures x in entries
    {
      BaselinesAreTrunkNonRoots(g, rank, head, l, x);
    }
    assert entries == nonRoots;
  }

  /** Without merges, the walk flags every commit it returns as a non-merge
      commit on the trunk. */
  lemma NoMergesAllFlagged(g: Graph, rank: map<Id, nat>, head: Id, l: Ledger)
    requires WellFormed(g, rank) && head in g
    requires forall x :: x in g ==> |g[x].parents| <= 1
    ensures var r := FindBaselines(g, rank, head, l);
      forall x :: x in r.0 ==> Recorded(r.1, NonMergeOnTrunk, CommitRef(x))
  {
    var (b, l1) := FindBaselines(g, rank, head, l);
    FindBaselinesEvidence(g, rank, head, l);
    forall x | x in b
      ensures Recorded(l1, NonMergeOnTrunk, CommitRef(x))
    {
      var i :| 0 <= i < |b| && b[i] == x;
      assert x in g && |g[x].parents| == 1;
      assert CommitRef(x) in SingleParentRefs(g, b);
      EvidenceOfRecorded(l1, NonMergeOnTrunk, CommitRef(x));
    }
  }
}
