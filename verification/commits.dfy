/**
  The commit graph the audit walks: an immutable map from commit id to the
  parts of a commit the audit reads.
 */
module Commits {

  type Id = string

  datatype Option<T> = None | Some(value: T)

  /** A commit: its author's email, its ordered parents (zero for a root, two or
      more for a merge) and the text of the `ROLES` file in its tree, if any. */
  datatype Commit = Commit(author: string, parents: seq<Id>, roles: Option<string>)

  type Graph = map<Id, Commit>

  /** Every parent of every commit is itself in the graph. */
  predicate Closed(g: Graph) {
    forall id, i :: id in g && 0 <= i < |g[id].parents| ==> g[id].parents[i] in g
  }

  /** `rank` witnesses that the graph is acyclic: it strictly decreases from
      every commit to each of its parents. */
  predicate WellFormed(g: Graph, rank: map<Id, nat>) {
    && Closed(g)
    && g.Keys <= rank.Keys
    && forall id, i :: id in g && 0 <= i < |g[id].parents| ==> rank[g[id].parents[i]] < rank[id]
  }

  /** The commit `k` first-parent steps back from `id`, if the chain is that long. */
  function Ancestor(g: Graph, id: Id, k: nat): (r: Option<Id>)
    requires Closed(g) && id in g
    ensures r.Some? ==> r.value in g
    decreases k
  {
    if k == 0 then Some(id)
    else if |g[id].parents| == 0 then None
    else Ancestor(g, g[id].parents[0], k - 1)
  }

  /** `x` lies on the first-parent line starting at `id`. */
  ghost predicate OnFirstParentLine(g: Graph, id: Id, x: Id)
    requires Closed(g) && id in g
  {
    exists k: nat :: Ancestor(g, id, k) == Some(x)
  }
}
