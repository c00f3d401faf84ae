/**
  The issue ledger of the audit: a map from an issue category to the list of
  evidence recorded for it, in the order it was first recorded, without
  duplicates.
 */
module Issues {

  /** Evidence attached to an issue: a commit id, a free-text note, or nothing
      (the audit records "no ROLES file" with no evidence at all). */
  datatype Evidence = NoEvidence | CommitRef(id: string) | Note(text: string)

  /** The fixed vocabulary of issue categories. */
  datatype Category = NonMergeOnTrunk | SelfMerged | NoRolesFile | Unauthorised {
    /** The text the audit uses as the category's key and in its report. */
    function Label(): string {
      match this
      case NonMergeOnTrunk => "Non-merge commit on trunk"
      case SelfMerged => "Feature branch merged by one of its contributors"
      case NoRolesFile => "Repository has no ROLES file"
      case Unauthorised => "Unauthorised user committed to branch"
    }
  }

  /** Distinct categories have distinct labels, so keying the ledger by
      category is keying it by label. */
  lemma LabelsDistinct(c1: Category, c2: Category)
    ensures c1.Label() == c2.Label() <==> c1 == c2
  {
  }

  type Ledger = map<Category, seq<Evidence>>

  predicate Distinct(s: seq<Evidence>) {
    forall i, j :: 0 <= i < j < |s| ==> s[i] != s[j]
  }

  /** Every category that exists holds a non-empty, duplicate-free list. */
  predicate Valid(l: Ledger) {
    forall c :: c in l ==> |l[c]| > 0 && Distinct(l[c])
  }

  predicate Recorded(l: Ledger, c: Category, e: Evidence) {
    c in l && e in l[c]
  }

  /** The evidence of category `c`, as a set (empty when the category is absent). */
  function EvidenceOf(l: Ledger, c: Category): set<Evidence> {
    if c in l then set e | e in l[c] else {}
  }

  lemma EvidenceOfRecorded(l: Ledger, c: Category, e: Evidence)
    ensures e in EvidenceOf(l, c) <==> Recorded(l, c, e)
  {
  }

  /** In a valid ledger a category is present exactly when it has evidence. */
  lemma ValidPresentIffEvidence(l: Ledger, c: Category)
    requires Valid(l)
    ensures c in l <==> EvidenceOf(l, c) != {}
  {
    if c in l {
      assert l[c][0] in EvidenceOf(l, c);
    }
  }

  /** `l1` grew out of `l0`: no category disappeared and every list of `l0` is a
      prefix of the corresponding list of `l1`. */
  predicate Extends(l0: Ledger, l1: Ledger) {
    && l0.Keys <= l1.Keys
    && forall c :: c in l0 ==> l0[c] <= l1[c]
  }

  /** `l0` and `l1` agree on every category outside `cs`. */
  predicate SameOutside(l0: Ledger, l1: Ledger, cs: set<Category>) {
    && l0.Keys - cs == l1.Keys - cs
    && forall k :: k in l0 && k !in cs ==> k in l1 && l1[k] == l0[k]
  }

  /** `record_issue`: appends `e` to the list of `c` unless it is already there,
      creating the category when it is new. */
  function Record(l: Ledger, c: Category, e: Evidence): (r: Ledger)
    ensures Recorded(r, c, e)
    ensures SameOutside(l, r, {c})
    ensures Extends(l, r)
    ensures Recorded(l, c, e) ==> r == l
    ensures !Recorded(l, c, e) ==> r[c] == (if c in l then l[c] else []) + [e]
  {
    l[c := Appended(l, c, e)]
  }

  /** The list category `c` holds once `e` has been recorded into it. */
  function Appended(l: Ledger, c: Category, e: Evidence): seq<Evidence> {
    if c !in l then [e]
    else if e in l[c] then l[c]
    else l[c] + [e]
  }

  /** Recording adds exactly `e` to the evidence of `c`. */
  lemma RecordEvidence(l: Ledger, c: Category, e: Evidence)
    ensures EvidenceOf(Record(l, c, e), c) == EvidenceOf(l, c) + {e}
  {
  }

  /** Recording keeps every list non-empty and duplicate-free. */
  lemma RecordKeepsValid(l: Ledger, c: Category, e: Evidence)
    ensures Valid(l) ==> Valid(Record(l, c, e))
  {
  }

  /** Recording the same pair twice is recording it once. */
  lemma RecordIdempotent(l: Ledger, c: Category, e: Evidence)
    ensures Record(Record(l, c, e), c, e) == Record(l, c, e)
  {
  }

  /** Records into different categories do not interfere, so the order in which
      categories are first created carries no information. */
  lemma RecordCommutesAcrossCategories(l: Ledger, c1: Category, e1: Evidence, c2: Category, e2: Evidence)
    requires c1 != c2
    ensures Record(Record(l, c1, e1), c2, e2) == Record(Record(l, c2, e2), c1, e1)
  {
  }

  lemma ExtendsTransitive(l0: Ledger, l1: Ledger, l2: Ledger)
    requires Extends(l0, l1) && Extends(l1, l2)
    ensures Extends(l0, l2)
  {
  }

  lemma ExtendsKeepsRecords(l0: Ledger, l1: Ledger, c: Category, e: Evidence)
    requires Extends(l0, l1) && Recorded(l0, c, e)
    ensures Recorded(l1, c, e)
  {
    var i :| 0 <= i < |l0[c]| && l0[c][i] == e;
    assert l1[c][i] == e;
  }

  lemma SameOutsideWiden(l0: Ledger, l1: Ledger, cs: set<Category>, ds: set<Category>)
    requires SameOutside(l0, l1, cs) && cs <= ds
    ensures SameOutside(l0, l1, ds)
  {
    assert l0.Keys - ds == (l0.Keys - cs) - ds;
    assert l1.Keys - ds == (l1.Keys - cs) - ds;
  }

  lemma SameOutsideTransitive(l0: Ledger, l1: Ledger, l2: Ledger, cs: set<Category>)
    requires SameOutside(l0, l1, cs) && SameOutside(l1, l2, cs)
    ensures SameOutside(l0, l2, cs)
  {
  }

  /** A ledger that agrees with the empty one outside `c`, and lacks `c`, is
      empty. */
  lemma SameOutsideEmpty(l: Ledger, c: Category)
    requires SameOutside(map[], l, {c}) && c !in l
    ensures l == map[]
  {
    assert l.Keys == l.Keys - {c};
  }

  lemma SameOutsideEvidence(l0: Ledger, l1: Ledger, cs: set<Category>, c: Category)
    requires SameOutside(l0, l1, cs) && c !in cs
    ensures EvidenceOf(l0, c) == EvidenceOf(l1, c)
    ensures c in l0 <==> c in l1
  {
    assert c in l0 <==> c in l0.Keys - cs;
    assert c in l1 <==> c in l1.Keys - cs;
  }
}
