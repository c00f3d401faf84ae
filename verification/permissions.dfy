/**
  The authorisation audit (`check_merge_permissions`): read `ROLES` from the
  head commit's tree and check the author of every baseline against the users
  it allows to commit to `master`.
 */
module Permissions {
  import opened Issues
  import opened Outcomes
  import opened Commits
  import opened Baselines
  import opened Roles

  /** The only branch the audit checks. */
  const CheckedBranch: string := "master"

  /** The evidence recorded for an unauthorised commit by `email` at `id`. */
  function UnauthorisedNote(email: string, id: Id): Evidence {
    Note(email + " committed to " + CheckedBranch + " at " + id)
  }

  /** The note reads `<email> committed to master at <id>`. */
  lemma UnauthorisedNoteFormat()
    ensures UnauthorisedNote("r@x", "b1") == Note("r@x committed to master at b1")
  {
  }

  /** Two notes for the same author coincide exactly when they name the same
      commit, so recording them never merges two commits' notes into one. */
  lemma UnauthorisedNoteNamesCommit(email: string, x: Id, y: Id)
    ensures UnauthorisedNote(email, x) == UnauthorisedNote(email, y) <==> x == y
  {
    var prefix := email + " committed to " + CheckedBranch + " at ";
    assert (prefix + x)[|prefix|..] == x;
    assert (prefix + y)[|prefix|..] == y;
    assert UnauthorisedNote(email, x).text == prefix + x;
    assert UnauthorisedNote(email, y).text == prefix + y;
  }

  /** The notes owed to the baselines whose author is not in `allowed`. */
  ghost function UnauthorisedNotes(g: Graph, b: seq<Id>, allowed: seq<string>): set<Evidence> {
    set x | x in b && x in g && g[x].author !in allowed :: UnauthorisedNote(g[x].author, x)
  }

  /** The loop over the baselines, with `allowed` standing for
      `mergers["master"]`. */
  function CheckAuthors(g: Graph, b: seq<Id>, allowed: seq<string>, l: Ledger): (r: Ledger)
    requires forall x :: x in b ==> x in g
    ensures SameOutside(l, r, {Unauthorised})
    ensures Extends(l, r)
    decreases |b|
  {
    if b == [] then
      l
    else
      var x := b[0];
      var l1 := if g[x].author !in allowed then Record(l, Unauthorised, UnauthorisedNote(g[x].author, x)) else l;
      var r := CheckAuthors(g, b[1..], allowed, l1);
      SameOutsideTransitive(l, l1, r, {Unauthorised});
      ExtendsTransitive(l, l1, r);
      r
  }

  lemma UnauthorisedNotesCons(g: Graph, b: seq<Id>, allowed: seq<string>)
    requires b != [] && b[0] in g
    ensures UnauthorisedNotes(g, b, allowed)
         == (if g[b[0]].author !in allowed then {UnauthorisedNote(g[b[0]].author, b[0])} else {})
            + UnauthorisedNotes(g, b[1..], allowed)
  {
    var lhs := UnauthorisedNotes(g, b, allowed);
    forall e | e in lhs
      ensures e in UnauthorisedNotes(g, b[1..], allowed) || e == UnauthorisedNote(g[b[0]].author, b[0])
    {
      var x :| x in b && x in g && g[x].author !in allowed && e == UnauthorisedNote(g[x].author, x);
      if x != b[0] {
        assert x in b[1..];
      }
    }
  }

  /** The loop records one note per baseline whose author is not allowed, and
      nothing else. */
  lemma {:induction false} CheckAuthorsEvidence(g: Graph, b: seq<Id>, allowed: seq<string>, l: Ledger)
    requires forall x :: x in b ==> x in g
    ensures var r := CheckAuthors(g, b, allowed, l);
      && EvidenceOf(r, Unauthorised) == EvidenceOf(l, Unauthorised) + UnauthorisedNotes(g, b, allowed)
      && (Unauthorised in r <==> Unauthorised in l || UnauthorisedNotes(g, b, allowed) != {})
    decreases |b|
  {
    if b != [] {
      var x := b[0];
      var note := UnauthorisedNote(g[x].author, x);
      UnauthorisedNotesCons(g, b, allowed);
      if g[x].author !in allowed {
        RecordEvidence(l, Unauthorised, note);
        CheckAuthorsEvidence(g, b[1..], allowed, Record(l, Unauthorised, note));
      } else {
        CheckAuthorsEvidence(g, b[1..], allowed, l);
      }
    }
  }

  lemma {:induction false} CheckAuthorsKeepsValid(g: Graph, b: seq<Id>, allowed: seq<string>, l: Ledger)
    requires forall x :: x in b ==> x in g
    requires Valid(l)
    ensures Valid(CheckAuthors(g, b, allowed, l))
    decreases |b|
  {
    if b != [] {
      var x := b[0];
      var note := UnauthorisedNote(g[x].author, x);
      if g[x].author !in allowed {
        RecordKeepsValid(l, Unauthorised, note);
        CheckAuthorsKeepsValid(g, b[1..], allowed, Record(l, Unauthorised, note));
      } else {
        CheckAuthorsKeepsValid(g, b[1..], allowed, l);
      }
    }
  }

  /** `check_merge_permissions`, with the `ROLES` text of head's tree in
      `g[head].roles`. */
  function CheckMergePermissions(g: Graph, rank: map<Id, nat>, head: Id, l: Ledger): (o: Outcome)
    requires WellFormed(g, rank) && head in g
    ensures g[head].roles.None? ==> o == Ok(Record(l, NoRolesFile, NoEvidence))
    ensures o.Crash? <==>
      && g[head].roles.Some?
      && (|| ParseRoles(g[head].roles.value).Failure?
          || (&& CheckedBranch !in ParseRoles(g[head].roles.value).value
              && FindBaselines(g, rank, head, l).0 != []))
    ensures o.Crash? && ParseRoles(g[head].roles.value).Failure? ==> o.error == IndexError
    ensures o.Crash? && ParseRoles(g[head].roles.value).Success? ==> o.error == KeyError
    ensures o.Ok? || o.Crash?
    ensures o.Ok? ==> Extends(l, o.ledger)
  {
    match g[head].roles
    case None => Ok(Record(l, NoRolesFile, NoEvidence))
    case Some(text) =>
      match ParseRoles(text)
      case Failure(e) => Crash(e)
      case Success(mergers) =>
        var (b, l1) := FindBaselines(g, rank, head, l);
        if b == [] then
          Ok(l1)
        else if CheckedBranch !in mergers then
          Crash(KeyError)
        else
          var r := CheckAuthors(g, b, mergers[CheckedBranch], l1);
          ExtendsTransitive(l, l1, r);
          Ok(r)
  }

  /** The authorisation audit touches only its own categories and the
      non-merge flags of its trunk walk; in particular it never adds or
      removes a self-merge report. */
  lemma CheckMergePermissionsKeepsOthers(g: Graph, rank: map<Id, nat>, head: Id, l: Ledger)
    requires WellFormed(g, rank) && head in g
    ensures var o := CheckMergePermissions(g, rank, head, l);
      o.Ok? ==> SameOutside(l, o.ledger, {NonMergeOnTrunk, NoRolesFile, Unauthorised})
  {
    var touched := {NonMergeOnTrunk, NoRolesFile, Unauthorised};
    var o := CheckMergePermissions(g, rank, head, l);
    if o.Ok? {
      if g[head].roles.None? {
        SameOutsideWiden(l, o.ledger, {NoRolesFile}, touched);
      } else {
        var (b, l1) := FindBaselines(g, rank, head, l);
        SameOutsideWiden(l, l1, {NonMergeOnTrunk}, touched);
        if b != [] {
          var allowed := ParseRoles(g[head].roles.value).value[CheckedBranch];
          assert o.ledger == CheckAuthors(g, b, allowed, l1);
          SameOutsideWiden(l1, o.ledger, {Unauthorised}, touched);
          SameOutsideTransitive(l, l1, o.ledger, touched);
        }
      }
    }
  }

  /** What the authorisation audit records once `ROLES` parses with a `master`
      entry: exactly one note per baseline whose author `master` does not
      list, on top of the non-merge flags of the trunk walk. */
  lemma AuthorisationFindings(g: Graph, rank: map<Id, nat>, head: Id, l: Ledger)
    requires WellFormed(g, rank) && head in g
    ensures g[head].roles.Some? && ParseRoles(g[head].roles.value).Success?
            && CheckedBranch in ParseRoles(g[head].roles.value).value ==>
      var (b, l1) := FindBaselines(g, rank, head, l);
      var allowed := ParseRoles(g[head].roles.value).value[CheckedBranch];
      var o := CheckMergePermissions(g, rank, head, l);
      && o.Ok?
      && SameOutside(l1, o.ledger, {Unauthorised})
      && EvidenceOf(o.ledger, Unauthorised) == EvidenceOf(l, Unauthorised) + UnauthorisedNotes(g, b, allowed)
  {
    if g[head].roles.Some? && ParseRoles(g[head].roles.value).Success?
       && CheckedBranch in ParseRoles(g[head].roles.value).value {
      var (b, l1) := FindBaselines(g, rank, head, l);
      SameOutsideEvidence(l, l1, {NonMergeOnTrunk}, Unauthorised);
      CheckAuthorsEvidence(g, b, ParseRoles(g[head].roles.value).value[CheckedBranch], l1);
    }
  }

  /** The authorisation audit keeps every ledger list non-empty and
      duplicate-free. */
  lemma CheckMergePermissionsKeepsValid(g: Graph, rank: map<Id, nat>, head: Id, l: Ledger)
    requires WellFormed(g, rank) && head in g
    requires Valid(l)
    ensures var o := CheckMergePermissions(g, rank, head, l);
      o.Ok? ==> Valid(o.ledger)
  {
    RecordKeepsValid(l, NoRolesFile, NoEvidence);
    var (b, l1) := FindBaselines(g, rank, head, l);
    FindBaselinesKeepsValid(g, rank, head, l);
    if g[head].roles.Some? && ParseRoles(g[head].roles.value).Success?
       && CheckedBranch in ParseRoles(g[head].roles.value).value {
      CheckAuthorsKeepsValid(g, b, ParseRoles(g[head].roles.value).value[CheckedBranch], l1);
    }
  }
}
