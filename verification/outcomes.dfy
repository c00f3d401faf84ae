/**
  How an audit run ends: with a ledger, with an explicit `sys.exit`, or with an
  uncaught Python exception.
 */
module Outcomes {
  import opened Issues

  /** The exit statuses the audit itself chooses. */
  const AuditOk: int := 0
  const AuditFailed: int := 1
  const Error: int := 2

  /** The status CPython exits with when an exception is not caught. */
  const UncaughtException: int := 1

  /** The Python exceptions the audit can raise on its own. */
  datatype PyError =
    | IndexError  // a ROLES line without ':'
    | KeyError    // no "master" entry in ROLES while there are baselines
    | TypeError   // the self-merge log message of the code as written

  datatype Outcome = Ok(ledger: Ledger) | Abort(code: int) | Crash(error: PyError)

  datatype Result<T> = Success(value: T) | Failure(error: PyError)

  /** `o`, if it completes, grew out of `l` and differs from it only inside
      the categories `cs`. */
  predicate GrowsWithin(l: Ledger, o: Outcome, cs: set<Category>) {
    o.Ok? ==> SameOutside(l, o.ledger, cs) && Extends(l, o.ledger)
  }

  /** Growing `l` into `l1` and then `l1` into `o` is growing `l` into `o`, and
      keeps every record of `l1`. */
  lemma GrowsWithinTransitive(l: Ledger, l1: Ledger, o: Outcome, cs: set<Category>)
    requires SameOutside(l, l1, cs) && Extends(l, l1) && GrowsWithin(l1, o, cs)
    ensures GrowsWithin(l, o, cs)
    ensures o.Ok? ==> forall c, e :: Recorded(l1, c, e) ==> Recorded(o.ledger, c, e)
  {
    if o.Ok? {
      forall c, e | Recorded(l1, c, e)
        ensures Recorded(o.ledger, c, e)
      {
        ExtendsKeepsRecords(l1, o.ledger, c, e);
      }
    }
  }

  lemma GrowsWithinWiden(l: Ledger, o: Outcome, cs: set<Category>, ds: set<Category>)
    requires GrowsWithin(l, o, cs) && cs <= ds
    ensures GrowsWithin(l, o, ds)
  {
    if o.Ok? {
      SameOutsideWiden(l, o.ledger, cs, ds);
    }
  }
}
