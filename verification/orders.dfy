/** The orders the backend's ORDER BY clauses use. SQL Server treats NULL as
    smaller than every value, so a descending order puts NULLs last. */
module Orders {
  import opened Base
  import opened Text
  import opened Dates
  import opened Sorting

  /** `a` comes first under `ORDER BY ... DESC` on a nullable INT column. */
  predicate IntDesc(a: Option<int>, b: Option<int>) {
    match (a, b)
    case (Some(x), Some(y)) => y < x
    case (Some(_), None) => true
    case _ => false
  }

  /** `a` comes first under `ORDER BY ... DESC` on a nullable DATE column. */
  predicate DateDesc(a: Option<CalendarDate>, b: Option<CalendarDate>) {
    match (a, b)
    case (Some(x), Some(y)) => Earlier(y, x)
    case (Some(_), None) => true
    case _ => false
  }

  /** `a` comes first under `ORDER BY ... DESC` on a nullable CHAR column. */
  predicate TextDesc(a: Option<string>, b: Option<string>) {
    match (a, b)
    case (Some(x), Some(y)) => LexLess(y, x)
    case (Some(_), None) => true
    case _ => false
  }

  lemma IntDescTotal()
    ensures StrictTotal(IntDesc)
  {
  }

  lemma DateDescTotal()
    ensures StrictTotal(DateDesc)
  {
  }

  lemma TextDescTotal()
    ensures StrictTotal(TextDesc)
  {
    forall x: Option<string> ensures !TextDesc(x, x) {
      if x.Some? { LexIrreflexive(x.value); }
    }
    forall x: Option<string>, y: Option<string>, z: Option<string> | TextDesc(x, y) && TextDesc(y, z)
      ensures TextDesc(x, z)
    {
      if z.Some? { LexTransitive(z.value, y.value, x.value); }
    }
    forall x: Option<string>, y: Option<string> ensures x == y || TextDesc(x, y) || TextDesc(y, x) {
      if x.Some? && y.Some? { LexTotal(x.value, y.value); }
    }
  }
}
