/**
  GET /api/stats: the public counters. Each count is read on its own, and a count whose
  read fails is reported as 0 without affecting the other.
*/
module StatsRoute {

  import opened Wrappers
  import opened Rows
  import Db

  datatype Reply = Reply(status: nat, emailCount: nat, visitCount: nat)

  /** What a count query returns, or the error it throws when `fault` is set. */
  function ReadCount(n: nat, fault: Option<string>): (r: Result<nat, string>)
    ensures r.Ok? <==> fault.None?
    ensures r.Ok? ==> r.value == n
  {
    if fault.Some? then Err(fault.value) else Ok(n)
  }

  /** A count that was read, or 0 for one whose read threw. */
  function CountOrZero(read: Result<nat, string>): (n: nat)
    ensures read.Ok? ==> n == read.value
    ensures read.Err? ==> n == 0
  {
    if read.Ok? then read.value else 0
  }

  /**
    The handler over the outcomes of its two count reads: always 200, with each count
    taken from its own read and 0 in place of a failed one.
  */
  function Get(emailRead: Result<nat, string>, visitRead: Result<nat, string>): (r: Reply)
    ensures r.status == 200
    ensures r.emailCount == CountOrZero(emailRead) && r.visitCount == CountOrZero(visitRead)
  {
    Reply(200, CountOrZero(emailRead), CountOrZero(visitRead))
  }

  /** The reply served from a store: the table sizes, with a failed read replaced by 0. */
  function GetFrom(db: Db.Waitlist, emailFault: Option<string>, visitFault: Option<string>): (r: Reply)
    reads db
    ensures r.status == 200
    ensures r.emailCount == (if emailFault.None? then |db.emails| else 0)
    ensures r.visitCount == (if visitFault.None? then |db.visits| else 0)
  {
    Get(ReadCount(db.EmailCount(), emailFault), ReadCount(db.VisitCount(), visitFault))
  }

  /** Whether one read fails has no effect on the other count. */
  lemma CountsIndependent(db: Db.Waitlist, e1: Option<string>, e2: Option<string>, v1: Option<string>, v2: Option<string>)
    ensures GetFrom(db, e1, v1).emailCount == GetFrom(db, e1, v2).emailCount
    ensures GetFrom(db, e1, v1).visitCount == GetFrom(db, e2, v1).visitCount
  {
  }

  /**
    The public counters never exceed the statistics the admin route serves from the same
    store, and equal them when both reads succeed.
  */
  lemma PublicCountsBoundedByAdmin(db: Db.Waitlist, now: Timestamp, emailFault: Option<string>, visitFault: Option<string>)
    ensures GetFrom(db, emailFault, visitFault).emailCount <= db.GetStats(now).emailCount
    ensures GetFrom(db, emailFault, visitFault).visitCount <= db.GetStats(now).visitCount
    ensures emailFault.None? && visitFault.None? ==>
      GetFrom(db, emailFault, visitFault).emailCount == db.GetStats(now).emailCount &&
      GetFrom(db, emailFault, visitFault).visitCount == db.GetStats(now).visitCount
  {
  }
}
