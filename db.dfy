/**
  The waitlist store: two append-only tables, `emails` (unique on the raw address string,
  ids assigned by the store in increasing order) and `visits` (nullable ip address and
  user agent). The clock (`CURRENT_TIMESTAMP`) is the `now` parameter, and a failure of
  the underlying database is an injected `fault` carrying its error code.
*/
module Db {

  import opened Wrappers
  import opened Rows

  const DuplicateMessage := "Email already registered"
  const FailureMessage := "Failed to register email"
  /** The one error code `addEmail` treats as a duplicate. */
  const ConstraintCode := "SQLITE_CONSTRAINT"

  /** What `addEmail` returns: `{ success, error? }`. */
  datatype AddResult = AddResult(success: bool, error: Option<string>)

  /** The full snapshot `getStats` returns. */
  datatype Stats = Stats(emails: seq<EmailEntry>, emailCount: nat, visitCount: nat, signupsByDay: seq<DayCount>)

  /**
    The catch block of `addEmail`: a failure whose code is exactly `SQLITE_CONSTRAINT`
    is reported as a duplicate, every other failure as a generic one.
  */
  function FailureResult(code: string): (r: AddResult)
    ensures !r.success && r.error.Some?
    ensures r.error.value == DuplicateMessage <==> code == ConstraintCode
    ensures r.error.value != DuplicateMessage ==> r.error.value == FailureMessage
  {
    if code == ConstraintCode then AddResult(false, Some(DuplicateMessage))
    else AddResult(false, Some(FailureMessage))
  }

  /** Some row of `rows` holds exactly the string `email`. */
  predicate Registered(rows: seq<EmailEntry>, email: string) {
    exists i :: 0 <= i < |rows| && rows[i].email == email
  }

  /**
    The uniqueness key is the exact string: appending a row for `a` registers no other
    string, so addresses that differ only in case are distinct keys.
  */
  lemma ExactStringKeys(rows: seq<EmailEntry>, e: EmailEntry, b: string)
    requires e.email != b
    ensures Registered(rows + [e], b) <==> Registered(rows, b)
  {
    var all := rows + [e];
    assert all[|rows|] == e;
    if Registered(all, b) {
      var i :| 0 <= i < |all| && all[i].email == b;
      assert i < |rows| && rows[i] == all[i];
    }
    if Registered(rows, b) {
      var i :| 0 <= i < |rows| && rows[i].email == b;
      assert all[i] == rows[i];
    }
  }

  /** After a row is appended its address is registered. */
  lemma AppendRegisters(rows: seq<EmailEntry>, e: EmailEntry)
    ensures Registered(rows + [e], e.email)
  {
    assert (rows + [e])[|rows|] == e;
  }

  /** `x || null`: an absent or empty string is stored as NULL. */
  function NullIfEmpty(x: Option<string>): (r: Option<string>)
    ensures r.Some? <==> x.Some? && x.value != ""
    ensures r.Some? ==> r == x
  {
    if x.Some? && x.value != "" then x else None
  }

  class Waitlist {
    var emails: seq<EmailEntry>
    var visits: seq<Visit>
    /** The id the next email row gets; `AUTOINCREMENT` never hands out an id twice. */
    var nextEmailId: nat
    var nextVisitId: nat
    /** The error code the database library reports for a UNIQUE violation. */
    const uniqueViolationCode: string

    /** Ids strictly increase in insertion order and stay below the next id; addresses are unique. */
    ghost predicate Valid()
      reads this
    {
      1 <= nextEmailId && 1 <= nextVisitId &&
      (forall i, j :: 0 <= i < j < |emails| ==> emails[i].id < emails[j].id && emails[i].email != emails[j].email) &&
      (forall i :: 0 <= i < |emails| ==> 1 <= emails[i].id < nextEmailId) &&
      (forall i, j :: 0 <= i < j < |visits| ==> visits[i].id < visits[j].id) &&
      (forall i :: 0 <= i < |visits| ==> 1 <= visits[i].id < nextVisitId)
    }

    /** A freshly initialised store with both tables empty. */
    constructor (uniqueViolationCode: string)
      ensures Valid()
      ensures emails == [] && visits == []
      ensures nextEmailId == 1 && nextVisitId == 1
      ensures this.uniqueViolationCode == uniqueViolationCode
    {
      emails, visits := [], [];
      nextEmailId, nextVisitId := 1, 1;
      this.uniqueViolationCode := uniqueViolationCode;
    }

    /**
      `addEmail`: inserts the string as given. A new address gets one new row and
      `{ success: true }`; an address already present, or a database fault, leaves the
      tables as they were and is mapped to an error message. It never throws.
    */
    method AddEmail(email: string, now: Timestamp, fault: Option<string>) returns (r: AddResult)
      requires Valid()
      modifies this
      ensures Valid()
      ensures visits == old(visits) && nextVisitId == old(nextVisitId)
      ensures |emails| == |old(emails)| + (if r.success then 1 else 0)
      ensures Registered(emails, email) <==> Registered(old(emails), email) || r.success
      ensures fault.Some? ==>
        r == FailureResult(fault.value) && emails == old(emails) && nextEmailId == old(nextEmailId)
      ensures fault.None? && Registered(old(emails), email) ==>
        r == FailureResult(uniqueViolationCode) && emails == old(emails) && nextEmailId == old(nextEmailId)
      ensures fault.None? && !Registered(old(emails), email) ==>
        r == AddResult(true, None) &&
        emails == old(emails) + [EmailEntry(old(nextEmailId), email, now)] &&
        nextEmailId == old(nextEmailId) + 1
    {
      if fault.Some? {
        return FailureResult(fault.value);
      }
      if Registered(emails, email) {
        return FailureResult(uniqueViolationCode);
      }
      AppendRegisters(emails, EmailEntry(nextEmailId, email, now));
      emails := emails + [EmailEntry(nextEmailId, email, now)];
      nextEmailId := nextEmailId + 1;
      r := AddResult(true, None);
    }

    /**
      `trackVisit`: appends one visit row, with an absent or empty ip address or user
      agent stored as NULL, and leaves `emails` alone. A database fault is thrown to
      the caller (`thrown`) and inserts nothing.
    */
    method TrackVisit(ipAddress: Option<string>, userAgent: Option<string>, now: Timestamp, fault: Option<string>)
      returns (thrown: Option<string>)
      requires Valid()
      modifies this
      ensures Valid()
      ensures emails == old(emails) && nextEmailId == old(nextEmailId)
      ensures thrown == fault
      ensures fault.Some? ==> visits == old(visits) && nextVisitId == old(nextVisitId)
      ensures fault.None? ==>
        visits == old(visits) + [Visit(old(nextVisitId), NullIfEmpty(ipAddress), NullIfEmpty(userAgent), now)] &&
        nextVisitId == old(nextVisitId) + 1
    {
      thrown := fault;
      if fault.None? {
        visits := visits + [Visit(nextVisitId, NullIfEmpty(ipAddress), NullIfEmpty(userAgent), now)];
        nextVisitId := nextVisitId + 1;
      }
    }

    /** `getAllEmails`: every row exactly once, newest first. */
    function AllEmails(): (r: seq<EmailEntry>)
      reads this
      ensures multiset(r) == multiset(emails)
      ensures NewestFirst(r)
    {
      SortNewestFirst(emails)
    }

    /** `SELECT COUNT(*) FROM emails`: as many as the listing holds. */
    function EmailCount(): (n: nat)
      reads this
      ensures n == |AllEmails()|
    {
      assert |AllEmails()| == |multiset(AllEmails())| == |multiset(emails)| == |emails|;
      |emails|
    }

    /** `SELECT COUNT(*) FROM visits`. */
    function VisitCount(): nat
      reads this
    {
      |visits|
    }

    /**
      `getStats` at time `now`: the listing holds every row once, newest first; the counts
      are the table sizes; the signups histogram is newest day first, has no empty day,
      and sums to at most the number of emails.
    */
    function GetStats(now: Timestamp): (s: Stats)
      reads this
      ensures multiset(s.emails) == multiset(emails) && NewestFirst(s.emails)
      ensures s.emailCount == |emails| == |s.emails| && s.visitCount == |visits|
      ensures StrictlyDescending(s.signupsByDay) && AllPositive(s.signupsByDay)
      ensures Total(s.signupsByDay) <= s.emailCount
      ensures s.emails == AllEmails() && s.signupsByDay == SignupsByDay(emails, now)
    {
      var listing := AllEmails();
      assert |listing| == |multiset(listing)| == |multiset(emails)| == |emails|;
      SignupsByDaySpec(emails, now);
      Stats(listing, EmailCount(), VisitCount(), SignupsByDay(emails, now))
    }
  }
}
