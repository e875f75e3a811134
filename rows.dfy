/**
  The rows of the two waitlist tables and the read-only queries over them: the
  newest-first listing (`ORDER BY created_at DESC`) and the signups-by-day histogram
  (`GROUP BY DATE(created_at)` over the last 30 days, `ORDER BY date DESC`).
  Timestamps are whole seconds; `DATE(t)` is the day number `t / 86400`.
*/
module Rows {

  import opened Wrappers

  type Timestamp = nat

  const SecondsPerDay: nat := 86400
  const WindowSeconds: nat := 30 * SecondsPerDay

  /** A row of `emails`. */
  datatype EmailEntry = EmailEntry(id: nat, email: string, createdAt: Timestamp)

  /** A row of `visits`; the two text columns are nullable. */
  datatype Visit = Visit(id: nat, ipAddress: Option<string>, userAgent: Option<string>, createdAt: Timestamp)

  /** A row of the signups-by-day result. */
  datatype DayCount = DayCount(date: int, count: nat)

  /** `DATE(created_at)`, as a day number. */
  function DayOf(t: Timestamp): int {
    t / SecondsPerDay
  }

  // ---------------------------------------------------------------- newest first

  ghost predicate NewestFirst(rows: seq<EmailEntry>) {
    forall i, j :: 0 <= i < j < |rows| ==> rows[i].createdAt >= rows[j].createdAt
  }

  /** Puts `e` into a newest-first list, before the first row that is not newer. */
  function InsertNewestFirst(e: EmailEntry, rows: seq<EmailEntry>): (r: seq<EmailEntry>)
    ensures multiset(r) == multiset(rows) + multiset{e}
    ensures |r| == |rows| + 1 && (r[0] == e || (rows != [] && r[0] == rows[0]))
  {
    if rows == [] || e.createdAt >= rows[0].createdAt then
      [e] + rows
    else
      assert rows == [rows[0]] + rows[1..];
      [rows[0]] + InsertNewestFirst(e, rows[1..])
  }

  /** A bound on every timestamp of `rows` and on `e` bounds every timestamp after the insertion. */
  lemma {:induction false} InsertBounded(e: EmailEntry, rows: seq<EmailEntry>, bound: Timestamp)
    requires e.createdAt <= bound
    requires forall k :: 0 <= k < |rows| ==> rows[k].createdAt <= bound
    ensures forall k :: 0 <= k < |InsertNewestFirst(e, rows)| ==> InsertNewestFirst(e, rows)[k].createdAt <= bound
  {
    if !(rows == [] || e.createdAt >= rows[0].createdAt) {
      var tail := InsertNewestFirst(e, rows[1..]);
      InsertBounded(e, rows[1..], bound);
      assert forall k :: 1 <= k < |tail| + 1 ==> ([rows[0]] + tail)[k] == tail[k - 1];
    }
  }

  /** A row no older than any row of a newest-first list can go in front of it. */
  lemma ConsNewestFirst(head: EmailEntry, tail: seq<EmailEntry>)
    requires NewestFirst(tail)
    requires forall k :: 0 <= k < |tail| ==> tail[k].createdAt <= head.createdAt
    ensures NewestFirst([head] + tail)
  {
    var r := [head] + tail;
    forall i, j | 0 <= i < j < |r| ensures r[i].createdAt >= r[j].createdAt {
      assert r[j] == tail[j - 1];
      if i > 0 {
        assert r[i] == tail[i - 1];
      }
    }
  }

  /** Inserting into a newest-first list keeps it newest first. */
  lemma {:induction false} InsertKeepsNewestFirst(e: EmailEntry, rows: seq<EmailEntry>)
    requires NewestFirst(rows)
    ensures NewestFirst(InsertNewestFirst(e, rows))
  {
    if rows == [] || e.createdAt >= rows[0].createdAt {
      ConsNewestFirst(e, rows);
    } else {
      var head, rest := rows[0], rows[1..];
      InsertKeepsNewestFirst(e, rest);
      forall k | 0 <= k < |rest| ensures rest[k].createdAt <= head.createdAt {
        assert rest[k] == rows[k + 1];
      }
      InsertBounded(e, rest, head.createdAt);
      ConsNewestFirst(head, InsertNewestFirst(e, rest));
    }
  }

  /**
    `SELECT * FROM emails ORDER BY created_at DESC`: every row exactly once, newest first.
    The query leaves the order of rows with equal timestamps open, and so does this contract.
  */
  function SortNewestFirst(rows: seq<EmailEntry>): (r: seq<EmailEntry>)
    ensures NewestFirst(r)
    ensures multiset(r) == multiset(rows)
  {
    if rows == [] then []
    else
      assert rows == [rows[0]] + rows[1..];
      InsertKeepsNewestFirst(rows[0], SortNewestFirst(rows[1..]));
      InsertNewestFirst(rows[0], SortNewestFirst(rows[1..]))
  }

  // ---------------------------------------------------------------- signups by day

  /**
    The day numbers of the rows inside the window, in table order:
    `WHERE created_at >= datetime('now', '-30 days')`, then `DATE(created_at)`.
  */
  function WindowDays(rows: seq<EmailEntry>, now: Timestamp): (days: seq<int>)
    ensures |days| <= |rows|
  {
    if rows == [] then []
    else
      var rest := WindowDays(rows[..|rows| - 1], now);
      var last := rows[|rows| - 1];
      if last.createdAt >= now - WindowSeconds then rest + [DayOf(last.createdAt)] else rest
  }

  /** A day is in the window's days exactly when some row of that day lies inside the window. */
  lemma {:induction false} WindowDaysMembers(rows: seq<EmailEntry>, now: Timestamp, d: int)
    ensures d in WindowDays(rows, now) <==>
      exists i :: 0 <= i < |rows| && rows[i].createdAt >= now - WindowSeconds && DayOf(rows[i].createdAt) == d
    decreases |rows|
  {
    if rows != [] {
      var init := rows[..|rows| - 1];
      WindowDaysMembers(init, now, d);
      assert forall i :: 0 <= i < |init| ==> init[i] == rows[i];
    }
  }

  /** How often `d` occurs in `days`. */
  function Occurrences(days: seq<int>, d: int): nat {
    if days == [] then 0
    else Occurrences(days[..|days| - 1], d) + (if days[|days| - 1] == d then 1 else 0)
  }

  lemma {:induction false} OccurrencesPositive(days: seq<int>, d: int)
    ensures Occurrences(days, d) > 0 <==> d in days
    decreases |days|
  {
    if days != [] {
      var init := days[..|days| - 1];
      OccurrencesPositive(init, d);
      assert days == init + [days[|days| - 1]];
    }
  }

  ghost predicate StrictlyDescending(h: seq<DayCount>) {
    forall i, j :: 0 <= i < j < |h| ==> h[i].date > h[j].date
  }

  /** Every date in `h` is below `bound`. */
  ghost predicate DatesBelow(h: seq<DayCount>, bound: int) {
    forall k :: 0 <= k < |h| ==> h[k].date < bound
  }

  predicate AllPositive(h: seq<DayCount>) {
    forall k :: 0 <= k < |h| ==> h[k].count >= 1
  }

  /** The total of the counts filed under date `d`. */
  function CountOn(h: seq<DayCount>, d: int): nat {
    if h == [] then 0 else (if h[0].date == d then h[0].count else 0) + CountOn(h[1..], d)
  }

  function Total(h: seq<DayCount>): nat {
    if h == [] then 0 else h[0].count + Total(h[1..])
  }

  /** Counts one more signup on day `d` in a histogram kept newest day first. */
  function Bump(h: seq<DayCount>, d: int): seq<DayCount> {
    if h == [] then [DayCount(d, 1)]
    else if h[0].date == d then [DayCount(d, h[0].count + 1)] + h[1..]
    else if h[0].date < d then [DayCount(d, 1)] + h
    else [h[0]] + Bump(h[1..], d)
  }

  lemma {:induction false} BumpCounts(h: seq<DayCount>, d: int, x: int)
    ensures CountOn(Bump(h, d), x) == CountOn(h, x) + (if x == d then 1 else 0)
    ensures Total(Bump(h, d)) == Total(h) + 1
    ensures AllPositive(h) ==> AllPositive(Bump(h, d))
    decreases |h|
  {
    if h != [] && h[0].date > d {
      BumpCounts(h[1..], d, x);
      assert Bump(h, d)[1..] == Bump(h[1..], d);
    } else if h != [] && h[0].date == d {
      assert Bump(h, d)[1..] == h[1..];
    } else if h != [] {
      assert Bump(h, d)[1..] == h;
    }
  }

  lemma {:induction false} BumpBelow(h: seq<DayCount>, d: int, bound: int)
    requires DatesBelow(h, bound) && d < bound
    ensures DatesBelow(Bump(h, d), bound)
    decreases |h|
  {
    if h != [] && h[0].date > d {
      BumpBelow(h[1..], d, bound);
    }
  }

  lemma {:induction false} BumpDescending(h: seq<DayCount>, d: int)
    requires StrictlyDescending(h)
    ensures StrictlyDescending(Bump(h, d))
    decreases |h|
  {
    if h != [] && h[0].date > d {
      BumpDescending(h[1..], d);
      BumpBelow(h[1..], d, h[0].date);
    }
  }

  /** In a histogram with distinct dates, the counts filed under an entry's date are that entry's count. */
  lemma {:induction false} CountOnEntry(h: seq<DayCount>, k: nat)
    requires StrictlyDescending(h) && k < |h|
    ensures CountOn(h, h[k].date) == h[k].count
    decreases |h|
  {
    if k > 0 {
      CountOnEntry(h[1..], k - 1);
    } else {
      CountOnAbsent(h[1..], h[0].date);
    }
  }

  lemma {:induction false} CountOnAbsent(h: seq<DayCount>, d: int)
    requires DatesBelow(h, d)
    ensures CountOn(h, d) == 0
    decreases |h|
  {
    if h != [] {
      CountOnAbsent(h[1..], d);
    }
  }

  /** A positive count filed under `d` means some entry carries date `d`. */
  lemma {:induction false} CountOnPresent(h: seq<DayCount>, d: int)
    requires CountOn(h, d) > 0
    ensures exists k :: 0 <= k < |h| && h[k].date == d
    decreases |h|
  {
    if h[0].date != d {
      CountOnPresent(h[1..], d);
      var k :| 0 <= k < |h[1..]| && h[1..][k].date == d;
      assert h[k + 1].date == d;
    }
  }

  /** `GROUP BY` over a sequence of days, most recent day first. */
  function Histogram(days: seq<int>): seq<DayCount> {
    if days == [] then [] else Bump(Histogram(days[..|days| - 1]), days[|days| - 1])
  }

  /** The histogram is newest first, has no empty day, and files every occurrence of every day. */
  lemma {:induction false} HistogramTallies(days: seq<int>)
    ensures StrictlyDescending(Histogram(days))
    ensures AllPositive(Histogram(days))
    ensures Total(Histogram(days)) == |days|
    ensures forall x :: CountOn(Histogram(days), x) == Occurrences(days, x)
    decreases |days|
  {
    if days != [] {
      var init, d := days[..|days| - 1], days[|days| - 1];
      HistogramTallies(init);
      BumpDescending(Histogram(init), d);
      BumpCounts(Histogram(init), d, d);
      forall x ensures CountOn(Histogram(days), x) == Occurrences(days, x) {
        BumpCounts(Histogram(init), d, x);
      }
    }
  }

  /** The signups-by-day query over the rows of `emails` at time `now`. */
  function SignupsByDay(rows: seq<EmailEntry>, now: Timestamp): seq<DayCount> {
    Histogram(WindowDays(rows, now))
  }

  /** The number of rows of `rows` inside the window whose sign-up day is `d`, counted over the table itself. */
  function SignupsOn(rows: seq<EmailEntry>, now: Timestamp, d: int): nat {
    if rows == [] then 0
    else
      var last := rows[|rows| - 1];
      SignupsOn(rows[..|rows| - 1], now, d) +
      (if last.createdAt >= now - WindowSeconds && DayOf(last.createdAt) == d then 1 else 0)
  }

  /** The days the query groups hold each day exactly as often as the table has signups on it in the window. */
  lemma {:induction false} WindowDaysOccurrences(rows: seq<EmailEntry>, now: Timestamp, d: int)
    ensures Occurrences(WindowDays(rows, now), d) == SignupsOn(rows, now, d)
    decreases |rows|
  {
    if rows != [] {
      var init, last := rows[..|rows| - 1], rows[|rows| - 1];
      var rest := WindowDays(init, now);
      WindowDaysOccurrences(init, now, d);
      if last.createdAt >= now - WindowSeconds {
        var days := rest + [DayOf(last.createdAt)];
        assert days[..|days| - 1] == rest;
      }
    }
  }

  /**
    One entry per day with at least one signup in the last 30 days: dates strictly
    descending, each count the number of those signups on its day and at least 1,
    every such day present, and the counts adding up to at most the number of rows.
  */
  lemma SignupsByDaySpec(rows: seq<EmailEntry>, now: Timestamp)
    ensures StrictlyDescending(SignupsByDay(rows, now))
    ensures AllPositive(SignupsByDay(rows, now))
    ensures forall k :: 0 <= k < |SignupsByDay(rows, now)| ==>
      SignupsByDay(rows, now)[k].count == SignupsOn(rows, now, SignupsByDay(rows, now)[k].date)
    ensures forall i :: 0 <= i < |rows| && rows[i].createdAt >= now - WindowSeconds ==>
      exists k :: 0 <= k < |SignupsByDay(rows, now)| && SignupsByDay(rows, now)[k].date == DayOf(rows[i].createdAt)
    ensures Total(SignupsByDay(rows, now)) <= |rows|
  {
    var days := WindowDays(rows, now);
    var h := SignupsByDay(rows, now);
    HistogramTallies(days);
    forall k | 0 <= k < |h| ensures h[k].count == SignupsOn(rows, now, h[k].date) {
      CountOnEntry(h, k);
      WindowDaysOccurrences(rows, now, h[k].date);
    }
    forall i | 0 <= i < |rows| && rows[i].createdAt >= now - WindowSeconds
      ensures exists k :: 0 <= k < |h| && h[k].date == DayOf(rows[i].createdAt)
    {
      var d := DayOf(rows[i].createdAt);
      WindowDaysMembers(rows, now, d);
      OccurrencesPositive(days, d);
      CountOnPresent(h, d);
    }
  }

  /** Every listed day is the day of some signup inside the window: no day outside it appears. */
  lemma SignupsByDayInWindow(rows: seq<EmailEntry>, now: Timestamp, k: nat)
    requires k < |SignupsByDay(rows, now)|
    ensures exists i :: 0 <= i < |rows| && rows[i].createdAt >= now - WindowSeconds &&
                        DayOf(rows[i].createdAt) == SignupsByDay(rows, now)[k].date
  {
    var days := WindowDays(rows, now);
    var h := SignupsByDay(rows, now);
    HistogramTallies(days);
    CountOnEntry(h, k);
    OccurrencesPositive(days, h[k].date);
    WindowDaysMembers(rows, now, h[k].date);
  }
}
