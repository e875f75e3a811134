/**
  The two computations of the admin dashboard that are not display code: the CSV text
  that `exportEmails` builds from the statistics, and the guard that shows the
  conversion rate as `0.00` when there are no visits. The date formatter and the
  floating-point formatting of the rate are parameters.
*/
module AdminPage {

  import opened Wrappers
  import opened Text
  import opened Rows
  import Db
  import SubscribeRoute

  const CsvPrefix := "data:text/csv;charset=utf-8,"
  const CsvHeader := "Email,Signed Up At"
  const NoRate := "0.00"

  /** One row of the export: the address, a comma, and the formatted sign-up time, unquoted. */
  function CsvLine(e: EmailEntry, formatTime: Timestamp -> string): string {
    e.email + "," + formatTime(e.createdAt)
  }

  /** The row texts, one per entry and in the same order. */
  function CsvLines(entries: seq<EmailEntry>, formatTime: Timestamp -> string): (lines: seq<string>)
    ensures |lines| == |entries|
    ensures forall k :: 0 <= k < |entries| ==> lines[k] == CsvLine(entries[k], formatTime)
  {
    seq(|entries|, k requires 0 <= k < |entries| => CsvLine(entries[k], formatTime))
  }

  /**
    `exportEmails`: nothing without statistics; otherwise the data URI prefix, the header
    line and the entry rows joined by newlines, with no newline after the last row.
  */
  function ExportCsv(stats: Option<Db.Stats>, formatTime: Timestamp -> string): (csv: Option<string>)
    ensures csv.None? <==> stats.None?
    ensures csv.Some? ==>
      csv.value == CsvPrefix + CsvHeader + "\n" + Join(CsvLines(stats.value.emails, formatTime), "\n")
  {
    match stats
    case None => None
    case Some(s) => Some(CsvPrefix + CsvHeader + "\n" + Join(CsvLines(s.emails, formatTime), "\n"))
  }

  /** With no entries the text is the prefix and the header line only. */
  lemma EmptyExportIsHeader(stats: Db.Stats, formatTime: Timestamp -> string)
    requires stats.emails == []
    ensures ExportCsv(Some(stats), formatTime) == Some(CsvPrefix + CsvHeader + "\n")
  {
    assert CsvLines(stats.emails, formatTime) == [];
    assert Join([], "\n") == "";
    assert CsvPrefix + CsvHeader + "\n" + "" == CsvPrefix + CsvHeader + "\n";
  }

  /** No address and no formatted time holds a newline. */
  predicate SingleLineFields(entries: seq<EmailEntry>, formatTime: Timestamp -> string) {
    forall k :: 0 <= k < |entries| ==> '\n' !in entries[k].email && '\n' !in formatTime(entries[k].createdAt)
  }

  /**
    Splitting the body after the header at newlines gives back one row per entry, in
    the order of `stats.emails`, when no field holds a newline.
  */
  lemma ExportRowsInOrder(stats: Db.Stats, formatTime: Timestamp -> string)
    requires stats.emails != []
    requires SingleLineFields(stats.emails, formatTime)
    ensures Split(Join(CsvLines(stats.emails, formatTime), "\n"), '\n') == CsvLines(stats.emails, formatTime)
    ensures |Split(Join(CsvLines(stats.emails, formatTime), "\n"), '\n')| == |stats.emails|
  {
    var lines := CsvLines(stats.emails, formatTime);
    forall k | 0 <= k < |lines| ensures '\n' !in lines[k] {
      var e := stats.emails[k];
      assert lines[k] == e.email + [','] + formatTime(e.createdAt);
    }
    SplitJoin(lines, '\n');
  }

  /** The text of a row before its first comma is the address, when the address has no comma. */
  lemma EmailBeforeFirstComma(e: EmailEntry, formatTime: Timestamp -> string)
    requires ',' !in e.email
    ensures Split(CsvLine(e, formatTime), ',')[0] == e.email
  {
    var line := CsvLine(e, formatTime);
    SplitHead(line, ',');
    IndexOfAt(e.email, ',', formatTime(e.createdAt));
    assert line[..|e.email|] == e.email;
  }

  /**
    Rows of addresses accepted by the subscribe route are single-line, and each row's
    text before its first comma is its address, even though a formatted time may
    itself contain commas.
  */
  lemma AcceptedAddressesRecoverable(stats: Db.Stats, formatTime: Timestamp -> string, k: nat)
    requires SubscribeRoute.StoredAreNormalized(stats.emails)
    requires k < |stats.emails|
    ensures '\n' !in stats.emails[k].email
    ensures Split(CsvLines(stats.emails, formatTime)[k], ',')[0] == stats.emails[k].email
  {
    var e := stats.emails[k];
    assert SubscribeRoute.InStoredForm(e.email);
    SubscribeRoute.AcceptedAddressShape(e.email);
    assert ',' !in e.email && '\n' !in e.email by {
      forall i | 0 <= i < |e.email| ensures e.email[i] != ',' && e.email[i] != '\n' {
        assert !IsWhitespace(e.email[i]);
      }
    }
    EmailBeforeFirstComma(e, formatTime);
  }

  /**
    `conversionRate`: the formatted percentage when there are visits, and `0.00` when
    there are none, so the ratio is never formed with a zero divisor.
  */
  function ConversionRate(emailCount: nat, visitCount: nat, formatRate: (nat, nat) --> string): (rate: string)
    requires forall e: nat, v: nat :: v > 0 ==> formatRate.requires(e, v)
    ensures visitCount == 0 ==> rate == NoRate
    ensures visitCount > 0 ==> rate == formatRate(emailCount, visitCount)
  {
    if visitCount > 0 then formatRate(emailCount, visitCount) else NoRate
  }
}
