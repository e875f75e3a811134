/**
  POST /api/track-visit: works out the client address and user agent from the request
  headers, records one visit, and answers 200 even when recording fails.
*/
module TrackVisitRoute {

  import opened Wrappers
  import opened Text
  import opened Rows
  import Db

  /** The three request headers the handler reads; `None` is a header that is not sent. */
  datatype Headers = Headers(forwardedFor: Option<string>, realIp: Option<string>, userAgent: Option<string>)

  datatype Reply = Reply(status: nat, success: bool)

  const Unknown := "unknown"

  /** `value?.trim() || 'unknown'`: the trimmed header, or `unknown` when it is absent or blank. */
  function TrimmedOrUnknown(value: Option<string>): (r: string)
    ensures r != "" && IsTrimmed(r)
    ensures r == Unknown <==> value.None? || Trim(value.value) == "" || Trim(value.value) == Unknown
    ensures r != Unknown ==> r == Trim(value.value)
  {
    if value.Some? && Trim(value.value) != "" then Trim(value.value) else Unknown
  }

  /**
    The client address: when `x-forwarded-for` is sent and non-empty, its first
    comma-separated entry, trimmed (which may be empty); otherwise the trimmed
    `x-real-ip` as it stands, commas included, or `unknown`.
  */
  function ClientIp(h: Headers): (ip: string)
    ensures h.forwardedFor.Some? && h.forwardedFor.value != "" ==>
      ip == Trim(h.forwardedFor.value[..IndexOf(h.forwardedFor.value, ',')]) && ',' !in ip
    ensures !(h.forwardedFor.Some? && h.forwardedFor.value != "") ==> ip == TrimmedOrUnknown(h.realIp)
    ensures IsTrimmed(ip)
  {
    if h.forwardedFor.Some? && h.forwardedFor.value != "" then
      var first := Split(h.forwardedFor.value, ',')[0];
      SplitHead(h.forwardedFor.value, ',');
      TrimKeepsChars(first);
      Trim(first)
    else
      TrimmedOrUnknown(h.realIp)
  }

  /** The user agent: the trimmed `user-agent` header, or `unknown`; never empty. */
  function UserAgentOf(h: Headers): (ua: string)
    ensures ua != "" && IsTrimmed(ua)
  {
    TrimmedOrUnknown(h.userAgent)
  }

  /** A proxy chain `client, proxy1, proxy2, ...` yields its first entry, trimmed. */
  lemma ForwardedChainFirstHop(hops: seq<string>, realIp: Option<string>, userAgent: Option<string>)
    requires |hops| >= 1 && Join(hops, ",") != ""
    requires forall k :: 0 <= k < |hops| ==> ',' !in hops[k]
    ensures ClientIp(Headers(Some(Join(hops, ",")), realIp, userAgent)) == Trim(hops[0])
  {
    SplitJoin(hops, ',');
    SplitHead(Join(hops, ","), ',');
  }

  /** Without a usable `x-forwarded-for`, the address is never empty. */
  lemma FallbackNeverEmpty(h: Headers)
    requires h.forwardedFor.None? || h.forwardedFor.value == ""
    ensures ClientIp(h) != ""
  {
  }

  /**
    A forwarded header whose first entry is blank gives an empty address, which the
    store then records as NULL, although a later entry holds an address.
  */
  lemma BlankFirstHopStoredAsNull(realIp: Option<string>, userAgent: Option<string>)
    ensures ClientIp(Headers(Some(" , 10.0.0.1"), realIp, userAgent)) == ""
    ensures Db.NullIfEmpty(Some(ClientIp(Headers(Some(" , 10.0.0.1"), realIp, userAgent)))).None?
  {
    var f := " , 10.0.0.1";
    assert f == " " + [','] + " 10.0.0.1";
    IndexOfAt(" ", ',', " 10.0.0.1");
    assert f[..1] == " ";
    assert Trim(" ") == "" by {
      TrimIgnoresSurroundingWhitespace(" ", "", "");
    }
  }

  /**
    The handler: one call of `trackVisit` with the derived address and user agent. A
    failure of the store is swallowed; the reply is always 200 `{ success: true }`.
  */
  method Post(db: Db.Waitlist, h: Headers, now: Timestamp, fault: Option<string>) returns (reply: Reply)
    requires db.Valid()
    modifies db
    ensures db.Valid()
    ensures reply == Reply(200, true)
    ensures db.emails == old(db.emails)
    ensures fault.Some? ==> db.visits == old(db.visits)
    ensures fault.None? ==>
      db.visits == old(db.visits) + [Visit(old(db.nextVisitId), Db.NullIfEmpty(Some(ClientIp(h))), Some(UserAgentOf(h)), now)]
  {
    var ip := ClientIp(h);
    var userAgent := UserAgentOf(h);
    var thrown := db.TrackVisit(Some(ip), Some(userAgent), now, fault);
    reply := Reply(200, true);
  }
}
