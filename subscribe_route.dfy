/**
  POST /api/subscribe: parse the body, require a non-empty string `email`, normalise it
  (lower-case, then trim), check it against the address pattern
    ^[a-zA-Z0-9.!#$%&'*+/=?^_`{|}~-]+@[a-zA-Z0-9-]+(?:\.[a-zA-Z0-9-]+)*$
  and hand the normalised string to the store once.
*/
module SubscribeRoute {

  import opened Wrappers
  import opened Text
  import opened Rows
  import Db

  // ---------------------------------------------------------------- requests and replies

  /** The `email` property of the parsed body. */
  datatype EmailValue = Missing | NonString | JsonString(s: string)

  /** The request body: not JSON, the JSON value `null` (destructuring it throws), or any other JSON value. */
  datatype RequestBody = Malformed | NullBody | Parsed(email: EmailValue)

  datatype ReplyBody = ErrorBody(error: Option<string>) | JoinedBody(success: bool, message: string)
  datatype Reply = Reply(status: nat, body: ReplyBody)

  const InvalidBodyError := "Invalid request body"
  const RequiredError := "Email is required"
  const InvalidEmailError := "Please enter a valid email address"
  const InternalError := "Internal server error"
  const JoinedMessage := "Successfully joined the waitlist!"

  // ---------------------------------------------------------------- normalisation

  /** `email.toLowerCase().trim()`. */
  function Normalize(s: string): string {
    Trim(Lower(s))
  }

  /** A normalised string has no ASCII upper-case letter and no whitespace at either end. */
  lemma NormalizeIsNormalForm(s: string)
    ensures IsLowered(Normalize(s)) && IsTrimmed(Normalize(s))
  {
    var t := Normalize(s);
    LowerIsLowered(s);
    TrimKeepsChars(Lower(s));
    forall k | 0 <= k < |t| ensures !IsAsciiUpper(t[k]) {
      assert t[k] in t;
    }
  }

  /** Strings in normal form are left alone by normalisation. */
  lemma NormalFormFixed(t: string)
    requires IsLowered(t) && IsTrimmed(t)
    ensures Normalize(t) == t
  {
    LowerIsLowered(t);
    TrimOfTrimmed(t);
  }

  /** Normalising twice is normalising once. */
  lemma NormalizeIdempotent(s: string)
    ensures Normalize(Normalize(s)) == Normalize(s)
  {
    NormalizeIsNormalForm(s);
    NormalFormFixed(Normalize(s));
  }

  /** Inputs that differ only in ASCII case and surrounding whitespace normalise to the same string. */
  lemma NormalizeIgnoresCaseAndSpace(w1: string, a: string, w2: string, b: string)
    requires AllWhitespace(w1) && AllWhitespace(w2)
    requires Lower(a) == Lower(b)
    ensures Normalize(w1 + a + w2) == Normalize(b)
  {
    LowerAppend(w1 + a, w2);
    LowerAppend(w1, a);
    WhitespaceIsLowered(w1);
    WhitespaceIsLowered(w2);
    TrimIgnoresSurroundingWhitespace(w1, Lower(b), w2);
  }

  // ---------------------------------------------------------------- the address pattern

  predicate IsAsciiAlnum(c: char) {
    ('a' <= c <= 'z') || ('A' <= c <= 'Z') || ('0' <= c <= '9')
  }

  /** `[a-zA-Z0-9.!#$%&'*+/=?^_`{|}~-]`. */
  predicate LocalChar(c: char) {
    IsAsciiAlnum(c) || c in ".!#$%&'*+/=?^_`{|}~-"
  }

  /** `[a-zA-Z0-9-]`. */
  predicate LabelChar(c: char) {
    IsAsciiAlnum(c) || c == '-'
  }

  predicate IsLocalPart(s: string) {
    |s| >= 1 && forall k :: 0 <= k < |s| ==> LocalChar(s[k])
  }

  predicate IsLabel(s: string) {
    |s| >= 1 && forall k :: 0 <= k < |s| ==> LabelChar(s[k])
  }

  /** `[a-zA-Z0-9-]+(?:\.[a-zA-Z0-9-]+)*`: a label, or a label, a dot and a domain. */
  ghost predicate IsDomain(d: string)
    decreases |d|
  {
    IsLabel(d) ||
    exists j :: 0 < j < |d| && d[j] == '.' && IsLabel(d[..j]) && IsDomain(d[j + 1..])
  }

  /** The whole pattern, anchored at both ends. */
  ghost predicate MatchesEmailPattern(s: string) {
    exists i :: 0 <= i < |s| && s[i] == '@' && IsLocalPart(s[..i]) && IsDomain(s[i + 1..])
  }

  predicate DomainChar(c: char) {
    LabelChar(c) || c == '.'
  }

  /** Non-empty, label characters and dots, no dot at either end and no two dots in a row. */
  predicate DotSeparated(d: string) {
    |d| >= 1 && d[0] != '.' && d[|d| - 1] != '.' &&
    (forall k :: 0 <= k < |d| ==> DomainChar(d[k])) &&
    (forall k :: 0 <= k < |d| - 1 ==> d[k] != '.' || d[k + 1] != '.')
  }

  /** Label characters up to the first dot, or the whole string when it has none, form a label. */
  lemma DotSeparatedHead(d: string, j: nat)
    requires DotSeparated(d) && j == IndexOf(d, '.')
    ensures j > 0 && IsLabel(d[..j])
  {
    forall k | 0 <= k < j ensures LabelChar(d[..j][k]) {
      assert d[k] != '.' && DomainChar(d[k]);
    }
  }

  /** What follows any dot is again dot-separated. */
  lemma DotSeparatedRest(d: string, j: nat)
    requires DotSeparated(d) && j < |d| && d[j] == '.'
    ensures j < |d| - 1 && DotSeparated(d[j + 1..])
  {
    assert j != |d| - 1;
    var rest := d[j + 1..];
    assert rest[0] != '.' by {
      assert rest[0] == d[j + 1];
    }
    assert rest[|rest| - 1] == d[|d| - 1];
    assert forall k :: 0 <= k < |rest| ==> rest[k] == d[j + 1 + k];
  }

  lemma {:induction false} DotSeparatedIsDomain(d: string)
    requires DotSeparated(d)
    ensures IsDomain(d)
    decreases |d|
  {
    var j := IndexOf(d, '.');
    DotSeparatedHead(d, j);
    if j < |d| {
      DotSeparatedRest(d, j);
      DotSeparatedIsDomain(d[j + 1..]);
      assert 0 < j < |d| && d[j] == '.' && IsLabel(d[..j]) && IsDomain(d[j + 1..]);
    } else {
      assert d[..j] == d;
    }
  }

  lemma {:induction false} DomainIsDotSeparated(d: string)
    requires IsDomain(d)
    ensures DotSeparated(d)
    decreases |d|
  {
    if IsLabel(d) {
      LabelIsDotSeparated(d);
    } else {
      var j :| 0 < j < |d| && d[j] == '.' && IsLabel(d[..j]) && IsDomain(d[j + 1..]);
      DomainIsDotSeparated(d[j + 1..]);
      LabelDotDomain(d, j);
    }
  }

  lemma LabelIsDotSeparated(d: string)
    requires IsLabel(d)
    ensures DotSeparated(d)
  {
    assert LabelChar(d[0]) && LabelChar(d[|d| - 1]);
  }

  /** A label, a dot and a dot-separated string make a dot-separated string. */
  lemma LabelDotDomain(d: string, j: nat)
    requires 0 < j < |d| && d[j] == '.' && IsLabel(d[..j]) && DotSeparated(d[j + 1..])
    ensures DotSeparated(d)
  {
    var head, rest := d[..j], d[j + 1..];
    assert d[0] == head[0] && LabelChar(head[0]);
    assert d[|d| - 1] == rest[|rest| - 1];
    forall k | 0 <= k < |d| ensures DomainChar(d[k]) {
      if k < j {
        assert d[k] == head[k];
      } else if k > j {
        assert d[k] == rest[k - j - 1];
      }
    }
    forall k | 0 <= k < |d| - 1 ensures d[k] != '.' || d[k + 1] != '.' {
      if k < j {
        assert d[k] == head[k] && LabelChar(head[k]);
      } else if k == j {
        assert d[k + 1] == rest[0];
      } else {
        assert d[k] == rest[k - j - 1] && d[k + 1] == rest[k - j];
      }
    }
  }

  lemma LocalPartHasNoAt(p: string)
    requires IsLocalPart(p)
    ensures '@' !in p
  {
    forall k | 0 <= k < |p| ensures p[k] != '@' {
      assert LocalChar(p[k]);
    }
  }

  /** A local part contains no `@`, so the `@` after it is the first one. */
  lemma FirstAtAfterLocalPart(s: string, j: nat)
    requires j < |s| && s[j] == '@' && IsLocalPart(s[..j])
    ensures IndexOf(s, '@') == j
  {
    LocalPartHasNoAt(s[..j]);
  }

  /**
    The hand-written validator: split at the first `@`, then check the local part and the
    dot structure of the domain.
  */
  predicate IsValidEmail(s: string) {
    var i := IndexOf(s, '@');
    i < |s| && IsLocalPart(s[..i]) && DotSeparated(s[i + 1..])
  }

  /** The validator accepts exactly the strings the pattern matches. */
  lemma ValidatorMatchesPattern(s: string)
    ensures IsValidEmail(s) <==> MatchesEmailPattern(s)
  {
    var i := IndexOf(s, '@');
    if IsValidEmail(s) {
      DotSeparatedIsDomain(s[i + 1..]);
    }
    if MatchesEmailPattern(s) {
      var j :| 0 <= j < |s| && s[j] == '@' && IsLocalPart(s[..j]) && IsDomain(s[j + 1..]);
      FirstAtAfterLocalPart(s, j);
      DomainIsDotSeparated(s[j + 1..]);
    }
  }

  /**
    An accepted address has exactly one `@`, a non-empty local part before it and a
    dot-separated domain after it, and contains neither whitespace nor a comma.
  */
  lemma AcceptedAddressShape(s: string)
    requires IsValidEmail(s)
    ensures exists i :: 0 <= i < |s| && s[i] == '@' && IsLocalPart(s[..i]) && DotSeparated(s[i + 1..]) &&
                        forall k :: 0 <= k < |s| && k != i ==> s[k] != '@'
    ensures forall k :: 0 <= k < |s| ==> !IsWhitespace(s[k]) && s[k] != ','
  {
    var i := IndexOf(s, '@');
    assert IsLocalPart(s[..i]) && DotSeparated(s[i + 1..]);
    forall k | 0 <= k < |s| ensures s[k] != ',' && !IsWhitespace(s[k]) && (k != i ==> s[k] != '@') {
      if k < i {
        assert s[k] == s[..i][k];
      } else if k > i {
        assert s[k] == s[i + 1..][k - i - 1];
      }
    }
  }

  // ---------------------------------------------------------------- the handler

  /** Either the reply the handler returns before reaching the store, or the address it stores. */
  datatype Validation = Reject(reply: Reply) | Accept(email: string)

  /**
    Everything the handler does before calling `addEmail`: a request is accepted exactly
    when its `email` is a non-empty string whose normalised form is a valid address, and
    what it hands on is that normalised form.
  */
  function Validate(body: RequestBody): (v: Validation)
    ensures v.Reject? ==> v.reply.status == 400 || v.reply.status == 500
    ensures v.Accept? <==>
      body.Parsed? && body.email.JsonString? && body.email.s != "" && IsValidEmail(Normalize(body.email.s))
    ensures v.Accept? ==> v.email == Normalize(body.email.s)
  {
    match body
    case Malformed => Reject(Reply(400, ErrorBody(Some(InvalidBodyError))))
    case NullBody => Reject(Reply(500, ErrorBody(Some(InternalError))))
    case Parsed(email) =>
      if !email.JsonString? || email.s == "" then
        Reject(Reply(400, ErrorBody(Some(RequiredError))))
      else
        CheckAddress(Normalize(email.s))
  }

  /** The pattern test on the normalised address. */
  function CheckAddress(sanitized: string): (v: Validation)
    ensures v.Accept? <==> IsValidEmail(sanitized)
    ensures v.Accept? ==> v.email == sanitized
  {
    if !IsValidEmail(sanitized) then
      Reject(Reply(400, ErrorBody(Some(InvalidEmailError))))
    else
      Accept(sanitized)
  }

  /** An accepted address is in normal form, is left alone by normalisation, and matches the address pattern. */
  lemma AcceptedIsNormalized(body: RequestBody)
    requires Validate(body).Accept?
    ensures InStoredForm(Validate(body).email)
    ensures Normalize(Validate(body).email) == Validate(body).email
    ensures MatchesEmailPattern(Validate(body).email)
  {
    NormalizeIsNormalForm(body.email.s);
    NormalizeIdempotent(body.email.s);
    ValidatorMatchesPattern(Validate(body).email);
  }

  /**
    The three ways a parsed body is refused: no usable `email` (400 `Email is required`),
    or a normalised address the pattern does not match (400 `Please enter a valid email
    address`), and a body that is not JSON (400) or is `null` (500).
  */
  lemma Rejections(e: EmailValue)
    ensures Validate(Malformed) == Reject(Reply(400, ErrorBody(Some(InvalidBodyError))))
    ensures Validate(NullBody) == Reject(Reply(500, ErrorBody(Some(InternalError))))
    ensures (e.Missing? || e.NonString? || e == JsonString("")) ==>
      Validate(Parsed(e)) == Reject(Reply(400, ErrorBody(Some(RequiredError))))
    ensures e.JsonString? && e.s != "" && !MatchesEmailPattern(Normalize(e.s)) ==>
      Validate(Parsed(e)) == Reject(Reply(400, ErrorBody(Some(InvalidEmailError))))
  {
    if e.JsonString? {
      ValidatorMatchesPattern(Normalize(e.s));
    }
  }

  /** The reply for what `addEmail` returned: its error text verbatim with 400, or 200. */
  function StoreReply(result: Db.AddResult): Reply {
    if !result.success then Reply(400, ErrorBody(result.error))
    else Reply(200, JoinedBody(true, JoinedMessage))
  }

  /** Addresses that differ only in ASCII case and surrounding whitespace reach the store as one string. */
  lemma SameStoreKey(w1: string, a: string, w2: string, b: string)
    requires AllWhitespace(w1) && AllWhitespace(w2) && Lower(a) == Lower(b)
    requires w1 + a + w2 != "" && b != ""
    ensures Validate(Parsed(JsonString(w1 + a + w2))) == Validate(Parsed(JsonString(b)))
  {
    NormalizeIgnoresCaseAndSpace(w1, a, w2, b);
    SameNormalFormSameValidation(w1 + a + w2, b);
  }

  /** Validation of a non-empty string depends on its normal form only. */
  lemma SameNormalFormSameValidation(x: string, y: string)
    requires x != "" && y != "" && Normalize(x) == Normalize(y)
    ensures Validate(Parsed(JsonString(x))) == Validate(Parsed(JsonString(y)))
  {
    ValidateParsedString(x);
    ValidateParsedString(y);
  }

  /** A non-empty JSON string is judged by the pattern test on its normal form alone. */
  lemma ValidateParsedString(x: string)
    requires x != ""
    ensures Validate(Parsed(JsonString(x))) == CheckAddress(Normalize(x))
  {
  }

  /** A valid address with no ASCII upper-case letter and no surrounding whitespace. */
  predicate InStoredForm(email: string) {
    IsValidEmail(email) && IsLowered(email) && IsTrimmed(email)
  }

  /** Every stored address is in the form this handler stores. */
  ghost predicate StoredAreNormalized(rows: seq<EmailEntry>) {
    forall k :: 0 <= k < |rows| ==> InStoredForm(rows[k].email)
  }

  lemma StoredAreNormalizedAppend(rows: seq<EmailEntry>, e: EmailEntry)
    requires StoredAreNormalized(rows) && InStoredForm(e.email)
    ensures StoredAreNormalized(rows + [e])
  {
  }

  /**
    The handler: the store is called at most once, and only with the normalised, valid
    address; a rejected request leaves the store unchanged.
  */
  method Post(db: Db.Waitlist, body: RequestBody, now: Timestamp, fault: Option<string>) returns (reply: Reply)
    requires db.Valid()
    modifies db
    ensures db.Valid()
    ensures db.visits == old(db.visits)
    ensures StoredAreNormalized(old(db.emails)) ==> StoredAreNormalized(db.emails)
    ensures Validate(body).Reject? ==>
      reply == Validate(body).reply && db.emails == old(db.emails)
    ensures Validate(body).Accept? && fault.None? && !Db.Registered(old(db.emails), Validate(body).email) ==>
      reply == Reply(200, JoinedBody(true, JoinedMessage)) &&
      db.emails == old(db.emails) + [EmailEntry(old(db.nextEmailId), Validate(body).email, now)]
    ensures Validate(body).Accept? && fault.None? && Db.Registered(old(db.emails), Validate(body).email) ==>
      reply == Reply(400, ErrorBody(Db.FailureResult(db.uniqueViolationCode).error)) && db.emails == old(db.emails)
    ensures Validate(body).Accept? && fault.Some? ==>
      reply == Reply(400, ErrorBody(Db.FailureResult(fault.value).error)) && db.emails == old(db.emails)
  {
    var v := Validate(body);
    if v.Reject? {
      return v.reply;
    }
    AcceptedIsNormalized(body);
    ghost var before := db.emails;
    var result := db.AddEmail(v.email, now, fault);
    reply := StoreReply(result);
    if StoredAreNormalized(before) && db.emails != before {
      StoredAreNormalizedAppend(before, EmailEntry(old(db.nextEmailId), v.email, now));
    }
  }

  /**
    Two sign-ups whose addresses differ only in ASCII case and surrounding whitespace:
    whatever the first one does, the address is registered afterwards, so the second is
    refused by the uniqueness rule with 400 and the store keeps at most one new row.
  */
  method SubscribeVariantTwice(db: Db.Waitlist, w1: string, a: string, w2: string, b: string, now1: Timestamp, now2: Timestamp)
    returns (first: Reply, second: Reply)
    requires db.Valid()
    requires AllWhitespace(w1) && AllWhitespace(w2) && Lower(a) == Lower(b)
    requires w1 + a + w2 != "" && b != ""
    requires Validate(Parsed(JsonString(b))).Accept?
    modifies db
    ensures second == Reply(400, ErrorBody(Db.FailureResult(db.uniqueViolationCode).error))
    ensures |old(db.emails)| <= |db.emails| <= |old(db.emails)| + 1
  {
    SameStoreKey(w1, a, w2, b);
    var email := Validate(Parsed(JsonString(b))).email;
    first := Post(db, Parsed(JsonString(w1 + a + w2)), now1, None);
    assert Db.Registered(db.emails, email) by {
      if !Db.Registered(old(db.emails), email) {
        Db.AppendRegisters(old(db.emails), EmailEntry(old(db.nextEmailId), email, now1));
      }
    }
    second := Post(db, Parsed(JsonString(b)), now2, None);
  }
}
