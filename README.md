# Waitlist: a verified model of the store, the admin check and the request rules

This project models the logic of a small waitlist web application, written in Dafny.
Visitors sign up with an email address, page visits are counted, and an administrator
reads statistics behind a bearer password. The model covers:

- **the store** (`lib/db.ts`), as the class `Db.Waitlist`. It has two append-only tables,
  `emails` and `visits`, held as sequences. The emails table is unique on the raw address
  string, and the store assigns increasing ids. Alongside the class are pure queries: the
  newest-first listing, the counts, and the signups-by-day histogram over the last 30 days
  (module `Rows`).
- **the admin statistics route** (`app/api/admin/stats/route.ts`). `secureCompare` is
  modelled with byte arrays: both UTF-8 encodings are copied into zero-filled buffers of
  the longer length and compared byte by byte (`SecureCompare`). The handler's ordered
  chain of early returns is a pure decision function (`AdminStatsRoute.Get`).
- **the subscribe route** (`app/api/subscribe/route.ts`). It normalises the address
  (lower-case, then trim) and checks it with a hand-written validator that is proved
  equivalent to the route's regular expression. It maps each outcome to a status and
  message, and the handler calls the store at most once.
- **the visit route** (`app/api/track-visit/route.ts`). It derives the client address
  from `x-forwarded-for` / `x-real-ip` and the user agent, records one visit, and
  swallows a store failure.
- **the public counters** (`app/api/stats/route.ts`). Each count falls back to 0 on its
  own.
- **the admin page** (`app/admin/page.tsx`), for two pieces only: the CSV text built by
  `exportEmails` and the `0.00` conversion-rate guard.

Supporting modules: `Text` models the JavaScript string operations used
(`toLowerCase`, `trim` with the ECMAScript white-space set, `split`, `join`,
`replace`, `startsWith`). `Utf8` is an actual UTF-8 encoder, proved injective. Its
one zero byte comes from NUL only.

The clock (`CURRENT_TIMESTAMP`, `datetime('now')`) is a `now: Timestamp` parameter in
whole seconds. `DATE(t)` is the day number `t / 86400`. A database failure is an
injected `fault: Option<string>` carrying the error code the library would report.
The code reported for a UNIQUE violation is a constant fixed when the store is built.

Two consequences of the code are worth stating on their own:

- The store's `UNIQUE` key is the raw address string (`Db.ExactStringKeys`). Case and
  white-space variants become one stored string only because the subscribe route
  normalises before inserting (`SubscribeRoute.SameStoreKey`,
  `SubscribeRoute.SubscribeVariantTwice`).
- Zero padding makes `secureCompare` equality up to trailing NUL characters: the
  configured password followed by NULs is accepted
  (`SecureCompare.SecureEqualIffStripNul`, `AdminStatsRoute.NulPaddedTokenAccepted`).

## Model

| member | source | states |
|---|---|---|
| Db.FailureResult | lib/db.ts:66-71 | a failure never succeeds and always carries a message; it is `Email already registered` exactly when the code is `SQLITE_CONSTRAINT`, otherwise `Failed to register email` |
| Db.ExactStringKeys | lib/db.ts:36 | appending a row for one address registers no other string, so case variants are distinct keys for the store |
| Db.AppendRegisters | lib/db.ts:63-64 | after a row is appended, its address is registered |
| Db.NullIfEmpty | lib/db.ts:76 | `x \|\| null`: the stored value is present exactly when the argument is a non-empty string, and then equals it |
| Db.Waitlist.constructor | lib/db.ts:33-46 | an initialised store has both tables empty, both `AUTOINCREMENT` counters at 1, and satisfies the id and uniqueness invariant |
| Db.Waitlist.AddEmail | lib/db.ts:61-72 | a new address appends exactly one row with the next id, the exact string and `now`, and returns success; a registered address or a fault returns the mapped error and leaves both tables unchanged; the invariant (strictly increasing, never reused ids; distinct addresses) is kept; the table grows by one exactly on success |
| Db.Waitlist.TrackVisit | lib/db.ts:74-77 | appends exactly one visit with empty or absent fields stored as NULL, leaves `emails` untouched, and on a fault inserts nothing and throws that fault |
| Db.Waitlist.AllEmails | lib/db.ts:79-82 | the listing holds every row exactly once (same multiset) ordered by `created_at` non-increasing |
| Db.Waitlist.EmailCount | lib/db.ts:84-88 | the count equals the length of the listing |
| Db.Waitlist.GetStats | lib/db.ts:96-117 | the listing is `AllEmails` (every row once, newest first); the counts are the table sizes; the histogram is `Rows.SignupsByDay` over the table at `now`, so its dates are strictly descending, every count is at least 1 and the total is at most `emailCount` |
| Rows.InsertNewestFirst | lib/db.ts:80 | one insertion step of the ordering adds exactly that row, at the front or after the old front |
| Rows.InsertKeepsNewestFirst | lib/db.ts:80 | inserting into a newest-first list keeps it newest first |
| Rows.SortNewestFirst | lib/db.ts:80 | `ORDER BY created_at DESC`: the result is newest first and a permutation of the rows |
| Rows.WindowDays | lib/db.ts:105-106 | the `WHERE` filter and `DATE(created_at)`: at most one day per row; which days occur is `Rows.WindowDaysMembers`, how often is `Rows.WindowDaysOccurrences` |
| Rows.WindowDaysMembers | lib/db.ts:105-106 | a day is among the windowed days exactly when some row of that day has `created_at >= now - 30 days` |
| Rows.WindowDaysOccurrences | lib/db.ts:103-106 | each day occurs among the windowed days exactly as often as the table has rows in the window signed up that day (`Rows.SignupsOn`, counted over the rows themselves) |
| Rows.Histogram | lib/db.ts:103-107 | `GROUP BY date ... ORDER BY date DESC` over a list of days; its properties are stated by `Rows.HistogramTallies` |
| Rows.HistogramTallies | lib/db.ts:103-107 | the grouping is strictly descending by date, has no empty day, its counts total the number of days grouped, and each date's count is the number of occurrences of that day |
| Rows.SignupsByDay | lib/db.ts:102-109 | the signups-by-day query: the grouping of the windowed days; what it returns is stated by `Rows.SignupsByDaySpec` and `Rows.SignupsByDayInWindow` |
| Rows.SignupsByDaySpec | lib/db.ts:102-109 | one entry per day with a signup in the last 30 days, each count equal to the number of rows in the window signed up that day and at least 1, dates strictly descending, total at most the number of rows |
| Rows.SignupsByDayInWindow | lib/db.ts:102-109 | every listed day is the day of some signup inside the window |
| SecureCompare.TimingSafeEqual | app/api/admin/stats/route.ts:28 | buffers of different lengths raise the length error; otherwise the result is true exactly when every byte agrees, with no early exit |
| SecureCompare.CopyInto | app/api/admin/stats/route.ts:25-26 | `buf.copy(target)` overwrites the first bytes of the target with the source and leaves the rest |
| SecureCompare.ZeroFilledCopy | app/api/admin/stats/route.ts:22-26 | a zero-filled buffer of the longer length with the encoding copied in is the encoding followed by zero bytes |
| SecureCompare.Compare | app/api/admin/stats/route.ts:10-33 | false for a non-string argument; otherwise true exactly when the zero-padded UTF-8 encodings are equal; the error path gives false, never a throw |
| SecureCompare.SecureEqual | app/api/admin/stats/route.ts:10-33 | what `secureCompare` returns for two strings, padded equality of their UTF-8 encodings; `SecureCompare.Compare` computes it and `SecureCompare.SecureEqualIffStripNul` characterises it |
| SecureCompare.PaddedEqualPointwise | app/api/admin/stats/route.ts:21-28 | padded equality holds exactly when the sequences agree at every position below the longer length, reading past the end as zero |
| SecureCompare.PaddedDifferenceFails | app/api/admin/stats/route.ts:22-28 | a differing byte below the shorter length, or a non-zero byte past it in the longer one, makes the comparison false |
| SecureCompare.PaddedEqualIffStripZeros | app/api/admin/stats/route.ts:21-28 | padded equality is equality once trailing zero bytes are removed |
| SecureCompare.SecureEqualIffStripNul | app/api/admin/stats/route.ts:17-28 | `secureCompare(a, b)` holds exactly when `a` and `b` are equal once trailing NUL characters are removed |
| SecureCompare.SecureEqualReflexive | app/api/admin/stats/route.ts:17-28 | every string matches itself |
| SecureCompare.SecureEqualSymmetric | app/api/admin/stats/route.ts:21-28 | the comparison does not depend on argument order |
| SecureCompare.TrailingNulAccepted | app/api/admin/stats/route.ts:21-28 | a secret and the same secret followed by any number of NULs compare equal |
| SecureCompare.ExtraCharRejected | app/api/admin/stats/route.ts:21-28 | appending any character other than NUL makes the comparison fail |
| SecureCompare.EmptyMatchesOnlyNuls | app/api/admin/stats/route.ts:21-28 | the empty string matches exactly the strings made only of NULs |
| Utf8.Encode | app/api/admin/stats/route.ts:17-18 | `Buffer.from(s, 'utf8')`, character by character; its properties are `Utf8.EncodeCharDecodes`, `Utf8.EncodeInjective` and `Utf8.EncodeStripNul` |
| Utf8.EncodeCharDecodes | app/api/admin/stats/route.ts:17-18 | each character encodes to 1-4 bytes whose lead byte gives the length and which decode back to the code point |
| Utf8.EncodeInjective | app/api/admin/stats/route.ts:17-18 | distinct strings have distinct UTF-8 encodings |
| Utf8.EncodeStripNul | app/api/admin/stats/route.ts:17-22 | removing trailing NULs from a string removes exactly the trailing zero bytes of its encoding |
| AdminStatsRoute.HeaderWellFormed | app/api/admin/stats/route.ts:40 | the header is present, non-empty and starts with `Bearer `; its use is stated by `AdminStatsRoute.Get` and `AdminStatsRoute.HeaderCheckedFirst` |
| AdminStatsRoute.Token | app/api/admin/stats/route.ts:47 | `replace('Bearer ', '')`; on a well-formed header it is everything after the prefix (`AdminStatsRoute.TokenIsSuffix`) |
| AdminStatsRoute.PasswordConfigured | app/api/admin/stats/route.ts:53 | the password is set, non-empty and not the placeholder; its use is stated by `AdminStatsRoute.Get` and `AdminStatsRoute.MisconfigurationFailsClosed` |
| AdminStatsRoute.TokenIsSuffix | app/api/admin/stats/route.ts:47 | for a header starting with `Bearer `, the token is the text after the 7-character prefix |
| AdminStatsRoute.Get | app/api/admin/stats/route.ts:35-82 | 200 with the statistics exactly when the header is well formed, the password is configured, the token equals it up to trailing NULs and the statistics read succeeds; every other outcome is an error body with 401 or 500 |
| AdminStatsRoute.HeaderCheckedFirst | app/api/admin/stats/route.ts:40-45 | a missing or non-`Bearer ` header gives 401 whatever the password and statistics are |
| AdminStatsRoute.MisconfigurationFailsClosed | app/api/admin/stats/route.ts:53-59 | an unset, empty or placeholder password gives 500 `Server configuration error` for every token |
| AdminStatsRoute.MismatchUnauthorized | app/api/admin/stats/route.ts:62-70 | a token that differs from the configured password (beyond trailing NULs) gives 401 `Unauthorized` |
| AdminStatsRoute.StatsFailureIs500 | app/api/admin/stats/route.ts:73-82 | a token matching the password up to trailing NUL characters, with a failing statistics read, gives 500 `Failed to retrieve statistics` |
| AdminStatsRoute.NulPaddedTokenAccepted | app/api/admin/stats/route.ts:47-75 | the configured password followed by NULs is let through to the statistics |
| Text.Trim | app/api/subscribe/route.ts:32 | `String.prototype.trim`: the result has no white space at either end and is no longer than the input; what it removes is stated by `Text.TrimSplit` |
| Text.TrimStartDropsOnlyWhitespace | app/api/subscribe/route.ts:32 | the leading part `trim` drops is white space |
| Text.TrimEndDropsOnlyWhitespace | app/api/subscribe/route.ts:32 | the trailing part `trim` drops is white space |
| Text.TrimSplit | app/api/subscribe/route.ts:32 | `trim` removes white space only, and only at the two ends |
| Text.TrimIgnoresSurroundingWhitespace | app/api/subscribe/route.ts:32 | white space added around a string does not change its trimmed form |
| Text.TrimIdempotent | app/api/subscribe/route.ts:32 | trimming twice is trimming once |
| Text.Lower | app/api/subscribe/route.ts:32 | `toLowerCase` on ASCII letters; its properties are `Text.LowerIsLowered` |
| Text.LowerIsLowered | app/api/subscribe/route.ts:32 | lower-casing leaves no ASCII upper-case letter and does not change a string that has none |
| Text.Join | app/admin/page.tsx:84 | `join(sep)`; it undoes `Text.Split` (`Text.Split`, `Text.SplitJoin`) |
| Text.Split | app/api/track-visit/route.ts:13 | `split` gives at least one piece, none containing the separator, and joining them gives the input back |
| Text.SplitJoin | app/api/track-visit/route.ts:13 | splitting a join of separator-free pieces gives the pieces back |
| Text.StartsWith | app/api/admin/stats/route.ts:40 | `startsWith(prefix)`: the string's first characters are the prefix; used by `AdminStatsRoute.HeaderWellFormed` |
| Text.ReplaceFirst | app/api/admin/stats/route.ts:47 | `replace(pat, rep)` of the first occurrence of a string pattern; on a leading pattern it drops exactly that prefix (`Text.ReplacePrefix`) |
| Text.ReplacePrefix | app/api/admin/stats/route.ts:47 | replacing the first occurrence of a prefix with nothing removes exactly that prefix |
| SubscribeRoute.Normalize | app/api/subscribe/route.ts:32 | `email.toLowerCase().trim()`; its properties are `SubscribeRoute.NormalizeIsNormalForm`, `SubscribeRoute.NormalizeIdempotent` and `SubscribeRoute.NormalizeIgnoresCaseAndSpace` |
| SubscribeRoute.NormalizeIsNormalForm | app/api/subscribe/route.ts:32 | a normalised address has no ASCII upper-case letter and no white space at either end |
| SubscribeRoute.NormalizeIdempotent | app/api/subscribe/route.ts:32 | normalising twice is normalising once |
| SubscribeRoute.NormalizeIgnoresCaseAndSpace | app/api/subscribe/route.ts:32 | inputs differing only in ASCII case and surrounding white space normalise to the same string |
| SubscribeRoute.IsValidEmail | app/api/subscribe/route.ts:35-36 | the `emailRegex.test` decision: split at the first `@`, check the local part and the dot structure of the domain; it accepts exactly what the pattern matches (`SubscribeRoute.ValidatorMatchesPattern`) |
| SubscribeRoute.ValidatorMatchesPattern | app/api/subscribe/route.ts:35-36 | the hand-written validator accepts exactly the strings the regular expression matches |
| SubscribeRoute.DotSeparatedIsDomain | app/api/subscribe/route.ts:35 | a non-empty run of label characters and single dots, with no dot at either end, matches the domain part of the pattern |
| SubscribeRoute.DomainIsDotSeparated | app/api/subscribe/route.ts:35 | the reverse: whatever the domain part matches has that dot structure |
| SubscribeRoute.AcceptedAddressShape | app/api/subscribe/route.ts:35 | an accepted address has exactly one `@`, a non-empty local part from the allowed set before it and a dot-separated domain after it, and no white space or comma |
| SubscribeRoute.Validate | app/api/subscribe/route.ts:12-41 | a request is accepted exactly when `email` is a non-empty string whose normalised form is valid, and the accepted value is that normalised form; rejections are 400 or 500 |
| SubscribeRoute.CheckAddress | app/api/subscribe/route.ts:36-41 | the pattern test on the sanitised address: accepted exactly when it is a valid address, and then carrying that address unchanged; otherwise the 400 `Please enter a valid email address` reply |
| SubscribeRoute.Rejections | app/api/subscribe/route.ts:12-41 | a non-JSON body gives 400 `Invalid request body`, a `null` body 500; a missing, non-string or empty `email` gives 400 `Email is required`; a normalised address outside the pattern gives 400 `Please enter a valid email address` |
| SubscribeRoute.StoreReply | app/api/subscribe/route.ts:46-56 | the reply for what `addEmail` returned: 400 with its error text, or 200 `Successfully joined the waitlist!`; its use is stated by `SubscribeRoute.Post` |
| SubscribeRoute.AcceptedIsNormalized | app/api/subscribe/route.ts:32-44 | what reaches the store is in normal form, unchanged by normalising again, and matches the pattern |
| SubscribeRoute.SameStoreKey | app/api/subscribe/route.ts:32-44 | two inputs differing only in ASCII case and surrounding white space lead to the same validation outcome and the same stored string |
| SubscribeRoute.SameNormalFormSameValidation | app/api/subscribe/route.ts:24-41 | validation of a non-empty string depends on its normal form only |
| SubscribeRoute.Post | app/api/subscribe/route.ts:8-56 | a rejected request returns its reply and leaves the store unchanged; an accepted one calls `addEmail` once with the normalised address and returns 200, or 400 with the store's error text verbatim; a store holding only valid normalised addresses keeps that property |
| SubscribeRoute.SubscribeVariantTwice | app/api/subscribe/route.ts:32-51 | after signing up one spelling, a case or white-space variant of it is refused with the duplicate error, and at most one row is added |
| TrackVisitRoute.TrimmedOrUnknown | app/api/track-visit/route.ts:14-17 | the trimmed header when it is present and not blank, `unknown` otherwise; never empty and always trimmed |
| TrackVisitRoute.ClientIp | app/api/track-visit/route.ts:11-14 | with a non-empty `x-forwarded-for`, the text before its first comma, trimmed and comma-free; otherwise the trimmed `x-real-ip` or `unknown` |
| TrackVisitRoute.UserAgentOf | app/api/track-visit/route.ts:17 | the user agent is never empty and always trimmed |
| TrackVisitRoute.ForwardedChainFirstHop | app/api/track-visit/route.ts:12-13 | for a comma-joined proxy chain the address is its first entry, trimmed |
| TrackVisitRoute.FallbackNeverEmpty | app/api/track-visit/route.ts:14 | without a usable forwarded header the address is never empty |
| TrackVisitRoute.BlankFirstHopStoredAsNull | app/api/track-visit/route.ts:13 | `" , 10.0.0.1"` yields the empty address, which the store records as NULL |
| TrackVisitRoute.Post | app/api/track-visit/route.ts:8-27 | always 200 `{ success: true }`; one visit with the derived address and user agent is appended unless the store fails, and then nothing changes; emails are untouched |
| StatsRoute.ReadCount | app/api/stats/route.ts:12-19 | a count read succeeds exactly when there is no fault, and then returns the count |
| StatsRoute.CountOrZero | app/api/stats/route.ts:11-23 | a count that was read, or 0 for a read that threw |
| StatsRoute.Get | app/api/stats/route.ts:11-28 | the reply is 200 and each count comes from its own read, 0 for a failed one |
| StatsRoute.GetFrom | app/api/stats/route.ts:11-28 | each public count is the table size when its read succeeds and 0 otherwise |
| StatsRoute.CountsIndependent | app/api/stats/route.ts:11-23 | whether one read fails has no effect on the other count |
| StatsRoute.PublicCountsBoundedByAdmin | app/api/stats/route.ts:11-28 | the public counts never exceed the admin statistics of the same store, and equal them when both reads succeed |
| AdminPage.CsvLine | app/admin/page.tsx:84 | one row: the address, a comma and the formatted time, unquoted; `AdminPage.EmailBeforeFirstComma` recovers the address from it |
| AdminPage.CsvLines | app/admin/page.tsx:84 | one row text per entry, in the order of `stats.emails` |
| AdminPage.ExportCsv | app/admin/page.tsx:79-84 | nothing without statistics; otherwise the data-URI prefix, the header line, and the rows joined by newlines with no trailing newline |
| AdminPage.EmptyExportIsHeader | app/admin/page.tsx:82-84 | with zero entries the text is exactly the prefix and the header line |
| AdminPage.ExportRowsInOrder | app/admin/page.tsx:84 | for a non-empty list of entries (with none, splitting the empty body gives one empty piece), splitting the body at newlines gives back one row per entry, in order, when no field holds a newline |
| AdminPage.EmailBeforeFirstComma | app/admin/page.tsx:84 | a row's text before its first comma is the address, when the address has no comma |
| AdminPage.AcceptedAddressesRecoverable | app/admin/page.tsx:84 | for addresses the subscribe route stores, each address is single-line and is the text of its row before the first comma, whatever the formatted time holds |
| AdminPage.ConversionRate | app/admin/page.tsx:152-154 | exactly `0.00` when there are no visits; otherwise the formatted ratio, which is never asked for with a zero divisor |

## Left out

- Database setup (`lib/db.ts:10-46`): directory creation, opening the file and creating the schema are file-system and library I/O. The model starts from an initialised, empty store.
- The error code the SQLite library really reports for a UNIQUE violation cannot be seen from this code (it may be an extended code). It is the constructor parameter `uniqueViolationCode`, and other failures are injected faults.
- Db.Waitlist.VisitCount: carries no contract of its own. Its value is stated by `Db.Waitlist.GetStats` and `StatsRoute.GetFrom`.
- Rows.SortNewestFirst: the order among rows with equal timestamps is not promised, because the query does not fix it.
- Timing: the constant-time behaviour of `crypto.timingSafeEqual` is not expressible here. Only its result and its all-bytes loop are modelled. The random 100-200 ms delay before a 401 is timing and randomness.
- Concurrency: two simultaneous inserts of the same address rely on SQLite's serialisation. The model runs one request at a time.
- Next.js plumbing: requests, responses and headers are plain datatypes. JSON parsing becomes the `RequestBody` cases, and the statistics read in the admin route becomes a `Result` parameter.
- Logging: every `console.error` call (in the four routes, in `secureCompare`'s `catch` and in the database setup) is output only and is not modelled.
- The outer `catch` blocks of the four routes (500 `Internal server error`, `Failed to track visit`, `Failed to fetch stats` with zero counts): nothing modelled inside them can throw, except destructuring a `null` body in the subscribe route, which is modelled as 500.
- Text.LowerChar: lower-casing is modelled for ASCII letters only and leaves every other character unchanged. JavaScript maps some non-ASCII characters to ASCII (the Kelvin sign lower-cases to `k`), so such inputs are rejected by the model but accepted by the code.
- Strings are sequences of Unicode scalar values. Lone UTF-16 surrogates, which `Buffer.from` replaces with U+FFFD, are not modelled.
- Floating point: `(emailCount / visitCount * 100).toFixed(2)` is the abstract `formatRate` parameter, and the bar widths are not modelled.
- Locale formatting (`toLocaleString`) is the abstract `formatTime` parameter. `encodeURI`, the file name and the DOM download steps are not modelled.
- Client-only code: React state, login and logout, the 30-second refresh, and all of `app/page.tsx`.
- `app/layout.tsx` and `next.config.js` are not part of this model.
