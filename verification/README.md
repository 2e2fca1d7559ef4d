# Certificate lifecycle, revocation views and dashboard login

A model of open-pki-server's stateful core, with proofs about every run of it.

- **The certificate database and the handlers that drive it.** The tables `cas`, `certificates` and `private_keys`, each
  SQL statement as a function on them, and the REST handlers (create a root CA, issue, issue from a CSR, renew, revoke,
  publish a CRL, take statistics) as threads interleaved one statement at a time. A *world* is the clock, the tables, the
  handlers in flight and what was published; a *run* is any sequence of actions.
- **Two published views of revocation**, the CRL and the OCSP answer, which meet only through hexadecimal serial text and
  RFC 3339 timestamp text compared byte by byte.
- **Dashboard login**: a pruned sliding-window limiter and a lazily expired session table, under interleaved logins,
  checks, logouts and a sweeper whose clock reading is stale.

The code that changes state is modelled as classes and loops (`Storage.Store`, `Server.Server`, `Ocsp.Responder`,
`Dashauth.DashAuth`, `Authority.GenerateCRL`, the scans of `Profiles`). Their contracts tie them to functions on values, and
the theorems about all runs are about those functions. `Handlers.CompleteIsRun` connects the two levels: a handler method
does what its thread does when it is resumed to the end, which is one of the interleaved runs, with the tables it leaves
and the list or counts it publishes. `Effects` says column by column what each request does to the tables and what is
published of it, with the exact condition on which it succeeds, and `Requests` traces every row of every interleaving to
the request behind it; neither names the functions that compute a record. `Witness` shows runs from an empty database that come to the states at which
something fails.

| file | content |
|---|---|
| `Prelude.dfy`, `Sorting.dfy` | filtering and stable ordering of rows |
| `SerialText.dfy`, `Rfc3339.dfy`, `Durations.dfy` | serials as text, timestamps as text, 64-bit durations |
| `Profiles.dfy`, `Authority.dfy` | issuance policy, issuing certificates and CRLs |
| `Storage.dfy` | tables, statements, the store class |
| `Lifecycle.dfy`, `Invariant.dfy` | interleaved handlers, and what every reachable world satisfies |
| `Names.dfy` | the names a row records against those its certificate carries |
| `Renewal.dfy` | renewal: supersession, the forest, when it proceeds |
| `Lineages.dfy`, `RenewalRace.dfy` | when a certificate has at most one child and a lineage is a path, and the race that breaks it |
| `Expiry.dfy` | for which day counts the expiry listing is exact |
| `Ocsp.dfy`, `Revocation.dfy`, `CrlHistory.dfy` | the responder, agreement of the two views, CRLs over time |
| `CrlOrder.dfy`, `CrlRace.dfy` | contents of published lists against their numbers and each other, and the race that parts them |
| `Statistics.dfy` | statistics under interleaving |
| `Handlers.dfy` | a handler run to its end, as one of the interleaved runs |
| `Effects.dfy` | what each request does alone, column by column, and when it succeeds |
| `Requests.dfy` | every row, revocation and list of every run against the request behind it |
| `Server.dfy` | the handlers as methods on the store |
| `Witness.dfy` | runs from an empty database to the states the other modules argue about |
| `Dashauth.dfy`, `Limiter.dfy`, `Sessions.dfy` | login: the class, the limiter's runs, the session table's runs |

## Assumptions

- Clock readings never go backwards and stay within the years 0000 to 9999.
- A random serial never hits a serial that some revocation in flight already names (`Lifecycle.FreshDraw`); one that is
  already stored is rejected by the UNIQUE column, as in the code. A session token is never drawn twice.
- SQLite statements are atomic; there is no database error and no crash. Rows that tie in an ORDER BY keep row-id order.
- Signing keeps the fields of a certificate, rounds times down to whole seconds, writes an IPv4 address in 4 octets, and
  refuses exactly the times outside the years 0000 to 9999; signing a CRL also refuses one that ends before it starts.
- `net.ParseIP`, `net.ParseCIDR` and the text of an IPv6 address are parameters (`Profiles.Net`); SHA-1 of the subject
  public key info is an abstract function (`Ocsp.Hash`). What a handler takes from its request, the clock and the random
  source is an argument of its action.

## Where the code falls short of its intent

The model follows the code. Where one repair would change the answer, a flag of `Storage.Build` says whether the repair is
made, every theorem that does not name the flag holds for either value, and the exact condition is stated.

- `GetCertBySerial` scans the nullable revocation reason into a string (internal/storage/storage.go:351), so it fails on
  every row that was never revoked. As written no renewal gets past its lookup (`Renewal.RenewalProceedsIff`,
  `Renewal.AsWrittenNothingRenews`) and OCSP never says good (`Revocation.GoodIff`). Flag `nullAsEmpty`.
- `ListCAs` does not select the PEM column (internal/storage/storage.go:269) though `matchIssuer` decodes it, so as written
  no OCSP request is ever answered (`Revocation.AnswersIff`). Flag `pemListed`.
- With no CA at all `matchIssuer` returns neither a CA nor an error and the handler dereferences nil; this is the reply
  `Crashed` (`Revocation.AnswersIff` says exactly when).
- `RevokeCert` reads the clock before its UPDATE (internal/storage/storage.go:466-467), so an entry can still appear before
  entries already published. The head of a CRL is stable exactly when no such revocation is in flight
  (`CrlHistory.SettledForeverIff`).
- Renewal inserts without looking whether its original has been renewed meanwhile (internal/api/server.go:602). A run
  keeps single children, and lineages that are paths, exactly when no insert of the run finds its original renewed already
  (`Lineages.SingleChildrenIff`, `Lineages.LineagesArePathsIff`). Overlapping renewals of the same certificate are needed
  for such an insert: any run without them, whatever else is interleaved, has none
  (`Lineages.ExclusiveRunsKeepSingleChildren`). `Witness.ReachTwoChildren` comes to one from an empty database.
- Day counts above 106751 and CRL hours above 2562047 overflow 64-bit nanoseconds. The period of a certificate or CA and
  the window of a signed list are exact if and only if the count is not above its limit (`Authority.CALifetime`,
  `Authority.IssuedLifetime`, `Authority.CrlWindow`); `Authority.CrlRefusedIff` says for every number of hours whether a
  list is signed at all, and `Authority.CrlEmptyWindow` gives one that is signed and ends as it starts. The expiry listing
  is exact in every world that satisfies the invariant if and only if the count is at most 106751
  (`Expiry.ExpiringExactlyIff`), and beyond that in just the reachable worlds where every active certificate ends by the
  wrapped deadline all the same (`Expiry.ReachableExpiringIff`). Both are about deadlines before the year 10000; a later one is printed with five
  digits and misses every certificate that ends in 2000 or later (`Storage.ExpiringMissesAfterYear9999`).
- `generateCRL` reads its list and signs it without looking at what was published meanwhile (internal/api/server.go:697-712),
  so a higher number can carry an older list. Lower-numbered lists of a CA are contained in higher-numbered ones exactly
  when no list of the run was signed while a longer one with a lower number was out (`CrlOrder.NumbersFollowContentsIff`).
  `Witness.ReachOutdatedList` comes to such a signature from an empty database.
- The issuer key hash covers the whole subject public key info (internal/ocsp/responder.go:146), where section 4.1.1 of
  RFC 6960 hashes the key bits alone. The digest is abstract here: `Revocation.AnswersIff` says, for any digest, exactly
  which requests are answered, those whose hash is a prefix of the digest of a CA that qualifies.

## Model

| member | source | states |
|---|---|---|
| SerialText.RoundTrip | internal/ca/ca.go:380-381 | Parsing the printed serial as base 16 recovers the number, for every natural number |
| SerialText.PrintInjective | internal/api/server.go:293 | Two serials with the same printed text are the same number, so the UNIQUE text column is uniqueness of numbers |
| SerialText.HexExample | internal/api/server.go:293 | The letters are upper case, most significant digit first: 0xBEEF is "BEEF", 0x12AC "12AC" |
| SerialText.LookupTextAgrees | internal/ocsp/responder.go:76 | The responder's upper-cased base-16 text of any requested integer, negative ones included, equals a stored text exactly when the numbers are equal |
| SerialText.DigitCount | internal/api/server.go:293 | k hexadecimal digits are enough exactly for the serials below 16^k |
| SerialText.DerRoundTrip | internal/ca/ca.go:432-434 | The DER contents octets of a serial denote that serial |
| SerialText.DerLength | internal/ca/ca.go:432-434 | k octets are enough exactly for the serials below 128 * 256^(k-1) |
| SerialText.DrawnSerialFits | internal/ca/ca.go:432-434 | A serial below 2^128 needs at most 32 digits and 17 octets, inside the 20 of section 4.1.2.2 of RFC 5280; the largest one needs exactly that many |
| Rfc3339.DateOfCorrect | internal/storage/storage.go:466 | The date printed for a day is a date of the Gregorian calendar, and counting days up to it gives the day back |
| Rfc3339.TextOrderIsTimeOrder | internal/storage/storage.go:489-492 | For years 0000 to 9999 byte order of stored timestamps is time order, strictly and weakly, both ways, and equal text is equal time |
| Rfc3339.TextOrderEndsAtYear10000 | internal/storage/storage.go:422-426 | The bound is needed: every instant of the years 10000 to 19999 sorts before every instant of 2000 to 9999 |
| Rfc3339.ParseRoundTrip | internal/storage/storage.go:505 | Reading back a stored timestamp gives the instant that was written |
| Rfc3339.FormatLayout | internal/storage/storage.go:466 | The stored text is year, month, day, "T", hours, minutes, seconds and "Z", each number in its place with leading zeros |
| Rfc3339.EpochsAreDates | internal/storage/storage.go:466 | The constants are the first instants of 1970, of year 1 and of year 10000 |
| Durations.Wrap64 | internal/profile/profile.go:56-59 | A 64-bit product is the true product reduced modulo 2^64, unchanged when it fits |
| Durations.DaysExactIff | internal/ca/ca.go:73 | A day count becomes exactly that many days of nanoseconds if and only if it is at most 106751 in size |
| Durations.DaysWrapNegative | internal/storage/storage.go:421 | From 106752 days on, as many again, the duration is negative |
| Durations.HoursExactIff | internal/ca/ca.go:396 | An hour count is exact if and only if it is at most 2562047 in size |
| Durations.HoursWrapNegative | internal/ca/ca.go:396 | From 2562048 hours on, as many again, the duration is negative |
| Durations.WrapBits | internal/ca/ca.go:396 | The wrapped value is the low 64 bits, less 2^64 when the sign bit is set |
| Durations.DaysBits | internal/profile/profile.go:56-59 | A duration of whole days is the 64-bit product with 86400000000000 |
| Profiles.IpRuleIgnoresWidth | internal/profile/profile.go:116-129 | Whether an IPv4 address takes 4 or 16 octets never changes what the address rule says |
| Profiles.SansAllowedAfterEncoding | internal/profile/profile.go:76-92 | Names and addresses are admitted before signing exactly when they are admitted as read back from the certificate |
| Profiles.MatchesDNSSuffix | internal/profile/profile.go:107-114 | True exactly when some listed suffix ends the name |
| Profiles.MatchesAllowedIP | internal/profile/profile.go:116-129 | True exactly when some entry is the address's text or a range containing it |
| Profiles.ValidateSANs | internal/profile/profile.go:76-92 | Passes exactly when every name and address is admitted; otherwise names the first DNS name refused, or, all names being admitted, the first address refused |
| Profiles.ValidateSubject | internal/profile/profile.go:95-105 | Passes exactly when no prefixes are set or one of them starts the common name |
| Profiles.PermittedIff | internal/profile/profile.go:76-129 | The policy gate passes exactly when each DNS name ends in a listed suffix, each address is a listed text or agrees with a listed range under its mask, and the common name starts with a listed prefix, an empty list permitting all |
| Profiles.ContainsIff | internal/profile/profile.go:123-126 | An address is in a range exactly when both, brought to the same width, agree in every bit the mask sets |
| Profiles.To4Iff | internal/profile/profile.go:118 | An address has a 4-octet form exactly when it has 4 octets, or 16 of which the first ten are 0 and the next two 255 |
| Authority.Sign | internal/ca/ca.go:281-286 | Signing succeeds exactly when both ends of the period have a four-digit year, and then both are storable instants |
| Authority.CALifetime | internal/ca/ca.go:40-74 | A CA lives exactly the requested (or fallback) days in encoded seconds if and only if the request is at most 106751 |
| Authority.InitExactly | internal/ca/ca.go:40-126 | A CA is made exactly when both ends of its period are encodable; it names itself, has the drawn serial and key and lives the requested days, or 3650 for a root and 1825 for an intermediate |
| Authority.IssueCert | internal/ca/ca.go:199-284 | Signs exactly when profile and CSR signature are in order, the names are permitted and the period is encodable; the certificate has the drawn serial, the period of the profile, each name or list that the options leave empty from the CSR, and the CSR's key if there is one; each refusal has its own error |
| Authority.IssueExactly | internal/ca/ca.go:199-284 | The same for the specification, in terms of options, draw and reading |
| Authority.CsrCertified | internal/ca/ca.go:213-223 | What is signed with a CSR has a valid CSR signature, the CSR's key and, where the options are empty, its names and addresses; without a CSR the fresh key |
| Authority.IssuedObeysProfile | internal/ca/ca.go:232-238 | Nothing outside the profile is ever signed, as read back from the encoded certificate, and the serial is the drawn one |
| Authority.RenewalNeverRefused | internal/api/server.go:576-592 | Re-issuing the names of a certificate that obeys its profile is refused only for an unencodable time; names and addresses are carried over and the result obeys the profile again |
| Authority.IssuedLifetime | internal/profile/profile.go:56-59 | An issued certificate lives exactly its profile's days if and only if that count is at most 106751 |
| Authority.GenerateCRL | internal/ca/ca.go:373-401 | The list is numbered and dated by the reading, ends the configured hours or 24 later and has, in order, one entry for each revoked row with the number its text prints, its time and its code; nothing is signed when the window is not encodable or reversed |
| Authority.SignedReads | internal/ca/ca.go:373-401 | The same for the specification |
| Authority.CrlWindow | internal/ca/ca.go:392-397 | A list that is signed is valid for exactly the configured hours if and only if they are at most 2562047 |
| Authority.CrlEndsLater | internal/ca/ca.go:392-397 | A signed list ends in a later second than it starts if and only if the wrapped duration carries past the end of the second, as it does for every exact window |
| Authority.CrlEmptyWindow | internal/ca/ca.go:396 | 2^51 hours wrap to nothing: the list is signed and ends in the second it starts |
| Authority.CrlRefusedIff | internal/ca/ca.go:392-400 | For every number of hours: no list is signed exactly when the 64-bit product has its sign bit set or an end of the window has no four-digit year |
| Authority.CrlRefusedOnOverflow | internal/ca/ca.go:396-400 | In particular none is signed from 2562048 hours on, as many again |
| Sorting.SortPermutes | internal/storage/storage.go:489-492 | Ordering keeps exactly the rows, each as often as before |
| Sorting.SortOrders | internal/storage/storage.go:426 | The result is in order of its text key |
| Sorting.FilterSort | internal/storage/storage.go:490-492 | Selecting from ordered rows is ordering the selected rows: ties keep their row order |
| Storage.ReasonCodesComplete | internal/storage/storage.go:186-197 | The reason names map one to one onto the codes 0 to 10 without 7 of section 5.3.1 of RFC 5280 |
| Storage.ReasonCodeTable | internal/storage/storage.go:186-197 | Which name has which code, one by one; any other text has code 0, and the known names are those with a code other than 0 and "unspecified" |
| Storage.SelectRevoked | internal/storage/storage.go:489-492 | Exactly the revoked rows of that CA are listed |
| Storage.ScanRevoked | internal/storage/storage.go:497-513 | The row loop fails exactly when some listed time is NULL, and otherwise gives serial, time and reason code of each row in order |
| Storage.ScanRows | internal/storage/storage.go:432-445 | The row loop reads every selected row, in order |
| Storage.ReadRowsAt | internal/storage/storage.go:432-445 | The records read are those of the rows, one for each and in order |
| Storage.Store.AddCA | internal/storage/storage.go:224-236 | A CA is appended with the next id unless its serial is taken, and then nothing changes |
| Storage.Store.AddCert | internal/storage/storage.go:317-336 | A certificate is appended as an active row with the next id unless its serial is taken or its CA does not exist, and then nothing changes |
| Storage.Store.AddKey | internal/storage/storage.go:522-527 | A key row is appended |
| Storage.Store.RevokeCert | internal/storage/storage.go:459-480 | Succeeds exactly when an active row has the serial; that row alone gets status, time text, reason ("unspecified" if empty), comment and actor ("cli" if empty), all its other columns stay; a failure changes nothing |
| Storage.RevokeColumns | internal/storage/storage.go:459-480 | The same for the statement on tables |
| Storage.GetKeyFirst | internal/storage/storage.go:529-533 | The key used is the first one stored for its owner |
| Storage.Store.ListRevokedEntries | internal/storage/storage.go:488-514 | Gives the listing specified by `ListRevoked` |
| Storage.Store.ListExpiring | internal/storage/storage.go:420-446 | Gives the rows of `SelectExpiring`; `ListsExactlyIff`, `ExpiringExactly` and `ExpiringExactlyIff` say which these are |
| Storage.Store.GetStats | internal/storage/storage.go:760-769 | Gives `StatsOf`, the five counts of one state; `Statistics.CountsAreSnapshots` is about writers between the queries |
| Storage.DeadlineMeaning | internal/storage/storage.go:421-426 | Comparing expiry text with deadline text is comparing the instants, down to the nanosecond of the deadline, for every deadline before the year 10000 |
| Storage.ListsExactlyIff | internal/storage/storage.go:420-446 | For any table and day count the listing is exact if and only if no active certificate ends between the 64-bit deadline and the one meant |
| Storage.ExpiringInOrder | internal/storage/storage.go:426 | Whatever the deadline, the listing is in order of expiry |
| Storage.ExpiringMissesAfterYear9999 | internal/storage/storage.go:421-426 | With a deadline in the years 10000 to 19999 no certificate that ends in 2000 or later is listed |
| Storage.ExpiringMissesAllAfterOverflow | internal/storage/storage.go:421 | From 106752 days on, as many again, no certificate that is still valid is listed; `Expiry` covers the counts beyond |
| Storage.RevokedInTimeOrder | internal/storage/storage.go:489-492 | ORDER BY on the text column puts the entries in order of time |
| Expiry.ExpiringExactly | internal/storage/storage.go:420-446 | In every world that satisfies the invariant, for up to 106751 days, exactly the active certificates ending by now + days are listed, in order of their end |
| Expiry.RunInRange | internal/profile/profile.go:56-59 | No certificate stored in any run ends 2^63 nanoseconds or more from now |
| Expiry.ReachableExpiringIff | internal/storage/storage.go:420-446 | In every reachable world and for every day count from 0 on the listing is exact if and only if the count is at most 106751 or every active certificate ends by the wrapped deadline |
| Expiry.ExpiringExactlyIff | internal/storage/storage.go:421 | A day count makes the listing exact in all worlds that satisfy the invariant at a given clock reading if and only if it is at most 106751 |
| Lifecycle.RunExtends | internal/storage/storage.go:467-470 | Over any run rows are never deleted, keep their place and issuance columns, and only go from active to revoked; the clock does not go back |
| Lifecycle.RevocationAbsorbing | internal/storage/storage.go:459-480 | Once revoked, a row never changes in any column, whatever runs after |
| Lifecycle.FirstWriterWins | internal/api/server.go:409-417 | The first revocation to reach an active row fixes its time, reason, comment and actor for every later state, even when a superseding renewal races an operator |
| Invariant.SignedRecordOk | internal/api/server.go:602-615 | What a job signs is a record that may be stored: it obeys its profile, its text columns print the certificate, and a renewal carries CA, profile, common name and SANs of a stored row |
| Invariant.StepInv | internal/api/server.go:213-621 | One statement of any handler keeps the invariant of tables and handlers in flight |
| Invariant.RunInv | internal/api/server.go:213-621 | The invariant holds in every state of every interleaving |
| Invariant.ListingBy | internal/storage/storage.go:497-513 | In a reachable state the revocation listing never fails and no entry is dated after the clock |
| Invariant.StoredObeysPolicy | internal/ca/ca.go:213-238 | Every stored certificate obeys the profile it names, on all three issuance paths, in every reachable state |
| Invariant.StatusPartition | internal/storage/storage.go:762-765 | Active and revoked rows add up to all rows in every reachable state |
| Invariant.StatsNeverUndercount | internal/storage/storage.go:760-769 | Statistics taken by separate queries with any writers in between satisfy total <= active + revoked |
| Statistics.CountsAreSnapshots | internal/storage/storage.go:760-769 | In any interleaving each of the five counts, and the clock reading for the deadline, is exact at some state, and these states follow each other in the order of the queries |
| Statistics.CountsByStatus | internal/storage/storage.go:760-767 | The count of a status is the number of rows that have it |
| Statistics.CountsExpiring | internal/storage/storage.go:768-769 | The last count is the number of active certificates that end by 30 days from the reading, if that is before the year 10000 |
| Names.JobRecorded | internal/api/server.go:291-303 | The record of a signed job lists the names its certificate carries, in the form of its issuance path |
| Names.NamesAreRecorded | internal/api/server.go:255-607 | In every interleaving each row records its certificate's names: split like a request they give its DNS names and addresses back, or they are its names followed by its address texts; renewals hand them on |
| Names.CsrNamesSplitIff | internal/api/server.go:487-493 | What the CSR path records splits back into the certificate's names if and only if none of its DNS names reads as an address |
| Renewal.RenewedIsAttended | internal/api/server.go:544-621 | In every state of every interleaving an active certificate that has a renewal child has a renewal in flight past its insert and before its revocation |
| Renewal.QuietMeansSuperseded | internal/api/server.go:602-621 | When no handler is in flight no renewed certificate is active |
| Renewal.RenewalForest | internal/api/server.go:579-615 | In every interleaving each link names an earlier row with a smaller id, following links ends in a row without one, and CA, profile, common name and SANs are the same along the way |
| Renewal.RenewalSignsIff | internal/api/server.go:576-596 | In a reachable world a renewal at its signature goes on to its insert exactly when the new end date has a four-digit year: policy never refuses it |
| Renewal.RenewalProceedsIff | internal/api/server.go:544-558 | A renewal passes its lookup exactly when an active row has the serial and the lookup can read a NULL reason |
| Renewal.AsWrittenNothingRenews | internal/storage/storage.go:341-355 | Without that repair no run ever links a certificate to another |
| Lineages.StepSingleIff | internal/api/server.go:602-615 | One action of any handler keeps at most one child per certificate exactly when it is not a renewal insert whose original has a child already |
| Lineages.SingleChildrenIff | internal/api/server.go:602-615 | Over every run in any interleaving each certificate has at most one renewal child if and only if no insert of the run found its original renewed already |
| Lineages.LineagesArePathsIff | internal/api/server.go:549-621 | And under exactly that condition any two certificates with the same root are one renewed from the other |
| Lineages.OneActivePerLineage | internal/api/server.go:602-621 | And then a lineage has at most one active certificate that no renewal is about to revoke |
| Lineages.ExclusiveRun | internal/api/server.go:544-621 | A run in which no two renewals of the same certificate overlap, any other handlers interleaved at will, has no such insert |
| Lineages.ExclusiveRunsKeepSingleChildren | internal/api/server.go:544-621 | So such a run keeps single children and lineages that are paths |
| Lineages.OneAtATimeIsExclusive | internal/api/server.go:535-621 | Handlers that run one at a time are such a run |
| RenewalRace.RaceGivesTwoChildren | internal/api/server.go:544-621 | From any quiet world two interleaved renewals of a certificate that nothing else prevents give it two active children |
| Ocsp.Responder.CompareHash | internal/ocsp/responder.go:147-163 | The comparison loop accepts exactly a prefix of the digest: nothing to compare matches, more than 20 octets never does |
| Ocsp.Responder.FindIssuer | internal/ocsp/responder.go:129-188 | The early-exit loop computes `MatchIssuer` |
| Ocsp.Responder.GetCAId | internal/ocsp/responder.go:191-200 | The id of the first CA row with the certificate's serial text, or 0 |
| Ocsp.Responder.Handle | internal/ocsp/responder.go:60-115 | The branch-by-branch template computes `Respond`, which `Revocation.ReplyExactly` describes in terms of the rows, the request and the reading |
| Revocation.ReplyExactly | internal/ocsp/responder.go:60-188 | In every world that satisfies the invariant: an answer comes from the first CA whose key hash starts with the requested octets and whose key loads; it is good exactly for an active row of that CA and serial that has not ended at the reading (and a readable NULL reason), revoked with a time and code exactly when such a row is revoked with them, unknown otherwise; without a CA it crashes |
| Revocation.StatusExactly | internal/ocsp/responder.go:79-115 | The status alone, against the rows |
| Revocation.RecordReads | internal/storage/storage.go:338-373 | What a lookup returns is the row column by column, its times read back, NULL as empty text |
| Revocation.LookupFinds | internal/ocsp/responder.go:76-86 | The responder's lookup text finds a row exactly when the row's certificate has the requested number |
| Revocation.ViewsAgree | internal/ocsp/responder.go:76-115 | For every reachable world, CA and requested integer OCSP says revoked exactly when the serial is on that CA's list, with the same time and reason |
| Revocation.GoodIff | internal/ocsp/responder.go:106-113 | Good exactly for an active, unexpired certificate of that CA, provided the lookup can read a NULL reason |
| Revocation.OtherCAUnknown | internal/ocsp/responder.go:90-92 | A serial of another CA is unknown and unlisted |
| Revocation.MatchedIssuer | internal/ocsp/responder.go:129-200 | The match is the lowest-numbered CA whose key loads and whose digest has the request as prefix (equality at 20 octets), and looking its id up by serial gives that row's id |
| Revocation.MatchIffCandidate | internal/ocsp/responder.go:129-188 | There is a match exactly when the listing carries certificates and some CA qualifies |
| Revocation.AnswersIff | internal/ocsp/responder.go:60-74 | A request is answered exactly when some CA qualifies and certificates are listed; the nil dereference happens exactly when there is no CA |
| Revocation.OcspMatchesCrl | internal/api/server.go:683-720 | At any reachable state the OCSP answer and the CRL its CA would sign agree on every integer, with time and reason |
| Revocation.SplitReadsAgree | internal/ocsp/responder.go:61-91 | With writers between the responder's three reads the answer is that of the moment of the lookup, and agrees with the list of that moment |
| Revocation.CrlGrows | internal/storage/storage.go:488-514 | Over any run a CA's revoked rows and CRL entries are only ever added to |
| CrlHistory.SettledIsPrefix | internal/storage/storage.go:489-492 | The entries before a given second are a prefix of the list |
| CrlHistory.RunSettled | internal/storage/storage.go:466-471 | While no revocation stamped before the second is in flight to a certificate of the CA, no run changes those entries or their order |
| CrlHistory.ExposedUnsettles | internal/storage/storage.go:466-471 | If one is in flight, there is a run that changes them |
| CrlHistory.SettledForeverIff | internal/storage/storage.go:466-492 | So they are the same in all futures if and only if none is in flight |
| CrlHistory.PublishedInOrder | internal/ca/ca.go:392-397 | In every interleaving CRL numbers never decrease, no entry is dated after its list, and no list ends before it starts |
| CrlHistory.PublishedWindows | internal/api/server.go:707-712 | Of the lists published in any interleaving every one has the configured window if that is at most 2562047 hours, and none has it if it is more |
| CrlHistory.PublishedIsAListing | internal/api/server.go:697-712 | In every interleaving a published list is, whole, the listing of its CA at one state of the run |
| CrlHistory.PublishedStaysRevoked | internal/api/server.go:697-712 | Every entry ever published stays on the CA's list, and OCSP answers that serial as revoked with the same time and reason in the current state |
| CrlHistory.EarlierListingIsSubset | internal/api/server.go:697-712 | In any interleaving the earlier of two listings of a CA holds nothing the later does not |
| CrlHistory.PublishedIff | internal/api/server.go:683-720 | A list is among the published ones of a run exactly when some action of the run published it |
| CrlHistory.UninterruptedIsCurrent | internal/api/server.go:697-712 | A list whose handler was not interrupted between listing and signing was current when signed |
| CrlHistory.LowerNumberIsSubset | internal/ca/ca.go:392-397 | Of two published lists of one CA that were current when signed the lower-numbered one lists nothing the other does not (section 5.2.3 of RFC 5280) |
| CrlOrder.EntriesOnce | internal/storage/storage.go:488-514 | No listing names a serial twice |
| CrlOrder.PublishedComparable | internal/api/server.go:697-712 | Of any two lists of one CA published in any interleaving one contains the other, and which is told by their lengths |
| CrlOrder.StepFollowsIff | internal/api/server.go:712 | One action keeps lower-numbered lists contained in higher-numbered ones exactly when it does not sign a list while a longer one with a lower number is out |
| CrlOrder.NumbersFollowContentsIff | internal/api/server.go:697-712 | Over every run in any interleaving lower-numbered lists of a CA are contained in higher-numbered ones if and only if no action of the run made such a signature |
| CrlOrder.SettledHeadStays | internal/api/server.go:697-712 | The entries of a published list before a second that was settled when it was listed are its head and the head of every list of that CA listed later |
| CrlRace.RaceOutdates | internal/api/server.go:697-712 | From any quiet world that satisfies the invariant a CA that loads and has an active certificate can publish two lists of which the higher-numbered misses an entry of the other |
| Handlers.RankFalls | internal/api/server.go:535-621 | Every statement brings its handler closer to its end, and each handler reads the revocation clock once |
| Handlers.CompleteIsRun | internal/api/server.go:535-621 | A handler that runs alone is one of the interleaved runs: tables, published lists and counts are those of its last statement, and nothing is left in flight |
| Handlers.ServedIsRun | internal/api/server.go:535-621 | The same from the admission of the request |
| Handlers.CrlRequestEnds | internal/api/server.go:683-720 | The four statements of a CRL request end in `CrlFor`, published for the requested CA, or in nothing; the tables stay |
| Handlers.CrlRequestPublishes | internal/api/server.go:683-720 | A CRL request that nothing interrupts appends exactly that list to what is published, or nothing |
| Handlers.StatsRequestCounts | internal/storage/storage.go:760-769 | A statistics request that nothing interrupts appends the counts of that state, as the method gives them |
| Handlers.CrlForIsSignedNow | internal/api/server.go:683-720 | The published list is the one its CA would sign at that very state, and there is one exactly when CA and key load and signing succeeds |
| Effects.CanSignIff | internal/api/server.go:238-253 | A CA can be loaded exactly when the row of that id exists with a certificate and the first key stored for it decodes |
| Effects.SplitExactly | internal/api/server.go:255-263 | The names that read as no address are the DNS names, the others give the addresses, both in order |
| Effects.IssuesGenerated | internal/api/server.go:213-307 | Exactly when a common name is given, the profile ("server" if empty) is known and permits the names, the CA can sign, the period is encodable and the serial unused, one active row is appended with the requested CA, common name, names and profile, no link, the drawn serial and key and the texts of its times; otherwise nothing changes |
| Effects.IssuesFromCsr | internal/api/server.go:429-511 | The same with names and key of the CSR, which must decode and be validly signed; the row lists its DNS names, then the texts of its addresses |
| Effects.RenewsExactly | internal/api/server.go:535-621 | In a world that satisfies the invariant the row is renewed exactly when it is active with a readable NULL reason, its CA can sign, the period is encodable and the serial unused: the new row has its CA, profile and names, a fresh key and the link, and the original alone is revoked as "superseded" by "api" with an empty comment at the second reading |
| Effects.UnknownNotRenewed | internal/api/server.go:544-548 | A serial that no row has changes nothing |
| Effects.Revokes | internal/api/server.go:386-417 | A known reason sets reason, comment, actor ("api" if empty) and time text of the active row with the serial and nothing else; an unknown one changes nothing |
| Effects.MakesRoot | internal/api/server.go:112-153 | With a name, an encodable period of the requested or 3650 days and an unused serial exactly one CA row and its key are appended, column by column; otherwise nothing |
| Effects.ListingExactly | internal/storage/storage.go:488-514 | A CA's entries are exactly the serial, time and code of its revoked rows, in order of time and as many as those rows |
| Effects.PublishesExactly | internal/api/server.go:683-720 | A CRL request gives a list exactly when the CA can sign and the window is encodable and not reversed; number, dates and entries are spelled out |
| Effects.RevocationShows | internal/api/server.go:386-417 | After a revocation served in a quiet world the CRL has the certificate with the second of the clock and the code of the given reason, and OCSP answers it as revoked with the same |
| Effects.RenewalShows | internal/api/server.go:617-621 | After a renewal that succeeds both views show the original as superseded, code 4 |
| Requests.StatementsAreExplained | internal/api/server.go:112-720 | In every interleaving a statement changes the tables only as the request of its own handler says: a row it adds has the requested CA, profile, names and link, a row it changes goes from active to revoked with the requested reason, comment and actor |
| Requests.EveryRowIsFounded | internal/api/server.go:112-621 | In every interleaving every CA, every row and every revocation goes back to a request of the run with those columns |
| Requests.EveryListIsAsked | internal/api/server.go:683-720 | In every interleaving every published list was requested for that CA |
| Server.Server.SplitSans | internal/api/server.go:255-263 | The loop separates the names that parse as addresses from the others, each in order |
| Server.Server.RecordNames | internal/api/server.go:487-493 | The two loops record all DNS names, then the text of all addresses |
| Server.Server.HandleCreateRootCA | internal/api/server.go:112-153 | The tables end as the handler's thread leaves them and as `Effects.MakesRoot` spells out; an id is returned exactly when a CA row was added |
| Server.Server.HandleRevokeCert | internal/api/server.go:386-417 | The tables end as the thread leaves them, with the columns `Effects.Revokes` spells out; it succeeds exactly when the reason is known and an active row has the serial, and otherwise changes nothing |
| Server.Server.LoadCA | internal/api/server.go:238-253 | The CA row is found exactly when it exists and its certificate and key decode |
| Server.Server.RecordFor | internal/api/server.go:487-506 | The row has the serial text and certificate signed; issued, the id of the CA row, the job's profile and no link, with the requested names or, from a CSR, the certificate's DNS names and address texts; renewed, the columns of the original and a link to it |
| Server.Server.PrepareJob | internal/api/server.go:238-285 | Up to the signature the method stands where its thread would: at the insert of the same record, or finished with nothing changed |
| Server.Server.IssueJob | internal/api/server.go:281-307 | An id means exactly one row was appended, a failure that nothing changed, as for the thread |
| Server.Server.HandleIssueCert | internal/api/server.go:213-307 | The tables end as the thread leaves them, one row richer as `Effects.IssuesGenerated` spells out or unchanged; an id is that of the appended row |
| Server.Server.HandleIssueFromCSR | internal/api/server.go:429-511 | The same for a CSR, decodable or not, as `Effects.IssuesFromCsr` spells out |
| Server.Server.HandleRenewCert | internal/api/server.go:535-621 | As its thread leaves the tables: the new row and the original's revocation as `Effects.RenewsExactly` spells out with a returned id, nothing changed without |
| Server.Server.GenerateCRL | internal/api/server.go:683-720 | Gives what the CRL thread publishes (`Handlers.CrlRequestEnds`), the list that `Effects.PublishesExactly` spells out |
| Witness.ReachCertificate | internal/api/server.go:112-307 | From any empty start with a profile like the built-in "server" a run makes a CA and a certificate and leaves nothing in flight |
| Witness.ReachTwoChildren | internal/api/server.go:544-621 | With the lookup repaired, from there a run comes to two children of one certificate, and a lineage that is no path |
| Witness.ReachExposed | internal/storage/storage.go:466-471 | From there a run comes to a revocation that has read its clock before a second that has begun |
| Witness.ReachUnsettled | internal/storage/storage.go:466-471 | And goes on to change the entries before that second |
| Witness.ReachOutdatedList | internal/api/server.go:697-712 | From there a run publishes two lists of CA 1 of which the higher-numbered misses an entry of the other |
| Witness.ReachMissedExpiry | internal/storage/storage.go:421 | In a reachable world the listing for 106752 days misses an active certificate |
| Dashauth.KeepRecent | internal/dashauth/dashauth.go:300-305 | The loop keeps exactly the attempts strictly after the cutoff, in order |
| Dashauth.DashAuth.AllowLogin | internal/dashauth/dashauth.go:294-309 | Allows exactly when fewer than five stored attempts of the address are less than 60 s old, and prunes only this address |
| Dashauth.RecentCount | internal/dashauth/dashauth.go:294-309 | The attempts kept are as many as the positions after the cutoff |
| Dashauth.SweepMeans | internal/dashauth/dashauth.go:272-288 | After a sweep an address is there exactly when it has an attempt after the cutoff, with exactly those in order |
| Dashauth.DashAuth.RecordFailedLogin | internal/dashauth/dashauth.go:311-315 | Appends one attempt for this address |
| Dashauth.DashAuth.CreateSession | internal/dashauth/dashauth.go:228-245 | Stores under the token a session of that address from the reading to 8 * 3600 * 10^9 nanoseconds later, and changes no other |
| Dashauth.DashAuth.ValidSession | internal/dashauth/dashauth.go:247-258 | True exactly for a stored session not past its expiry; an expired one is dropped, nothing else changes |
| Dashauth.DashAuth.HandleLogout | internal/dashauth/dashauth.go:186-189 | Removes exactly the session of the cookie |
| Dashauth.DashAuth.HandleLogin | internal/dashauth/dashauth.go:130-166 | Each reply exactly in its case; a session of 8 hours is stored only on the right key and a failure recorded only on a wrong one, each at its own clock reading |
| Dashauth.DashAuth.Cleanup | internal/dashauth/dashauth.go:260-290 | Drops exactly the expired sessions, and prunes the attempts with the same clock reading |
| Dashauth.DashAuth.SweepAttempts | internal/dashauth/dashauth.go:272-288 | Keeps the recent attempts of every address and drops the addresses that have none |
| Limiter.RunFaithful | internal/dashauth/dashauth.go:260-315 | In every interleaving, sweeps with stale readings included, the pruned map and the full history show the same attempts from any current cutoff on |
| Limiter.PruningIsInvisible | internal/dashauth/dashauth.go:294-309 | So the pruned map allows a login exactly when the full history would |
| Limiter.AllowedAfterAMinute | internal/dashauth/dashauth.go:298-308 | An address whose failures are all at least 60 s old is allowed, however many there were |
| Limiter.FailuresBounded | internal/dashauth/dashauth.go:137-163 | With at most k handlers of an address between check and record, recent failures plus those handlers never exceed 4 + k, and no 60 s window of the run holds more than 4 + k failures |
| Limiter.FailuresInAnyMinute | internal/dashauth/dashauth.go:137-163 | Counted one by one: of all failures of an address at most 4 + k fall in any 60 s |
| Limiter.AllowedExactly | internal/dashauth/dashauth.go:294-309 | A check lets a handler go on exactly when fewer than five failures of the whole run are less than 60 s old |
| Limiter.BoundIsReached | internal/dashauth/dashauth.go:137-163 | For every positive k some run with at most k such handlers has a window with exactly 4 + k failures |
| Sessions.RunInv | internal/dashauth/dashauth.go:228-270 | In every interleaving a stored session is a created one that was not logged out, and whatever else is missing has expired |
| Sessions.OnlyLogoutEndsValid | internal/dashauth/dashauth.go:253-270 | Neither lazy deletion nor the sweeper ever removes a session still valid when it is removed; only a logout of that token does |
| Sessions.ValidIsStored | internal/dashauth/dashauth.go:247-258 | Created, not logged out and not expired is, at every moment, the same as stored and not expired |
| Sessions.SessionDated | internal/dashauth/dashauth.go:228-245 | In every interleaving the login of a token, under way or done, is dated by the clock at the draw of the token, and a stored session ends 8 * 3600 * 10^9 nanoseconds after it |
| Sessions.ValidForEightHours | internal/dashauth/dashauth.go:228-258 | Over every run a token stored by a login at reading t and not logged out is in the table up to and including t + 8 * 3600 * 10^9, and a check that nothing interrupts answers true exactly until then |
| Sessions.CheckedInEightHours | internal/dashauth/dashauth.go:247-258 | With anything in between, a check called after the token was stored answers true if answered by that instant and false if called after it |
| Sessions.ChecksLinearizable | internal/dashauth/dashauth.go:247-258 | Whenever a check has answered, there is an instant between its call and its answer at which the specification had that value |
| Sessions.CheckAlone | internal/dashauth/dashauth.go:247-258 | A check that nothing interrupts answers and changes the table as the method does |

## Left out

- CrlHistory.LowerNumberIsSubset: the sufficient condition for two lists; the exact one, over whole runs, is `CrlOrder.NumbersFollowContentsIff`.
- Rfc3339.ParseRoundTrip: parsing covers the one form ever stored (four-digit year, whole seconds, UTC), not fractions or offsets.
- Storage.Store.GetStats: the method has no writer between its queries; the interleaved statement is `Statistics.CountsAreSnapshots`.
- X.509, PEM, DER and CSR parsing, signatures, key generation and the choice of key algorithm, key usages and URLs in certificates: library calls and plain fields; a certificate is a record, and refusals of names that X.509 cannot encode are not modelled.
- Intermediate CAs: made from the command line only; `Authority.CALifetime` covers their validity, no handler stores them.
- Update times in an OCSP answer: the reading and the reading plus the configured minutes, which decide nothing.
- HTTP, JSON, cookies, the command line, file writes, configuration and dashboard pages: input, output and user interface.
- Asset graph, tags, metadata, lifecycle events and inventory: best-effort writes whose errors are ignored, with no agreement with the certificate table to state.
- Columns no modelled statement reads: subject, fingerprint, key algorithm, issuance mode, created and updated times.
- `GetCAByName`, `ListCerts`, `ListCertsFiltered` and bundle output: further selections of the same kind, which would add easy members.
- A crash between the statements of a renewal: insert and revocation are separate and the model has no crash.
- Bearer-token checks and `RequireAPIAuth`: one comparison in front of `validSession`.
