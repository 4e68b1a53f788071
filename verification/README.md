# Yoink core: a verified model

Yoink downloads media for chat users. This project models the parts of its backend where a mistake is easy to make and
hard to see: session protocols that interleave with slow providers, quota arithmetic that is checked before a write,
text that is signed, parsed or rewritten, and files that must not be overwritten. The properties below hold for all
inputs, all runs and all interleavings that the model describes.

| module | what it models |
|---|---|
| DeviceFlow, DeviceAnswers, OAuthService | device-flow sign-in (RFC 8628): sessions, leases, generations, staging, both poll transactions |
| PollRegistry | which task owns which session key, admission and drain |
| OAuthRefresh | compare-and-write of a refreshed credential |
| CookieTable, CookieQuota, CookieEffects | the cookie table, its usage columns, every quota-checked write and its exact effect, upload tokens, message watermarks |
| CookieText, CookieCheck, CookieJar, CookieSpelling | Netscape cookie text: reader, line rewriter, acceptance checks, printer |
| DeliveryPlan, DeliveryLoop, MediaCache | batching, delivery with receipts, cache publication and replay |
| FormData, FormSpelling, Json, LaunchData | form decoding and the signed launch data |
| Base64Url, Decimal, Tokens | compact signed tokens (RFC 7515 section 7.1, RFC 7519 section 4.1.4, RFC 4648 section 5) |
| ExceptionChain, Fallback | inspection of a provider failure before another provider may be tried |
| ClipHls | segments and byte budgets of a clip (RFC 8216 sections 4.3.2.1 and 4.3.3.4) |
| HeaderReader | taking a header off a byte stream (RFC 9112 section 2.1) |
| Publication, PublicationOutcomes | reserving, publishing and releasing a destination file |

State that the program updates in place is a class whose methods follow the program's statements; each method is proved
equal to a function on values, and the laws are lemmas about those functions and about runs of them.

Conventions and assumptions:

- Time is an integer. All transactions of the sign-in read one clock that does not run backwards; the program takes each
  poll's time from its caller and its own stopwatch, so two polls may in fact differ by a second. Stamps of cookie rows
  come from several clocks, most of them in whole seconds, and no order between them is assumed unless a row says so.
- Clip durations are reals.
- A text is its UTF-8 bytes, one character for each byte, so lengths are byte lengths.
- The keyed hash, the JSON reader, the check of a web address and the reading of a duration are parameters. A version
  digest, a session key and an inode number are never reused.
- Answers of storage, authorization, the providers and the network are arbitrary inputs of the operation that asks.
- One SQL transaction is one atomic step. Row counts, byte sums and row selection are those of the SQL files beside the
  Rust code; byte counts and limits stay inside the machine's 64-bit range.
- A poll that times out, loses its database or cannot decode its staged credential is an abandoned poll.
- A guard's staging directory is private to it, and nobody takes the lock name away without holding the lock of the file
  it names.

Where the code does less than one might expect, the model keeps the code:

- Rewriting cookie text can lose a carriage return. `lines` drops one return before each newline, so a record that ends in
  two loses one at each rewrite, although there is nothing to update. `CookieText.DoubledReturnIsLost` shows it and
  `CookieText.MergeThenRead` says for every line exactly when it happens, `CookieText.MergeAppliesUpdates` when the values as a
  whole suffer; text printed by `inputs` is never affected.
- The fallback gate on its own looks at no more than 64 exceptions and can miss one that forbids the fallback
  (`Fallback.GateAloneCanMiss`). It is complete exactly when at most 64 are reachable
  (`ExceptionChain.CompleteIffItFits`); the classifier in front of it refuses chains of 64, so a cleared failure is safe.
- The refresh before admission replaces a credential without looking at the quota. Every other writer of personal rows is
  checked. A single refresh keeps all measures bounded exactly when the text does not grow or still fits
  (`CookieQuota.RefreshBounded`, `CookieQuota.UncheckedRefreshGrows`), a run does so at every step exactly when its
  refreshes do (`CookieQuota.QuotaHoldsIffRefreshesFit`), and in any run the excess is at most what refreshes grew
  (`CookieQuota.QuotaHoldsOverRuns`).
- Row stamps of the sign-in refresh are whole seconds. A commit makes its reference stale exactly when it changes the
  content or the stamp (`OAuthRefresh.CommitMakesStale`). Within one second an old reference can become valid again
  (`OAuthRefresh.SameSecondReturns`); it stays out of every run exactly when the commit was stamped later, unless the quota
  stands in the way of the old content (`OAuthRefresh.StaysOutdatedIffLater`, `OAuthRefresh.CommitStaysStale`).
- A refresh writes every row of the domain and revives invalid ones. The reference it returns is the one that the next
  refresh accepts exactly when no row of the domain has a smaller number (`OAuthRefresh.ReturnedReferenceIsCurrent`,
  `OAuthRefresh.RevivedDuplicateWins`).

## Model

| member | source | states |
|---|---|---|
| DeviceFlow.EveryRunIsPromised | backend/crates/yoink-downloads/src/cookie_oauth.rs:304-600 | every interleaving of openings, cleanups, polls, lost polls and foreign cookie writes keeps the promises: provider calls are paced, at most one success wins per session, at most one store per session and only of the winner in time |
| DeviceFlow.FirstSuccessWins | backend/crates/yoink-downloads/src/cookie_oauth.rs:501-600 | once a session has staged a success, at every later moment exactly that content is staged with the same deadline, or was stored, or the deadline has passed |
| DeviceFlow.SuccessIsKept | backend/crates/yoink-downloads/src/cookie_oauth.rs:501-600 | a success that an authorized second transaction brings before its poll's lease ends, with an encodable credential, is recorded: staged for the retention time or stored, unless an earlier one already won |
| DeviceFlow.LeasesNeverChain | backend/crates/yoink-downloads/src/cookie_oauth.rs:439-487 | an unstaged session ends at its grant or at the running lease, never later than grant plus budget; polls captured the grant; staging fixes the deadline once |
| DeviceFlow.CallsArePaced | backend/crates/yoink-downloads/src/cookie_oauth.rs:472-570 | a provider call comes no sooner than the interval after the last accepted answer, or than the lease after a call without one; the interval stays within 1 to 60 |
| DeviceFlow.StaleAnswersAreFenced | backend/crates/yoink-downloads/src/cookie_oauth.rs:507-535 | a non-success of an old generation, or behind a staged success, changes nothing; a late success never moves the pacing; other sessions never move |
| DeviceFlow.SettledStays | backend/crates/yoink-downloads/src/cookie_oauth.rs:535-600 | along a run the grant, the winner and the stored content never change and the interval never falls and never passes 60 |
| DeviceFlow.PromisedOrder | backend/crates/yoink-downloads/src/cookie_oauth.rs:571-596 | what was stored for a session is the content of its winner, and only opened sessions win |
| DeviceFlow.CookieWritesAreRecorded | backend/crates/yoink-downloads/src/cookie_oauth.rs:571-596 | the sign-in changes the cookie table only by storing a winner, for the session's own user, and takes the session away in the same transaction |
| DeviceFlow.RunKeepsInv | backend/crates/yoink-downloads/src/cookie_oauth.rs:432-600 | the invariant that ties sessions and in-flight polls to the history survives every run |
| DeviceFlow.SessionsAreBounded | backend/crates/yoink-downloads/src/cookie_oauth.rs:757-770 | no run holds more than 8 sessions of one actor or 10000 in all |
| DeviceAnswers.DuePollsGoAhead | backend/crates/yoink-downloads/src/cookie_oauth.rs:439-487 | in every reachable state an authorized poll of a live session goes ahead exactly when a success is on record or the provider is due by the history, calls the provider exactly in the second case, leases the session without cutting its grant short, and otherwise is told to wait |
| DeviceAnswers.OtherPollsStop | backend/crates/yoink-downloads/src/cookie_oauth.rs:446-471 | every other poll only ends: refused without authorization or for a foreign session, expired for a missing or dead one, which is removed |
| DeviceAnswers.OpensBelowCapacity | backend/crates/yoink-downloads/src/cookie_oauth.rs:366-388 | a session opens exactly when fewer than 10000 live sessions exist and fewer than 8 are the caller's, with the nearest legal lifetime and interval, and may be polled at once |
| DeviceAnswers.SuccessIsSettled | backend/crates/yoink-downloads/src/cookie_oauth.rs:571-600 | an authorized success of a live session works with the first success on record: stored exactly when the write admits it and the session gone, else staged until the deadline of the first success; without an encodable one nothing moves |
| DeviceAnswers.AnswerIsSettled | backend/crates/yoink-downloads/src/cookie_oauth.rs:507-570 | any other answer counts exactly for the latest poll of a session without a success; it ends the session, or restores the grant and sets the next call to the interval from now, five seconds longer after slow_down, at most 60 |
| OAuthService.Service.Cleanup | backend/crates/yoink-downloads/src/cookie_oauth.rs:304-311 | removes exactly the sessions whose time is over |
| OAuthService.Service.StartSession | backend/crates/yoink-downloads/src/cookie_oauth.rs:366-388 | an authorized start cleans up, refuses at capacity, else opens a session with clamped lifetime and interval |
| OAuthService.Service.FirstTransaction | backend/crates/yoink-downloads/src/cookie_oauth.rs:439-487 | the first poll transaction, statement by statement, has the protocol's effect |
| OAuthService.Service.SecondTransaction | backend/crates/yoink-downloads/src/cookie_oauth.rs:501-600 | the second poll transaction, with its rollbacks, has the protocol's effect |
| OAuthService.Service.RefreshTransaction | backend/crates/yoink-downloads/src/cookie_oauth.rs:703-733 | the second refresh transaction compares the whole row and writes, or changes nothing |
| OAuthService.StoredSuccess | backend/crates/yoink-downloads/src/cookie_oauth.rs:601-645 | a stored success is what all the actor's rows of the domain hold, at the predicted usage, and no other row moves |
| OAuthRefresh.StaleRefreshIsInert | backend/crates/yoink-downloads/src/cookie_oauth.rs:681-733 | once any write gave the row a later stamp, a refresh with an older reference never changes the table, whatever writers whose clocks do not fall behind do in between |
| OAuthRefresh.CommitMakesStale | backend/crates/yoink-downloads/src/cookie_oauth.rs:703-733 | after a commit every refresh with the same reference is refused exactly when the commit changed the content or the stamp |
| OAuthRefresh.CommitStaysStale | backend/crates/yoink-downloads/src/cookie_oauth.rs:681-733 | a commit stamped later than its reference keeps every refresh that raced it out for good, over every run of all writers |
| OAuthRefresh.StaysOutdatedIffLater | backend/crates/yoink-downloads/src/cookie_oauth.rs:681-733 | where the quota admits the old content, every run keeps the raced references out exactly when the commit was stamped later than its reference |
| OAuthRefresh.SameSecondReturns | backend/crates/yoink-downloads/src/cookie_oauth.rs:632-645 | within one second the old content can come back and a stale refresh overwrites the row after all |
| OAuthRefresh.ReturnedReferenceIsCurrent | backend/crates/yoink-downloads/src/cookie_oauth.rs:648-733 | the returned reference is what the next reader finds exactly when no row of the domain has a smaller number |
| OAuthRefresh.RevivedDuplicateWins | backend/crates/yoink-downloads/src/cookie_oauth.rs:632-733 | with an invalid row in front, the returned reference is refused by the next refresh |
| CookieEffects.CommitIsChecked | backend/crates/yoink-downloads/src/cookie_oauth.rs:703-733 | a refresh is committed exactly when the caller may, the row is still the caller's valid row with the same text, domain and stamp, and the three sums admit the new text; it then changes exactly the rows of the domain and returns the new reference |
| CookieEffects.CredentialIsFirst | backend/crates/yoink-downloads/src/cookie_oauth.rs:648-680 | the credential read is that of the lowest-numbered valid row of the domain |
| PollRegistry.OwnershipHolds | backend/crates/yoink-downloads/src/cookie_oauth.rs:280-291 | in every run the owned keys stay within the maximum and each is owned by exactly one live task |
| PollRegistry.AdmissionIsExact | backend/crates/yoink-downloads/src/cookie_oauth.rs:397-412 | in every run a poll is admitted exactly when drain has not begun, fewer tasks than the maximum are live and none of them polls the key |
| PollRegistry.DrainAdmitsNothing | backend/crates/yoink-downloads/src/cookie_oauth.rs:392-412 | after drain began no poll is accepted |
| PollRegistry.DrainReleasesEverything | backend/crates/yoink-downloads/src/cookie_oauth.rs:392-430 | when drain returns no key is owned, and none ever is again |
| PollRegistry.OAuthWork.Spawn | backend/crates/yoink-downloads/src/cookie_oauth.rs:397-430 | refuses while draining or full, refuses an owned key, else owns it |
| PollRegistry.OAuthWork.DropGuard | backend/crates/yoink-downloads/src/cookie_oauth.rs:286-291 | gives up exactly the key it guards |
| CookieTable.CanonicalIsStable | backend/crates/yoink-downloads/src/personal_cookies.rs:14-34 | a parsed domain is its own canonical form, so an inserted row is found again |
| CookieEffects.CanonicalDropsDots | backend/crates/yoink-downloads/src/personal_cookies.rs:14-19 | the canonical form is the text between its outer dots in small letters, character by character |
| CookieEffects.DomainParses | backend/crates/yoink-downloads/src/personal_cookies.rs:14-34 | a domain parses exactly when it is short ASCII whose canonical form is a host name of legal labels |
| CookieEffects.UsageColumns | backend/crates/yoink-downloads/src/personal_cookies_usage.sql:3-9 | the five columns are the counts and byte sums over the rows outside the pool |
| CookieTable.NothingReplaced | backend/crates/yoink-downloads/src/personal_cookies_usage.sql:3-9 | the replaced count is zero exactly when no row matches the domain |
| CookieTable.PutPrediction | backend/crates/yoink-downloads/src/cookie_web.rs:276-320 | the usage predicted before an update-or-insert is the usage found after it, and other actors' usage does not move |
| CookieTable.PutContents | backend/crates/yoink-downloads/src/cookie_web.rs:306-320 | every row of the domain carries the new content, one exists, identity columns survive, all other rows are untouched |
| CookieEffects.PutWrites | backend/crates/yoink-downloads/src/cookie_web.rs:306-322 | row by row: matching rows get text, validity and stamp and keep the rest, other rows stay, and one row with the next number is added exactly when none matched |
| CookieTable.SwapPrediction | backend/crates/yoink-downloads/src/personal_cookies.rs:176-222 | the usage predicted before a delete-and-insert is the usage found after it |
| CookieTable.SwapContents | backend/crates/yoink-downloads/src/personal_cookies.rs:209-222 | exactly one row of the domain remains, with the new content; all other rows are untouched |
| CookieTable.DeleteUsage | backend/crates/yoink-downloads/src/personal_cookies.rs:351-358 | a removal raises no measure of anybody |
| CookieQuota.QuotaHoldsOverRuns | backend/crates/yoink-downloads/src/cookie_web.rs:246-331 | over every run of all writers of personal rows, row counts stay within the larger of limit and start, and byte counts exceed that by no more than unchecked refreshes grew |
| CookieQuota.PerformBounded | backend/crates/yoink-downloads/src/cookie_oauth.rs:601-645 | the same for one operation of any writer and for every actor |
| CookieQuota.CheckedBounded | backend/crates/yoink-downloads/src/cookie_web.rs:264-303 | every quota-checked write, and every deletion, keeps every measure of everybody within the larger of limit and start |
| CookieQuota.RefreshBounded | backend/crates/yoink-downloads/src/profile/oauth_refresh.rs:107-156 | a refresh before admission does so exactly when its text does not grow or still fits both limits |
| CookieQuota.UncheckedRefreshGrows | backend/crates/yoink-downloads/src/profile/oauth_refresh.rs:148-156 | a credential that fills its owner's limit can come back longer |
| CookieQuota.QuotaHoldsIffRefreshesFit | backend/crates/yoink-downloads/src/profile/oauth_refresh.rs:107-156 | the quota rule holds at every step of a run exactly when each accepted refresh of it fits at its moment |
| CookieQuota.FittingRunIsBounded | backend/crates/yoink-downloads/src/cookie_web.rs:246-331 | and then it holds from the start of the run to its end |
| CookieQuota.EraseUsage | backend/crates/yoink-downloads/src/cookie_web.rs:389-408 | a deletion by number or domain, also an administrator's, raises no measure of anybody |
| CookieQuota.TokenSubmission | backend/crates/yoink-downloads/src/cookie_web.rs:246-331 | a token submission is all-or-nothing over its domains and spends the token exactly when it commits |
| CookieQuota.WriteAllSubmits | backend/crates/yoink-downloads/src/cookie_web.rs:269-322 | a finished batch leaves each domain with its own jar and every other row as it was |
| CookieEffects.JarsInTurn | backend/crates/yoink-downloads/src/cookie_web.rs:269-322 | the jars of a batch are checked in order against the sums written out, each on the table the jars before it left, and written row by row |
| CookieEffects.SubmissionIsChecked | backend/crates/yoink-downloads/src/cookie_web.rs:246-331 | exactly which submissions are refused and with which error, and what an accepted one leaves of rows, token and marks |
| CookieEffects.SignInWriteIsChecked | backend/crates/yoink-downloads/src/cookie_oauth.rs:601-645 | the sign-in's write goes through exactly when the three sums admit it, and is then that row change |
| CookieQuota.WatermarkOnlyRises | backend/crates/yoink-downloads/src/personal_cookies.rs:166-175 | an actor's message watermark never falls in any run |
| CookieQuota.ReplayIsInert | backend/crates/yoink-downloads/src/personal_cookies.rs:166-207 | once an upload was looked at, even if the quota refused it, no replay of it or of an older message changes anything |
| CookieEffects.UploadIsChecked | backend/crates/yoink-downloads/src/personal_cookies.rs:125-208 | an upload is done exactly when it is sound, authorized and newer than the mark and each of the three sums after it does not grow or is within its limit; which refusal otherwise, and that the mark is set even then |
| CookieEffects.UploadIsStored | backend/crates/yoink-downloads/src/personal_cookies.rs:209-223 | an upload that is done leaves one row for the domain, with its text, valid and stamped now, behind exactly the rows that are not the actor's for the domain, in their order |
| CookieEffects.RemovalIsDone | backend/crates/yoink-downloads/src/personal_cookies.rs:310-358 | a removal takes exactly the actor's rows of the domain, or all of them, and which removals are refused |
| CookieEffects.DeletionIsDone | backend/crates/yoink-downloads/src/cookie_web.rs:389-408 | a deletion takes exactly the named row or domain of the caller, any named row for an administrator, and nothing when the domain does not parse |
| CookieQuota.CollectDomains | backend/crates/yoink-downloads/src/cookie_web.rs:253-253 | the canonical domains of all inputs, or nothing if one is unsound |
| CookieQuota.WriteDomains | backend/crates/yoink-downloads/src/cookie_web.rs:269-322 | the loop that measures, checks, updates and inserts domain by domain |
| CookieQuota.CookieVault.Write | backend/crates/yoink-downloads/src/cookie_web.rs:246-331 | the whole transaction with its early returns |
| CookieQuota.CookieVault.StorePersonal | backend/crates/yoink-downloads/src/personal_cookies.rs:125-226 | the message upload; its watermark commits even when the quota refuses |
| CookieQuota.CookieVault.RefreshBeforeAdmission | backend/crates/yoink-downloads/src/profile/oauth_refresh.rs:107-156 | the transaction replaces exactly the row that is still as it was read, and raises its stamp |
| CookieQuota.RevalidateBounded | backend/crates/yoink-downloads/src/cookie_web_live.rs:291-352 | the compare-and-write after a live validation keeps every quota, also for a row of another user |
| CookieEffects.ValidationIsChecked | backend/crates/yoink-downloads/src/cookie_web_live.rs:291-352 | a live validation writes exactly when the row is as it was read, the caller may and a longer text fits its quotas; exactly what it writes |
| CookieEffects.RowRefreshIsChecked | backend/crates/yoink-downloads/src/profile/oauth_refresh.rs:107-156 | a refresh before admission writes exactly when the actor's valid row is as it was read and both texts and the stamp are in range; the stamp always rises |
| CookieText.Merge | backend/crates/yoink-downloads/src/cookie_web_live.rs:205-223 | the line rewriter computes the line-wise rewriting |
| CookieText.MergeKeepsTheRest | backend/crates/yoink-downloads/src/cookie_web_live.rs:205-223 | a rewritten record differs in its seventh field alone, so host, flags, path, expiry and name stay; every other line is kept to the letter |
| CookieText.LinesOfText | backend/crates/yoink-downloads/src/cookie_web_live.rs:207-207 | the lines of any text: what stands before each newline less one carriage return, and the rest after the last as it is |
| CookieText.MergeThenRead | backend/crates/yoink-downloads/src/cookie_web_live.rs:205-223 | for every line, reading after rewriting gives the updated entry exactly when the line is not an untouched record that ends in a return |
| CookieText.MergeAppliesUpdates | backend/crates/yoink-downloads/src/cookie_web_live.rs:205-223 | the values after a merge are the old values with updates applied to names already present exactly when a later record of the same name makes up for every lost return |
| CookieText.DoubledReturnIsLost | backend/crates/yoink-downloads/src/cookie_web_live.rs:207-221 | with two returns at the end of a record, an empty update changes its value |
| CookieText.LinesOfUnlines | backend/crates/yoink-downloads/src/cookie_web_account.rs:3-6 | reading the lines of printed lines gives them back, less one return each |
| CookieJar.RecordReads | backend/crates/yoink-downloads/src/cookie_web.rs:105-127 | a printed cookie reads back as one record with its own name and value |
| CookieSpelling.RecordIsSpelled | backend/crates/yoink-downloads/src/cookie_web.rs:114-127 | the seven fields of a printed cookie, written out |
| CookieSpelling.PrintableMeans | backend/crates/yoink-downloads/src/cookie_web.rs:106-121 | exactly which cookies print |
| CookieJar.PrintThenRead | backend/crates/yoink-downloads/src/cookie_web.rs:93-145 | a printed jar reads back as the last value of each name |
| CookieJar.PrintedJarMerges | backend/crates/yoink-downloads/src/cookie_web_live.rs:205-223 | on a printed jar an update changes exactly the named values |
| CookieJar.PrintCookies | backend/crates/yoink-downloads/src/cookie_web.rs:101-131 | a jar is printed exactly when its cookies are clean and its final size is within the limit |
| CookieJar.RecordIsValid | backend/crates/yoink-downloads/src/profile/mod.rs:993-1003 | a printed cookie passes the record checks and shows the host check its own host |
| CookieJar.PrintedJarIsValid | backend/crates/yoink-downloads/src/cookie_web.rs:67-92 | a printed jar is accepted exactly when its domain parses and every cookie's host is that domain or below it |
| CookieSpelling.JarIsAcceptedIff | backend/crates/yoink-downloads/src/cookie_web.rs:67-92 | a jar is accepted exactly when its domain parses, its text has a legal size, banner, characters and records, and each record's host is the domain or below it |
| CookieSpelling.TextIsAccepted | backend/crates/yoink-downloads/src/profile/mod.rs:954-1003 | the text part of that, with the conditions on the seven fields written out |
| CookieJar.Inputs | backend/crates/yoink-downloads/src/cookie_web.rs:94-144 | a submission is accepted exactly when every jar prints, all hosts belong to their domain and all together fit twice the limit; each domain gets its own jar |
| DeliveryPlan.PlanCategories | backend/crates/yoink-downloads/src/lib.rs:1560-1573 | the units are legal: in order, complete, one category each, 1 to 10 long |
| DeliveryPlan.PlanIsValid | backend/crates/yoink-downloads/src/lib.rs:1560-1573 | the greedy plan is legal |
| DeliveryPlan.PlanIsMinimal | backend/crates/yoink-downloads/src/lib.rs:1560-1573 | the greedy plan is legal and no legal plan has fewer units |
| DeliveryPlan.UnitsAreFull | backend/crates/yoink-downloads/src/lib.rs:1563-1571 | each unit but the last ends at ten artifacts or where the category changes |
| DeliveryPlan.StaysAhead | backend/crates/yoink-downloads/src/lib.rs:1563-1571 | from wherever it stands the greedy plan needs no more units than any legal plan has left |
| DeliveryPlan.UnitsAreConsecutive | backend/crates/yoink-downloads/src/lib.rs:1560-1573 | every unit of a legal plan is the block of artifacts right after the units before it |
| DeliveryLoop.TakeUnit | backend/crates/yoink-downloads/src/lib.rs:1148-1151 | hands out exactly the unit's artifacts and empties exactly their slots |
| DeliveryLoop.DeliverUnits | backend/crates/yoink-downloads/src/lib.rs:1038-1324 | a finished run: units in order, nothing begun after an unconfirmed one, confirmed IDs in artifact order, exactly the handed units' slots empty, and a stated reason to stop |
| DeliveryLoop.DeliverUnit | backend/crates/yoink-downloads/src/lib.rs:1042-1311 | one unit is handed out exactly when it was begun, and counts exactly when it was confirmed |
| DeliveryLoop.HandedOnce | backend/crates/yoink-downloads/src/lib.rs:1148-1151 | no artifact is handed out twice |
| DeliveryLoop.Confirmed | backend/crates/yoink-downloads/src/lib.rs:1306-1309 | one more confirmed unit keeps file ID i the receipt of artifact i |
| DeliveryLoop.PublicationIsAligned | backend/crates/yoink-downloads/src/lib.rs:1325-1372 | the cache is published only after every unit was confirmed and none of them, nor the end, saw a cancellation, shutdown or heartbeat loss; each item carries its own receipt's ID |
| DeliveryLoop.PublishedIff | backend/crates/yoink-downloads/src/lib.rs:1038-1372 | the cache is published exactly when it is wanted, something was sent, every unit went through undisturbed with one positive distinct message ID per artifact, nothing was cut off afterwards, and every artifact can be cached under its own receipt's file ID |
| MediaCache.ValidCachedMedia | backend/crates/yoink-downloads/src/cache.rs:10-38 | the overflow-checked verdict is the one over the mathematical sum |
| MediaCache.BuildItemsAll | backend/crates/yoink-downloads/src/cache.rs:75-90 | publication is all-or-nothing and keeps kind, ID, size and metadata of every item in place |
| MediaCache.ReplayAgreesWithUpload | backend/crates/yoink-downloads/src/lib.rs:1533-1558 | a published batch is accepted again exactly when the uploads were within the limits, and is cut into the same units |
| MediaCache.MediaTypeDecides | backend/crates/yoink-downloads/src/cache.rs:47-73 | which media types become which kind and travel in which category |
| FormData.DecodeForm | backend/crates/yoink-auth/src/lib.rs:297-323 | the decoding loop decodes once and never reads past the input |
| FormSpelling.DecodeReadsSpellings | backend/crates/yoink-auth/src/lib.rs:297-331 | a text decodes to given bytes exactly when it spells them one after another: literally, a space as plus, any byte as percent and two hexadecimal digits of either case |
| FormSpelling.Utf8IsText | backend/crates/yoink-auth/src/lib.rs:322-322 | the decoded bytes are accepted exactly when they are the UTF-8 form (RFC 3629 section 3) of Unicode scalar values |
| FormSpelling.ControlIsFound | backend/crates/yoink-auth/src/lib.rs:285-286 | the control check refuses exactly the texts with a character from U+0000 to U+001F or U+007F to U+009F |
| FormData.ParseFields | backend/crates/yoink-auth/src/lib.rs:269-295 | the parsing loop computes the pair-wise parse with its field limit and duplicate check |
| FormSpelling.FormParsesIff | backend/crates/yoink-auth/src/lib.rs:269-295 | a form parses to a map exactly when its pieces are at most 64 readable pairs with distinct keys and the map is theirs |
| FormData.ParsedIsLegal | backend/crates/yoink-auth/src/lib.rs:269-295 | whatever parses has legal keys and values, one field for each pair |
| FormData.DecodeEncode | backend/crates/yoink-auth/src/lib.rs:400-410 | decoding undoes encoding, and encoded text has no separator |
| FormData.FormRoundTrip | backend/crates/yoink-auth/src/lib.rs:269-323 | 1 to 64 legal fields, encoded and joined in any order, parse back to exactly their map |
| LaunchData.KeysAreSorted | backend/crates/yoink-auth/src/lib.rs:95-99 | the keys of the signed text stand in strictly rising byte order |
| LaunchData.LeqMeans | backend/crates/yoink-auth/src/lib.rs:95-99 | the key order is the byte order: a proper prefix, or smaller at the first difference |
| LaunchData.DataCheckIs | backend/crates/yoink-auth/src/lib.rs:95-105 | the signed text is the lines key=value of all fields but the hash, for their rising keys, joined by newlines |
| LaunchData.CanonicalIsInjective | backend/crates/yoink-auth/src/lib.rs:91-105 | two accepted forms have the same signed text exactly when they have the same fields apart from the signature |
| LaunchData.SignedTextIsAccepted | backend/crates/yoink-auth/src/lib.rs:80-162 | a text that parses to correctly signed fields, however it spells them, is accepted exactly inside the age window, and returns a profile exactly when the user field carries it, member by member |
| LaunchData.SignedLaunchIsAccepted | backend/crates/yoink-auth/src/lib.rs:80-162 | legal fields in any order with a correct signature, in either case, and a decimal date are accepted exactly inside the age window, and return a profile exactly when their user field carries it |
| LaunchData.LaunchIsAcceptedIff | backend/crates/yoink-auth/src/lib.rs:80-162 | exactly which texts are accepted and with which profile: size, form, hash of all other fields, date inside the window, and the user field |
| LaunchData.ReadUserMeans | backend/crates/yoink-auth/src/lib.rs:141-162 | the profile is accepted exactly when the user field is a shallow object whose own members carry it: a positive id, each name and address absent, null, or a short clean text |
| Json.DepthIsNesting | backend/crates/yoink-auth/src/lib.rs:367-381 | the depth passes a limit exactly when that many arrays and objects nest |
| LaunchData.AcceptedLaunchesAgree | backend/crates/yoink-auth/src/lib.rs:80-162 | of two accepted launches the signature decides every other field up to a collision of the hash, and those that differ in it alone name the same user |
| LaunchData.HexRoundTrip | backend/crates/yoink-auth/src/lib.rs:324-340 | a text is read as given bytes exactly when it is their hexadecimal spelling, in upper, lower or mixed case |
| Base64Url.DecodeEncode | backend/crates/yoink-auth/src/lib.rs:341-350 | decoding undoes encoding; the encoding has no dot and no padding and a known length |
| Base64Url.StrictIsInverse | backend/crates/yoink-auth/src/lib.rs:341-350 | the strict reader accepts exactly the encodings |
| Base64Url.GroupIsBits | backend/crates/yoink-auth/src/lib.rs:341-350 | three bytes are written as the four base-64 digits of their 24-bit number, one or two last bytes as two or three of them |
| Decimal.ValueOfText | backend/crates/yoink-auth/src/lib.rs:230-240 | a printed number reads back, without leading zero |
| Decimal.PlaceValue | backend/crates/yoink-auth/src/lib.rs:120-120 | each digit counts ten times the next one |
| Tokens.PayloadLength | backend/crates/yoink-auth/src/lib.rs:164-194 | the claims of every issuable profile and time, also before the epoch, print to at most 1024 bytes |
| Tokens.ClaimsRead | backend/crates/yoink-auth/src/lib.rs:225-254 | the issued claims are accepted exactly before their expiry and name the user |
| Tokens.TokenIsAcceptedIff | backend/crates/yoink-auth/src/lib.rs:196-255 | exactly which tokens are accepted and for which user: three strict pieces, the header members, the keyed hash of the first two pieces, and claims under their own names that are not over |
| Tokens.TokenIsIssuedIff | backend/crates/yoink-auth/src/lib.rs:164-194 | exactly for which profiles and times a token is issued, and what its three pieces carry |
| Tokens.ClaimsAreWritten | backend/crates/yoink-auth/src/lib.rs:258-267 | the payload is the JSON text of the claims, each under its own name |
| Tokens.UnescapeEscape | backend/crates/yoink-auth/src/lib.rs:185-185 | a written JSON string reads back (RFC 8259 section 7) as the text it was written from |
| Tokens.EnvelopeRoundTrip | backend/crates/yoink-auth/src/lib.rs:196-224 | a header and payload sent through base64url, dots and signature reach the claim checks unchanged |
| Tokens.TokenRoundTrip | backend/crates/yoink-auth/src/lib.rs:164-255 | for every issuable profile and time the token fits the size limit and verifies to its user exactly before issue time plus lifetime |
| Tokens.TokensAreCanonical | backend/crates/yoink-auth/src/lib.rs:196-224 | accepted tokens with the same header and payload are the same text |
| ExceptionChain.Traverse | backend/worker/failures.py:78-96 | the traversal ends, has no duplicates, at most 64 items, only reachable ones, and all of them when below 64 |
| ExceptionChain.ChainIsDepthFirst | backend/worker/failures.py:78-96 | the root comes first and each exception is followed by the last of its links not visited yet |
| ExceptionChain.CompleteIffItFits | backend/worker/failures.py:78-96 | it is complete exactly when at most 64 exceptions are reachable |
| Fallback.FallbackAllowed | backend/worker/media_engine.py:714-733 | the gate allows exactly when the failure is not forbidden, its class may be retried and everything it looked at passes |
| Fallback.ClassifiedFailure | backend/worker/media_engine.py:681-711 | the exact condition under which a failure is cleared, and its class |
| Fallback.ClearedMeansInspected | backend/worker/media_engine.py:681-733 | the chain part of that condition holds exactly when fewer than 64 exceptions are reachable and every reachable one passes every rejection |
| Fallback.RaisedFailureIsInspected | backend/worker/media_engine.py:709-733 | raised from its original, the cleared failure adds one exception and the second inspection is still complete |
| Fallback.GateAloneCanMiss | backend/worker/media_engine.py:714-733 | past 64 exceptions the gate can allow what a reachable exception forbids |
| ClipHls.Segments | backend/worker/clip_hls.py:11-37 | one pass over the lines gives the overlapping segments of the listed ones, or the failure of the first offending line |
| ClipHls.ListedMeans | backend/worker/clip_hls.py:17-34 | a playlist is read exactly when every line is acceptable; each address gets the duration of the nearest timing line before it with no address between; the first offending line decides the failure |
| ClipHls.DurationTextMeans | backend/worker/clip_hls.py:23-23 | the duration text runs from behind the tag to the first comma or the end of the line |
| ClipHls.SelectionCovers | backend/worker/clip_hls.py:11-37 | a clip is accepted exactly when the listed time reaches its end; the selection is one block, exactly the overlapping segments, covering the clip |
| ClipHls.LocalClipFits | backend/worker/clip_hls.py:83-87 | the offset lies inside the first selected segment and offset plus clip length fits the selection |
| ClipHls.FetchedCoversClip | backend/worker/clip_hls.py:64-87 | the same for every fetched track of a clip |
| ClipHls.Read | backend/worker/clip_hls.py:40-46 | a body is accepted exactly up to the maximum |
| ClipHls.FetchTrack | backend/worker/clip_hls.py:70-81 | succeeds exactly when no body is empty and all fit both budgets; otherwise it stops at the first body that does not, with its failure |
| ClipHls.BodiesInOrder | backend/worker/clip_hls.py:70-81 | the bodies stand in the file one after another, in their order |
| ClipHls.FetchClip | backend/worker/clip_hls.py:64-87 | a clip is fetched exactly when each track is and the running total fits |
| ClipHls.Download | backend/worker/clip_hls.py:49-100 | the whole download succeeds exactly when tracks are usable, every track of every clip can be fetched, outputs are small enough and all bytes fit the total |
| HeaderReader.ReadHeaders | backend/worker/proxy_tunnel.py:70-97 | the verdict and the lines depend on the stream alone, not on its pieces; header and remainder are exactly what was read |
| HeaderReader.AcceptableMeans | backend/worker/proxy_tunnel.py:76-94 | accepted exactly when the first blank line ends within the limit, is not at the start, and no CR or LF before it stands alone |
| HeaderReader.LinesRebuildHeader | backend/worker/proxy_tunnel.py:93-97 | the returned lines and a final CR LF are the header |
| Publication.RunKeepsInv | backend/crates/yoink-db/src/publication.rs:32-203 | in every interleaving a guard between its lock and its release holds its own file, and publishes or unlinks only while the lock name names it |
| Publication.RunNeverReplaces | backend/crates/yoink-db/src/publication.rs:187-196 | no run replaces or removes an existing target |
| Publication.OnlyOwnIsPublished | backend/crates/yoink-db/src/publication.rs:154-198 | a target that a guard makes appear is its own staged file, moved while the lock name names its held file, and changes no other name |
| Publication.OnePublisher | backend/crates/yoink-db/src/publication.rs:162-171 | two guards are never both allowed to publish |
| Publication.LockNameIsOwners | backend/crates/yoink-db/src/publication.rs:32-45 | a guard removes the lock name only if it names its own file, it holds that lock, and it has not published; the lock outlives the removal |
| Publication.PublicationStays | backend/crates/yoink-db/src/publication.rs:197-202 | after publication nothing that guards do changes the target or the lock name |
| Publication.DropCleans | backend/crates/yoink-db/src/publication.rs:32-45 | an unpublished guard dropped undisturbed removes its staged file, its lock name and its lock, and nothing else |
| Publication.ThroughIsRun | backend/crates/yoink-db/src/publication.rs:32-203 | an operation interleaved with others is one of the runs the safety lemmas speak of |
| Publication.Directory.Reserve | backend/crates/yoink-db/src/publication.rs:57-129 | reserve makes the guard's calls in order up to its end; success leaves the guard holding its lock |
| PublicationOutcomes.ReserveIsDoneIff | backend/crates/yoink-db/src/publication.rs:57-129 | for every interleaving: reserve succeeds exactly when its ten calls work, target, lock name and the three sidecars are each absent when looked for, the lock name is absent at its creation, and the new file is free to lock and has one name |
| PublicationOutcomes.UndisturbedReserve | backend/crates/yoink-db/src/publication.rs:82-129 | left alone it succeeds exactly when its calls work and none of the five names exists |
| Publication.Directory.PublishStaged | backend/crates/yoink-db/src/publication.rs:154-203 | publish makes the guard's calls in order; only a completed rename reports publication, also when durability is uncertain |
| PublicationOutcomes.PublishIsDoneIff | backend/crates/yoink-db/src/publication.rs:154-203 | for every interleaving: the staged file becomes the target exactly when the nine calls work, target and sidecars are absent, the lock name names the held file alone, and the staged file is there with one name |
| PublicationOutcomes.UndisturbedPublish | backend/crates/yoink-db/src/publication.rs:154-203 | left alone, exactly when that holds of the directory at the start |
| Publication.Directory.MoveStaged | backend/crates/yoink-db/src/publication.rs:181-202 | the end of publish: which failure is reported as what, and that only the rename publishes |
| Publication.Directory.DropReservation | backend/crates/yoink-db/src/publication.rs:32-45 | drop makes the guard's calls in order and ends without the lock |
| PublicationOutcomes.DropUnlinksIff | backend/crates/yoink-db/src/publication.rs:32-45 | for every interleaving: drop removes the lock name exactly when the guard has not published, its calls work, its lock is free for it and the name still names its file |

## Left out

- Provider calls, sockets, subprocesses, ffmpeg, Telegram: their results are inputs.
- DeviceFlow.EveryRunIsPromised: does not model the deletion of a user with all their sessions and cookies, or timestamps outside the calendar of the date library; foreign writes of the cookie table stand for every other writer.
- DeviceFlow.SuccessIsKept: says nothing of a success that returns after its poll's lease, because the poll's own time budget ends before that, nor of one whose actor lost authorization or whose credential cannot be encoded, which the program drops.
- CookieQuota.QuotaHoldsOverRuns: uploads to the shared pool and label refreshes are not part of the runs, because no personal measure counts pool rows; the size of the pool itself is not stated. The text checks of a submission enter as an outcome.
- LaunchData.SignedLaunchIsAccepted: how JSON text is read and what counts as a web address are parameters.
- Tokens.TokenRoundTrip: the JSON reader is a parameter that must read back the two texts the token carries; no claim about forgery.
- DeliveryLoop.DeliverUnits: metrics, diagnostics and the requeue of an invalid cache entry are one refused unit.
- ClipHls.Segments: rounding of floating-point sums, Unicode line splitting and joining of relative addresses are not modelled.
- HeaderReader.ReadHeaders: timeouts are not modelled.
- Publication.RunKeepsInv: the parent directory keeps its identity; its checks and the other metadata checks are answers of the environment.
- The relay's worker slots and socket tracking, quality and cut flows, access policy, settings, the frontend, the browser extension and the legacy bot: not modelled.
