# IPO allotment engine — a Dafny model

This project models the core of an IPO application-management server. The server keeps
companies (the IPOs), applicants, applications, allotments and refunds in a small relational
store. The HTTP handlers do three things:

- accept applications against the active IPO, which is the company with the highest id;
- run the allotment, either in full or pro rata with floor truncation;
- are meant to write a refund of `shortfall × price` for every application that was allotted less than it requested. As written, the refund run writes none; see Findings.

The dashboard and the allotment results are read back from the same store, and two export reports fold the results into totals.

The model is functional. A `Table<T>` is a sequence of `Row<T>(id, val)` together with the last
id handed out, which is the AUTOINCREMENT sequence. A `Store` holds five such tables. Every
operation is a pure function from a store to an `Effect(store, result)`: the store after the
call, and either the value returned or the `Error` thrown. The source writes row by row
outside any transaction, so rows inserted before a failure stay in the store.

Modules, in dependency order:

- `Base`: `Option`, `Result`, the error values and `Sum`.
- `Tables`: rows, AUTOINCREMENT tables, selection by a key function, and the UNIQUE constraint.
- `Schema`: the five entities, the money product `Cost`, and the validation of the application form.
- `Storage`: lookups, the INSERTs with their UNIQUE and foreign-key checks and the allotment input guard, and the store integrity predicate `Valid`.
- `Allocation`: the pro-rata arithmetic, independent of the store.
- `AllotmentRun`: `calculateAllotments`.
- `RefundRun`: `calculateRefunds`, both as intended and as written.
- `Lifecycle`: an allotment run followed by a refund run, plus the two-application witness store of the finding below.
- `Views`: the dashboard, and the allotment results: each application's result row with every column the query selects (`ResultOf`, `RefundOf`), the status column included, listed newest first (`AllotmentResults`, `ResultsOfValidStore`).
- `Routes`: the submission, allotment, refund and company-creation handlers, and the export totals.

Money is an integer in the smallest currency unit, so that `sharesReq × price` and
`shortfall × price` are exact. The pro-rata share is the exact `floor(req × pool / demand)`.
The server instead multiplies by the floating-point ratio `pool / demand` and floors the result;
the exact quotient is the value that computation intends. The dashboard ratio is a Dafny `real`.

The database driver's bundled SQLite enforces the REFERENCES columns (server/storage.ts:98-112).
An INSERT whose reference names no row fails with `ForeignKeyViolation`, after the UNIQUE checks.
The DELETEs of an allotment rerun remove the refunds before the allotments they reference, so they never orphan a row.

Where the code behaves in ways a reader might not expect, the model follows the code:

- Company creation checks only that each field is truthy, so a negative share count or price is accepted (`Routes.CreateCompanyRoute`).
- The dashboard ratio is 0 whenever `totalShares` is not positive, not only when it is 0.
- The refund run as written writes no refund at all (see Findings). The rest of the model uses the corrected run, which writes a refund of shortfall × price for every short application.
- Rerunning the refunds fails on the UNIQUE `allotment_id` column without writing anything (`RefundRun.RefundRerun`). The model keeps this fail-fast behaviour rather than recomputing.

## Model

| member | source | states |
|---|---|---|
| Schema.Issues | shared/schema.ts:51-54 | each of the four fields is reported exactly when it breaks its rule: empty name, PAN not of shape 5 letters + 4 digits + 1 letter, demat number under 16 UTF-16 code units, fewer than 1 share |
| Schema.Validate | shared/schema.ts:50-55 | the form passes unchanged exactly when all four rules hold (the demat number measured in UTF-16 code units); otherwise it fails listing every failing field, and the list is never empty |
| Schema.Utf16Length | shared/schema.ts:51-53 | a string's length as the validator's minimum measures it lies between its character count and twice that, is 0 only for the empty string, and equals the character count when every character is in the Basic Multilingual Plane |
| Schema.AstralDematLength | shared/schema.ts:53 | eight characters outside the Basic Multilingual Plane measure 16 code units, enough for the demat-number minimum |
| Schema.MatchesAt | shared/schema.ts:52 | an anchored match of a class-per-character pattern holds iff the string has the pattern's length and each character is in its class |
| Schema.PanIffShape | shared/schema.ts:52 | the regex `^[A-Z]{5}[0-9]{4}[A-Z]{1}$` accepts exactly the 10-character strings of five capitals, four digits and a capital |
| Tables.Select | server/storage.ts:198-210 | the rows a WHERE on one column returns are exactly the table's rows with that value, in table order |
| Tables.First | server/storage.ts:226-229 | a `.get()` lookup finds nothing exactly when no row has the value, and otherwise a row that has it |
| Tables.Newest | server/storage.ts:148-162 | ORDER BY id DESC LIMIT 1 finds nothing only in an empty table, and otherwise a row whose id is the largest |
| Tables.SelectOfUnique | shared/schema.ts:18-19 | under a UNIQUE column a lookup by value matches at most one row |
| Tables.FirstOfUnique | shared/schema.ts:32-33 | under a UNIQUE column the lookup by a row's value returns that very row |
| Tables.InsertKeepsKeys | server/storage.ts:80-82 | an INSERT keeps ids positive, increasing and within the AUTOINCREMENT sequence, and gives the new row an id no row had |
| Tables.AppendKeepsUnique | shared/schema.ts:36-38 | appending rows whose values are new and distinct keeps a UNIQUE column unique |
| Tables.NewestIsLast | server/storage.ts:148-162 | in an AUTOINCREMENT table the highest id is the last row inserted |
| Storage.ActiveCompany | server/storage.ts:148-162 | there is no active company exactly when there are no companies; otherwise it is a stored company with the highest id |
| Storage.CreateApplicant | server/storage.ts:89-94 | the insert succeeds exactly when PAN and demat number are both new; a taken PAN or a taken demat number fails on its UNIQUE column and leaves the store unchanged |
| Storage.CreateApplication | server/storage.ts:212-219 | the insert succeeds exactly when the applicant and the company it references (REFERENCES, lines 98-99) exist, appending the application; otherwise it fails on the foreign key with the store unchanged |
| Storage.CreateAllotment | server/storage.ts:236-255 | a zero application id, a missing share count or a negative one is refused before the insert and zero shares are accepted; an application that already has an allotment fails on UNIQUE; otherwise a missing application fails on the foreign key (line 106); nothing is written on failure |
| Storage.CreateRefund | server/storage.ts:272-279 | the insert succeeds exactly when the allotment exists and has no refund yet; a refunded allotment fails on UNIQUE, a missing one on the foreign key (line 112), each with the store unchanged |
| Storage.CreatedCompanyIsActive | server/storage.ts:139-162 | the company just created by `Storage.CreateCompany` has a fresh id and becomes the active one |
| Storage.AllotmentLookup | shared/schema.ts:32 | with UNIQUE application_id the allotment lookup of an allotment's application finds that allotment |
| Storage.RefundLookup | shared/schema.ts:38 | with UNIQUE allotment_id the refund lookup of a refund's allotment finds that refund |
| Storage.AllotmentIdsDistinct | shared/schema.ts:30-34 | the allotments of two different applications are different rows |
| Storage.AddRefundValid | server/storage.ts:110-114 | a refund for an existing, unrefunded allotment keeps keys, UNIQUE columns and references intact |
| Storage.EmptyStoreValid | server/storage.ts:78-122 | the freshly created store satisfies every constraint |
| Allocation.FullAllotment | server/storage.ts:391-399 | when demand fits the pool, the plan (`Allocation.Plan`, one `Entitlement` per request) allots every request in full |
| Allocation.ProRataShare | server/storage.ts:401-411 | above the pool each share of `Allocation.Plan` is floor(req × pool / demand): it lies within one demand-unit of the exact product and between 0 and the request |
| Allocation.PlanWithinPool | server/storage.ts:386-411 | with a non-negative pool the shares never sum to more than the pool |
| Allocation.TruncationLoss | server/storage.ts:403-411 | in the pro-rata case truncation loses less than one share per application |
| Allocation.PlanMonotone | server/storage.ts:403-406 | a larger request never receives fewer shares |
| Allocation.PlanWithinRequests | server/storage.ts:391-411 | with a non-negative pool and requests of at least one share, every share lies between 0 and its request |
| Allocation.NegativePool | server/storage.ts:401-406 | a negative pool gives every request a negative share |
| Allocation.NegativeDemandShare | server/storage.ts:401-406 | a negative demand above a negative pool is a ratio above one: the share is the floor of the exact product and at least the request |
| Allocation.ProRataSumBounds | server/storage.ts:401-411 | demand × (sum of shares) lies within one demand per application below pool × (sum of requests) |
| Allocation.DemandOfPositive | shared/schema.ts:54 | requests of at least one share make a demand of at least one share per request |
| AllotmentRun.CalculateAllotments | server/storage.ts:367-369 | an unknown company fails with CompanyNotFound before anything is deleted or inserted |
| AllotmentRun.ClearFacts | server/storage.ts:371-388 | the deletions (`AllotmentRun.ClearResults`) remove exactly the company's allotments and the refunds on them, and keep the store valid |
| AllotmentRun.InsertAllotmentsOk | server/storage.ts:391-411 | in the insert loop (`AllotmentRun.InsertAllotments`), inserts that pass the guard and the UNIQUE check append exactly one allotment per application, in order |
| AllotmentRun.InsertAllotmentsValid | server/storage.ts:236-255 | every insert of a run references an existing application, so the store stays valid however the run ends |
| AllotmentRun.RunOutcome | server/storage.ts:367-413 | with a non-negative pool the run on a valid store succeeds, and its store is the cleared store plus the planned allotments |
| AllotmentRun.RunKeepsValid | server/storage.ts:367-413 | a valid store stays valid through a run, whatever the run ends with, and no company or application changes |
| AllotmentRun.RunAllotsEveryApplication | server/storage.ts:393-411 | after a run each application of the company has exactly one allotment, holding its planned share, and no refund |
| AllotmentRun.RunLeavesOthers | server/storage.ts:371-388 | a run changes no other company's allotments or refunds, and no company, applicant or application |
| AllotmentRun.RunCapacity | server/storage.ts:386-411 | after a run the company's allotments sum to at most its pool; to exactly the demand when the demand fits; otherwise to less than one share per application below the pool |
| AllotmentRun.CompanyDemandPositive | shared/schema.ts:54 | in a valid store a company's demand is at least one share per application filed against it |
| AllotmentRun.RunFullAllotment | server/storage.ts:391-399 | when demand fits the pool every application is allotted its whole request |
| AllotmentRun.RunProRata | server/storage.ts:401-411 | above the pool each application gets floor(sharesReq × totalShares / demand), between 0 and its request |
| AllotmentRun.RunIdempotent | server/storage.ts:371-411 | running the allotment twice leaves every application with the shares of a single run, whatever the pool |
| AllotmentRun.ClearLeavesNoDanglingRefund | server/storage.ts:371-388 | after the deletions no remaining refund references a deleted allotment, so the foreign key never refuses them |
| AllotmentRun.ClearTwice | server/storage.ts:371-388 | the deletions of a rerun find nothing left to delete after a first round |
| AllotmentRun.NegativeRunClears | server/storage.ts:371-411 | with a negative pool a run leaves exactly the cleared store: the deletions stand and no allotment is written |
| AllotmentRun.PlanCapacity | server/storage.ts:391-411 | with a non-negative pool the planned shares sum to at most the pool; to the demand when it fits; otherwise to less than one share per request below the pool |
| AllotmentRun.RunNegativePool | server/storage.ts:236-240 | a negative pool with at least one application fails at the first insert with InvalidAllotmentData, after the deletions |
| AllotmentRun.RunKeepsWithinRequests | server/storage.ts:391-411 | a run with a non-negative pool keeps every allotment in the store between 0 and its application's request |
| AllotmentRun.RunBounds | server/storage.ts:391-411 | after a run each application of the company is allotted between 0 and its request |
| RefundRun.Join | server/storage.ts:419-428 | the JOIN rows are exactly the company's applications that have an allotment, each paired with its allotted shares |
| RefundRun.RefundSharesColumn | server/storage.ts:432 | read from the column the JOIN returns the shortfall is a number; read as `sharesReq` it is NaN |
| RefundRun.Owed | server/storage.ts:430-443 | a refund is owed exactly for a JOIN row with a positive shortfall and an allotment, in the amount shortfall × price |
| RefundRun.RefundLoop | server/storage.ts:430-444 | the loop touches only the refunds table and never removes a refund already written |
| RefundRun.RefundLoopOk | server/storage.ts:430-444 | with no refund yet where one is owed, the loop succeeds and appends exactly the refunds owed, in order |
| RefundRun.RefundLoopRerun | server/storage.ts:436-441 | when every owed refund already exists the loop fails on UNIQUE without writing, and succeeds without writing when none is owed |
| RefundRun.RefundLoopValid | server/storage.ts:436-441 | each insert references an existing, unrefunded allotment, so the store stays valid however the loop ends |
| RefundRun.CalculateRefunds | server/storage.ts:415-417 | an unknown company fails with CompanyNotFound; the run never changes applications or allotments |
| RefundRun.RefundOutcome | server/storage.ts:415-445 | on an unrefunded company the run succeeds, appends exactly the owed refunds and keeps the store valid |
| RefundRun.RefundPerApplication | server/storage.ts:428-444 | after the run each allotted application with a positive shortfall has one refund of shortfall × price, one without a shortfall has none, and no refund outside the company changes |
| RefundRun.RefundRerun | server/storage.ts:436-441 | a second run fails on UNIQUE as soon as one refund is owed, writing nothing; with none owed it succeeds without writing |
| RefundRun.CalculateRefundsAsWritten | server/storage.ts:432 | as written, an unknown company still fails with CompanyNotFound |
| RefundRun.AsWrittenLoopWritesNothing | server/storage.ts:430-433 | with the request read as `sharesReq` the loop writes nothing, over any JOIN rows |
| RefundRun.AsWrittenRefundsNothing | server/storage.ts:415-445 | the run as written never writes a refund, whatever the store holds |
| RefundRun.AllottedUnrefunded | server/storage.ts:371-388 | a successful allotment run leaves the store valid, the company and its applications unchanged, and none of its allotments refunded |
| Lifecycle.RefundsAfterAllotment | server/storage.ts:367-445 | after an allotment run the refund run succeeds; an application allotted less than it requested is refunded (sharesReq − allotted) × price, and one allotted in full gets nothing |
| Lifecycle.RefundRunOk | server/storage.ts:415-445 | the refund run succeeds on a company whose allotments have no refunds yet |
| Lifecycle.OversubscribedFacts | server/storage.ts:401-406 | in the two-application store (100 shares at 10, two requests of 100) the plan gives 50 and 50 |
| Lifecycle.OversubscribedRefunds | server/storage.ts:432 | on that store each application is allotted 50, and the refund run as written then succeeds without writing a refund |
| Lifecycle.OversubscribedCorrected | server/storage.ts:428-444 | on that store the corrected run refunds 50 × 10 = 500 on each of the two allotments |
| Views.SqlSum | server/storage.ts:286-298 | SUM over no rows is NULL, and otherwise a number |
| Views.DashboardData | server/storage.ts:281-310 | there is no dashboard exactly when there is no company; otherwise it reports the highest-id company, its application count, the sums of its requests, its amounts and the joined refunds, each 0 when empty, and the ratio of its requested shares to its pool |
| Views.RatioMeaning | server/storage.ts:300 | the ratio is the demand in units of the pool when the pool is positive, and 0 otherwise |
| Views.OversubscribedIffRatioAboveOne | server/storage.ts:300 | with a positive pool the ratio exceeds 1 exactly when demand exceeds the pool |
| Views.JoinedAmountsOfCompany | server/storage.ts:288-293 | in a well-keyed store the three-way JOIN yields each refund on the company's allotments exactly once, in refund order, and no other |
| Views.DashboardRefunds | server/storage.ts:288-298 | the dashboard's refund total is the sum of the refunds written on the active company's allotments |
| Views.StatusOf | server/storage.ts:352-356 | Pending exactly when there is no allotment; Processed exactly when there is an allotment that has a refund; Allotted otherwise |
| Views.StatusAfterAllotment | server/storage.ts:352-356 | after an allotment run every application of the company is Allotted |
| Views.StatusAfterRefunds | server/storage.ts:352-356 | after both runs an application allotted less than it requested is Processed and one allotted in full is Allotted |
| Views.ResultOf | server/storage.ts:337-364 | an application has a result row exactly when its applicant and company exist; the row carries all thirteen selected columns: the application's id, applicant id, company id, request and amount, the applicant's name, PAN and demat number, the company's price, its allotment's application id (the application's own) and shares, and the amount of that allotment's refund (the last three absent when there is none); its status is Pending exactly when it has no allotted shares, and Processed exactly when it has a refund amount |
| Views.RefundOf | server/storage.ts:348-360 | an application has a refund amount exactly when it has an allotment and that allotment has a refund, and the amount is that refund's |
| Views.ReverseFilterMapDescending | server/storage.ts:362 | rows listed from an AUTOINCREMENT table come out in descending id order |
| Views.ResultsOfValidStore | server/storage.ts:337-364 | in a valid store the results (`Views.AllotmentResults`) list every application exactly once, newest first |
| Routes.SubmitApplication | server/routes.ts:29-64 | a submission succeeds exactly when the form validates, PAN and demat number are new and an IPO is active; the failures (ValidationFailed, PanExists, DematExists, NoActiveIpo) come in that order and write nothing; a success appends one applicant and one application of the active IPO with amount sharesReq × price |
| Routes.SubmitKeepsValid | server/routes.ts:29-64 | a submission keeps keys, UNIQUE columns and references of the store intact, whatever its outcome |
| Routes.RunAllotmentKeepsValid | server/routes.ts:83-98 | the allotment handler keeps the store valid, whatever its outcome |
| Routes.RunRefundsKeepsValid | server/routes.ts:109-121 | the refund handler keeps the store valid, whatever its outcome |
| Routes.CreateCompanyKeepsValid | server/routes.ts:134-148 | the company handler keeps the store valid, whatever its outcome |
| Routes.DuplicatePanRefused | server/routes.ts:34-37 | after a successful submission, any valid form with the same PAN is refused with PanExists and writes nothing |
| Routes.SubmitGrowsDashboard | server/routes.ts:51-64 | a successful submission raises the dashboard's count by one, its requested shares by sharesReq and its amount by sharesReq × price |
| Routes.RunAllotment | server/routes.ts:85-98 | with no active IPO, or none of its applications, the handler refuses and leaves the store unchanged |
| Routes.RunRefunds | server/routes.ts:109-121 | with no active IPO the handler refuses; it never changes applications or allotments |
| Routes.AllotmentRouteAllotsAll | server/routes.ts:85-98 | with applications filed against an active IPO with a non-negative pool, the handler succeeds and every application is Allotted |
| Routes.RoutesRefundShortfall | server/routes.ts:83-121 | the allotment handler followed by the refund handler refunds every short application its unallotted shares at the IPO's price, and refunds nothing to one allotted in full |
| Routes.CreateCompanyRoute | server/routes.ts:133-148 | a company is created exactly when every field is truthy (so zero shares or price is refused); a refusal writes nothing |
| Routes.CreatedCompanyRouteIsActive | server/routes.ts:133-148 | the company just created becomes the active IPO under a fresh id |
| Routes.ReduceIsSum | server/routes.ts:222-225 | the left fold from an initial value adds the sum of the values to it |
| Routes.AllotmentSummary | server/routes.ts:222-225 | the summary totals are the sums of allotted shares (missing as 0), requested shares, and refund amounts (missing as 0) |
| Routes.RefundsReport | server/routes.ts:237-243 | the report lists exactly the rows with a positive refund and totals the refund column of every row |
| Routes.PositiveRefundsConcat | server/routes.ts:239 | the listing of two runs of rows is the listing of the first followed by that of the second |
| Routes.RefundsReportInOrder | server/routes.ts:239 | the report's listing is the order-preserving filter: it distributes over concatenation and keeps a single row exactly when its refund is positive |
| Routes.ReportTotalIsListedTotal | server/routes.ts:237-243 | with no negative refund, the report's total equals the total of the rows it lists and the refund total of the allotment report |
| Routes.ExportTotals | server/routes.ts:222-225 | in a valid store the allotment report's totals are the sums over every application filed of its demand, of its allotted shares (0 before a run) and of the refund on its allotment (0 where there is none) |

## Left out

- Floating point. Money is integer and exact, and the pro-rata share is the exact integer quotient rather than a floor of a float product. With floats the floor of `req × (pool / demand)` can be one share off in either direction. It is one lower when the product falls just below an integer: req 22, pool 15 and demand 22 give 14, not 15. It is one higher when rounding lifts the product past an integer: req 2999548849, pool 2330554054 and demand 3723594234 give 1877382521, not 1877382520. In IEEE double arithmetic 22 × (15 / 22) is 14.999999999999998, and 2999548849 × (2330554054 / 3723594234) rounds to 1877382521.0.
- Non-integer share counts. The form validator accepts any number of at least 1, but the model's `sharesReq` is an integer.
- Allocation.Entitlement: when demand is exactly 0 but exceeds the pool (a negative pool), the source's ratio is −Infinity and its product −Infinity, NaN or +Infinity depending on the request's sign; the guard refuses only −Infinity, and -1 stands in for all three. A zero demand above the pool needs requests below 1 share, which the form's minimum and `Valid` exclude.
- Foreign keys: the model does not report which REFERENCES column failed, since the store's error names none; every foreign-key failure is one `ForeignKeyViolation`.
- Storage.CreateApplicant: when both the PAN and the demat number are taken, the model reports the PAN. Which UNIQUE index the store checks first is an assumption; the submission handler never reaches this case, since it looks up both first.
- The PAN pattern is matched over characters. A JavaScript regex without the `u` flag matches UTF-16 code units, but a character outside the Basic Multilingual Plane is neither a capital nor a digit in either reading, so the two agree.
- The order of JOIN and SELECT results without ORDER BY is taken to be rowid order.
- The LEFT JOINs of the results query are modelled through the UNIQUE lookups. They would yield one row per match only if the UNIQUE columns were violated, which `Valid` excludes.
- Routes.CreateCompanyRoute: the number fields are modelled as already-parsed integers, absent or present. Strings passed through `parseInt`/`parseFloat` are not modelled, for example "0", which passes the truthiness check and then parses to 0.
- Fields the form schema inherits from the insert schema (applicantId, companyId, amount). They are NOT NULL columns, so the validator requires them in the request body, and a body without them fails validation. The model assumes they are present and well-typed, and leaves them out of the form; the handler overwrites them anyway.
- The applicant listing (getApplicationsWithDetails), the simple getters (getApplications, getAllotments, getRefunds, getCompanies), resetAllData and the settings table. They are plain reads or whole-table deletes with no decision logic.
- Database setup, the HTTP plumbing (status codes, JSON bodies, logging), the React client, the PHP version and the debug scripts. These are I/O or presentation.
- Concurrency. Every operation is one sequential transition of the store.

## Findings

| source | as written | input that shows it | evidently intended | confidence | as-written member | corrected member |
|---|---|---|---|---|---|---|
| server/storage.ts:432 | the refund shortfall reads `appData.sharesReq`, but the JOIN's `app.*` row has the column `shares_req`; the difference is NaN, `NaN > 0` is false, and no refund is ever written | a company with 100 shares at price 10 and two applications of 100 shares: both are allotted 50, and the refund run writes nothing | read `shares_req`, so that each application allotted 50 of 100 is refunded 50 × 10 = 500 | not executed | RefundRun.CalculateRefundsAsWritten | RefundRun.CalculateRefunds |

The as-written half is `RefundRun.AsWrittenRefundsNothing` (no refund for any store) and
`Lifecycle.OversubscribedRefunds` (the concrete store above). The corrected half is
`RefundRun.RefundPerApplication`, `Lifecycle.RefundsAfterAllotment` and
`Lifecycle.OversubscribedCorrected` (500 on each allotment of the same store). The rest of the
model (`Views`, `Routes`) uses the corrected run.
