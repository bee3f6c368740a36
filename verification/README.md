# Coursework web services: the business rules as a Dafny model

The repository is a set of small ASP.NET services. Underneath the database plumbing, each of them
follows a sequential rule set. This project states those rules as pure Dafny functions over
immutable tables and proves what they promise.

- **Revenue recognition** (`RevenueRecognitionApi`):
  - the client registry: individuals with a unique PESEL, companies with a unique KRS, soft deletion of individuals;
  - contract creation, with validations in a fixed order, pricing and one active contract per client and product;
  - soft deletion of contracts;
  - payments, capped at the price, with signing on full payment;
  - one cycle of the background expiry sweep;
  - current and forecast revenue.
- **Authentication** (`AuthService`): refresh tokens are issued, re-issued on login, redeemed once and revoked.
- **Trips** (`TripsApplication`):
  - the paged trip listing, newest first;
  - deleting clients that have no trips;
  - registering a new client for a future trip.
- **Prescriptions** (`PrescriptionApplication`): creation validated in a fixed order, and a patient's prescriptions listed by due date.
- **Country trips** (`CountryTripsApplication`):
  - registration within a trip's participant limit;
  - unregistration;
  - the client-trips lookup over the rows of a join.
- **Students and groups** (`s30395_kol2`): folding joined rows into one entry per student, and creating a student once every requested group has been found.
- **Container loading** (`CW-2-s30395`):
  - liquid, gas and refrigerated containers, each with its own capacity rule;
  - the refrigerated temperature table;
  - serial numbers drawn from a shared counter;
  - a ship's add, remove, replace and move operations.

## Modelling conventions

- Every operation returns `Result<T, E>` (module `Outcome`): `Ok` carries the new state, `Err` the reason. An error leaves the state unchanged, which is what the services' transactions and their check-before-write order guarantee.
- Database identities are sequence positions: position k stands for the identity k + 1 that a `(1, 1)` identity column hands out.
  - A table that is never hard-deleted is a `seq`.
  - The trips client table loses rows, so it is a `seq<Option<Client>>`: a deleted client leaves an empty slot and ids are never reused.
  - Read-only lookup tables are sequences searched by id, or sets of ids.
- The revenue service keeps individuals and companies in two tables, each with its own identity column, so one id can name an individual and a company at once (the seed data gives both id 1).
  - The model has two sequences, `individuals` and `companies`. A contract's `clientId` does not say which table it came from.
  - So the active-contract and loyalty checks couple individual n with company n, as in the source (`ContractEngine.ContractsCoupleSameIds`).
- `decimal` money and `double` masses are `real`.
  - Rounding is not modelled: neither the two decimal places of the `decimal(18,2)` columns nor IEEE-754 `double` arithmetic (see "## Left out").
- `DateTime` is an `int` count of seconds, with 86400 seconds to a day.
- Things outside the code are parameters:
  - the clock reading `now`;
  - the answer of the exchange-rate service;
  - freshly generated token strings and password hashes;
  - the password-verification function.
- Collections of result rows, as a data reader sees them, are `seq<Row>`. The reader's getters fail with `ColumnOutOfRange` or `InvalidCast` as the .NET reader does.

## Where the code and its description differ

The model follows the code in each case:

- **Contract creation:** the client check finds a soft-deleted individual too (`DbService.cs:375-381` uses `FindAsync` without looking at `IsDeleted`). `ContractEngine.ClientExists` therefore ignores the flag.
- **Revenue:** a currency that is absent, blank or all white space counts as PLN (`string.IsNullOrWhiteSpace`), not only an absent one or "PLN".
- **Payment sum:** it includes refunded payments; `Payments.Sum` does not filter them.
- **Refrigerated containers:** the sample program's comment at `Program.cs:35` says an "Ice cream" container at 5 degrees is rejected. The table in `CoolingContainer.cs:47-48` accepts any temperature of at least -18, and `Containers.SampleLoads` proves that 5 is accepted.

## Model

| member | source | states |
|---|---|---|
| LedgerModel.PaidOnSameAmounts | RevenueRecognitionApi/RevenueRecognitionApi/Services/DbService.cs:524 | a contract's paid sum depends only on each payment's contract and amount, so setting refund flags never changes it |
| ContractEngine.BestDiscount | RevenueRecognitionApi/RevenueRecognitionApi/Services/DbService.cs:415-418 | no discount exactly when none of the product's discounts has `start <= now <= end`; otherwise the percentage of an active discount that no active discount exceeds |
| ContractEngine.PriceWithinListPrice | RevenueRecognitionApi/RevenueRecognitionApi/Services/DbService.cs:409-431 | with percentages in 0..100, the price after the discount cut and the 5% loyalty cut lies between 0 and the list price 10000 + 1000 per support year |
| ContractEngine.PriceExamples | RevenueRecognitionApi/RevenueRecognitionApi/Services/DbService.cs:408-431 | one support year with no reductions costs 11000; two years with a 20% discount cost 9600, and 9120 for a loyal client (the cuts apply one after the other) |
| ContractEngine.CreateContract | RevenueRecognitionApi/RevenueRecognitionApi/Services/DbService.cs:358-447 | the failing checks, in order: duration outside 3..30 days, support years outside 0..3, id in neither client table, no product with that id and version, an active contract for the pair. A request passing all five is accepted, and exactly one contract is appended: unsigned, active, with the request's fields and the reduced price. Nothing else changes |
| ContractEngine.CreatePreservesValid | RevenueRecognitionApi/RevenueRecognitionApi/Services/DbService.cs:396-447 | creation keeps the ledger invariant: at most one active contract per (client, product), every payment names a contract, no contract paid beyond its price |
| ContractEngine.DeleteContract | RevenueRecognitionApi/RevenueRecognitionApi/Services/DbService.cs:464-480 | a missing id is ContractNotFound; a signed contract is ContractSigned; otherwise only that contract's active flag is cleared |
| ContractEngine.DeletePreservesValid | RevenueRecognitionApi/RevenueRecognitionApi/Services/DbService.cs:478 | soft deletion keeps the ledger invariant |
| ContractEngine.ContractsCoupleSameIds | RevenueRecognitionApi/RevenueRecognitionApi/Services/DbService.cs:397-431 | with individual 0 and company 0 stored, one active signed contract under id 0 makes a new contract for id 0 on that product ActiveContractExists and makes id 0 loyal, whichever client each is meant for |
| ContractEngine.CreateExample | RevenueRecognitionApi/RevenueRecognitionApi.Tests/DbServiceContractsTests.cs:26-72 | a five-day contract with one support year for a new client is accepted at price 11000, active and unsigned |
| PaymentLedger.AddPayment | RevenueRecognitionApi/RevenueRecognitionApi/Services/DbService.cs:497-568 | the failing checks, in order: contract missing, date outside [start, end], contract inactive, sum plus amount above the price. A payment passing all four is accepted: one payment is appended, the sum stays within the price, and the contract becomes signed exactly when the new sum equals the price. A signed contract stays signed, and no other contract or table changes |
| PaymentLedger.AddPaymentPreservesValid | RevenueRecognitionApi/RevenueRecognitionApi/Services/DbService.cs:524-549 | an accepted payment keeps the ledger invariant; in particular no contract is paid beyond its price |
| PaymentLedger.PayInstallments | RevenueRecognitionApi/RevenueRecognitionApi/Services/DbService.cs:524-549 | after a sequence of accepted payments the contract's sum has grown by their total and is still within its unchanged price |
| PaymentLedger.InstallmentsSignExactlyAtPrice | RevenueRecognitionApi/RevenueRecognitionApi/Services/DbService.cs:541-549 | paying in non-negative installments that are all accepted signs the contract exactly when they bring the sum to the price, or it was signed already; paying less never signs it |
| PaymentLedger.InstallmentExamples | RevenueRecognitionApi/RevenueRecognitionApi/Services/DbService.cs:524-549 | on a 10000 contract, 4000 then 6000 signs it; 4000 then 7000 rejects the second payment as exceeding the price |
| ExpirySweep.ExpireContracts | RevenueRecognitionApi/RevenueRecognitionApi/Services/ContractDeactivationService.cs:18-29 | exactly the active, unsigned contracts with end date before `now` lose their active flag; every other contract is unchanged |
| ExpirySweep.RefundPayments | RevenueRecognitionApi/RevenueRecognitionApi/Services/ContractDeactivationService.cs:27-35 | exactly the payments of expiring contracts are flagged refunded; every other payment is unchanged |
| ExpirySweep.Sweep | RevenueRecognitionApi/RevenueRecognitionApi/Services/ContractDeactivationService.cs:16-40 | one cycle deactivates the expiring contracts and refunds their payments, touching no other row or table |
| ExpirySweep.SweepIsMonotone | RevenueRecognitionApi/RevenueRecognitionApi/Services/ContractDeactivationService.cs:27-35 | the sweep never activates, signs or unsigns a contract, never clears a refund and never changes an amount |
| ExpirySweep.SweepWithoutMatchesIsIdentity | RevenueRecognitionApi/RevenueRecognitionApi/Services/ContractDeactivationService.cs:37-40 | with no contract to expire the cycle leaves the store unchanged |
| ExpirySweep.SweepIdempotent | RevenueRecognitionApi/RevenueRecognitionApi/Services/ContractDeactivationService.cs:18-35 | a second cycle at the same `now` changes nothing |
| ExpirySweep.SweepPreservesValid | RevenueRecognitionApi/RevenueRecognitionApi/Services/ContractDeactivationService.cs:27-35 | the sweep keeps the ledger invariant |
| RevenueCalculator.ForecastIsCurrentPlusOpen | RevenueRecognitionApi/RevenueRecognitionApi/Services/DbService.cs:606-618 | the forecast sum equals the current sum plus the prices of active unsigned contracts, under any product filter |
| RevenueCalculator.PriceSumNonNegative | RevenueRecognitionApi/RevenueRecognitionApi/Services/DbService.cs:584 | with non-negative prices every revenue sum is non-negative |
| RevenueCalculator.SweepKeepsCurrentRevenue | RevenueRecognitionApi/RevenueRecognitionApi/Services/DbService.cs:575-584 | expiring contracts are unsigned, so a sweep never changes current revenue |
| RevenueCalculator.Revenue | RevenueRecognitionApi/RevenueRecognitionApi/Services/DbService.cs:572-638 | for an absent, blank or PLN currency: the raw sum in PLN at rate 1, whatever the rate service would say. Otherwise: the sum times the rate, in that currency. A missing rate is RateNotFound and a failed service ExchangeServiceFailure |
| RevenueCalculator.ForecastCoversCurrent | RevenueRecognitionApi/RevenueRecognitionApi/Services/DbService.cs:606-637 | in any currency the forecast exceeds current revenue by the converted value of the open contracts, with the same currency and rate |
| RevenueCalculator.RevenueExample | RevenueRecognitionApi/RevenueRecognitionApi/Services/DbService.cs:575-593 | a signed 5000 contract and an open 3000 one for the product give current revenue 5000 and forecast 8000 |
| ClientRegistry.AddIndividual | RevenueRecognitionApi/RevenueRecognitionApi/Services/DbService.cs:103-133 | rejected as PeselTaken exactly when any individual, deleted or not, has the PESEL; otherwise exactly one live individual with the given data is appended to the individual table, taking its next id, and companies and the rest of the ledger are unchanged |
| ClientRegistry.UpdateIndividual | RevenueRecognitionApi/RevenueRecognitionApi/Services/DbService.cs:135-151 | ClientNotFound exactly when the id is not a live individual; otherwise only that client's names and contact fields change, and the PESEL is kept |
| ClientRegistry.DeleteIndividual | RevenueRecognitionApi/RevenueRecognitionApi/Services/DbService.cs:154-167 | ClientNotFound exactly when the id is not a live individual; otherwise that client is flagged deleted with names and contact fields "REMOVED" and its PESEL kept; no other client changes |
| ClientRegistry.AddCompany | RevenueRecognitionApi/RevenueRecognitionApi/Services/DbService.cs:188-216 | rejected as KrsTaken exactly when a company has the KRS; otherwise exactly one company with the given data is appended to the company table, taking its next id, and individuals and the rest of the ledger are unchanged |
| ClientRegistry.UpdateCompany | RevenueRecognitionApi/RevenueRecognitionApi/Services/DbService.cs:218-233 | ClientNotFound exactly when the id is not a company (the delete flag is not consulted); otherwise only its name and contact fields change |
| ClientRegistry.IdsFrom | RevenueRecognitionApi/RevenueRecognitionApi/Services/DbService.cs:51-73 | from a starting id on, lists exactly the ids of the rows the filter selects (non-deleted for individuals, every row for companies); listing them in increasing id order is a choice of the model, since the queries have no ordering clause |
| ClientRegistry.ListClients | RevenueRecognitionApi/RevenueRecognitionApi/Services/DbService.cs:51-73 | an id is listed as an individual exactly when the individual table holds a non-deleted row with it, and as a company exactly when the company table holds it; the two lists are independent and may share ids |
| ClientRegistry.DeletedIndividualIsGone | RevenueRecognitionApi/RevenueRecognitionApi/Services/DbService.cs:137-166 | after a delete the individual is absent from the individual listing, the company listing is unchanged, and a further update or delete of it is ClientNotFound |
| ClientRegistry.SeededIdsOverlap | RevenueRecognitionApi/RevenueRecognitionApi/Data/AppDbContext.cs:30-54 | in the seeded store, deleting individual 0 removes it from the individual listing while company 0 is still listed under the same id |
| ClientRegistry.ClientOperationsPreserveValid | RevenueRecognitionApi/RevenueRecognitionApi/Services/DbService.cs:106-109 | every client operation keeps PESEL and KRS numbers unique and with them the whole ledger invariant |
| TokenStore.FirstRole | RevenueRecognitionApi/RevenueRecognitionApi/Services/AuthService.cs:40 | finds the first role with the name, or reports that none has it |
| TokenStore.FirstUser | RevenueRecognitionApi/RevenueRecognitionApi/Services/AuthService.cs:77-79 | finds the first user with the username; none exactly when the name is not taken |
| TokenStore.FirstLiveToken | RevenueRecognitionApi/RevenueRecognitionApi/Services/AuthService.cs:100-101 | finds the first non-revoked token of the user, or reports that there is none |
| TokenStore.FirstRedeemable | RevenueRecognitionApi/RevenueRecognitionApi/Services/AuthService.cs:134-141 | finds the first token with the string that is not revoked and expires after `now`, or reports that there is none |
| TokenStore.FirstRevocable | RevenueRecognitionApi/RevenueRecognitionApi/Services/AuthService.cs:180-181 | finds the first non-revoked token with the string, or reports that there is none |
| TokenStore.Register | RevenueRecognitionApi/RevenueRecognitionApi/Services/AuthService.cs:24-57 | a taken username is UserAlreadyExists, and a missing "User" role is RoleMissing. Otherwise registration succeeds: one user with that role is appended, with one live token expiring two hours after `now` |
| TokenStore.RegisterKeepsUsernamesUnique | RevenueRecognitionApi/RevenueRecognitionApi/Services/AuthService.cs:26-29 | registration keeps usernames unique |
| TokenStore.Login | RevenueRecognitionApi/RevenueRecognitionApi/Services/AuthService.cs:75-118 | an unknown username is Unauthorized. For a known name, the first user with it decides: the login succeeds exactly when that user's hash verifies the password, and is Unauthorized otherwise. Users and roles never change |
| TokenStore.LoginIssuesOneLiveToken | RevenueRecognitionApi/RevenueRecognitionApi/Services/AuthService.cs:100-118 | after a login the user holds a live token with the new string and expiry. The user's live-token count stays as it was if positive and becomes one otherwise. Tokens of other users are untouched. When the user had a live token, the first such row is re-issued in place with the new string and expiry and no row is added; otherwise exactly one live row for the user is appended |
| TokenStore.Refresh | RevenueRecognitionApi/RevenueRecognitionApi/Services/AuthService.cs:128-161 | Unauthorized exactly when no token matches, unrevoked and unexpired; otherwise that token is revoked and one live token for the same user is appended |
| TokenStore.RefreshKeepsLiveCount | RevenueRecognitionApi/RevenueRecognitionApi/Services/AuthService.cs:148-159 | a refresh leaves every user's number of live tokens unchanged |
| TokenStore.RefreshIsSingleUse | RevenueRecognitionApi/RevenueRecognitionApi/Services/AuthService.cs:137-148 | a token string held by one token only cannot be redeemed a second time |
| TokenStore.SignOut | RevenueRecognitionApi/RevenueRecognitionApi/Services/AuthService.cs:178-191 | Unauthorized exactly when no unrevoked token has the string; otherwise exactly that token is revoked |
| TokenStore.SignOutDropsOneLiveToken | RevenueRecognitionApi/RevenueRecognitionApi/Services/AuthService.cs:178-191 | a sign-out lowers the live-token count of the revoked token's holder by exactly one and leaves every other user's count unchanged |
| TokenStore.SignOutIsFinal | RevenueRecognitionApi/RevenueRecognitionApi/Services/AuthService.cs:128-191 | when one token holds the string, after a sign-out with it a second sign-out and a refresh with it are both Unauthorized |
| TokenStore.RevokeAll | RevenueRecognitionApi/RevenueRecognitionApi/Services/AuthService.cs:195-197 | every token of the user is revoked and every other token is unchanged |
| TokenStore.SignOutAll | RevenueRecognitionApi/RevenueRecognitionApi/Services/AuthService.cs:193-200 | never fails; revokes all of the user's tokens, changes nothing else about them and leaves other users' tokens alone |
| TokenStore.SignOutAllIdempotent | RevenueRecognitionApi/RevenueRecognitionApi/Services/AuthService.cs:195-199 | signing out everywhere twice equals once, and leaves the user without a live token |
| TripsService.NewestFirst | TripsApplication/TripsApplication/Services/DbService.cs:29 | a permutation of the trips with start dates non-increasing |
| TripsService.PageCount | TripsApplication/TripsApplication/Services/DbService.cs:33 | the ceiling of total over page size: the least count of pages that covers every trip |
| TripsService.Slice | TripsApplication/TripsApplication/Services/DbService.cs:35-38 | at most a page of consecutive items starting at `(page - 1) * pageSize`; empty past the end |
| TripsService.GetTrips | TripsApplication/TripsApplication/Services/DbService.cs:20-44 | a page below 1 becomes 1 and a size below 1 becomes 10, both echoed; the page count is the ceiling; the trips are that page of the newest-first order |
| TripsService.EveryTripOnItsPage | TripsApplication/TripsApplication/Services/DbService.cs:29-38 | the trip at position `(page - 1) * pageSize + m` of the date order is item `m` of that page, and the page is within the page count |
| TripsService.PageWithinCount | TripsApplication/TripsApplication/Services/DbService.cs:31-36 | a page that starts before the end is counted in the page count |
| TripsService.DeleteClient | TripsApplication/TripsApplication/Services/DbService.cs:67-86 | a missing client is ClientNotFound; a client with a trip is ClientHasTrips; otherwise exactly that client is removed and ids stay stable |
| TripsService.FindTrip | TripsApplication/TripsApplication/Services/DbService.cs:112 | finds a trip with the id; none exactly when no trip has it |
| TripsService.AssignClientToTrip | TripsApplication/TripsApplication/Services/DbService.cs:88-148 | the failing checks, in order: PESEL already stored, trip missing, trip starting at or before `now`. A new PESEL for an existing future trip is accepted: exactly one client and one link to the trip are added, with the payment date given |
| TripsService.OperationsKeepLinksValid | TripsApplication/TripsApplication/Services/DbService.cs:78-83 | deletion and assignment keep every trip link pointing at a present client |
| Prescriptions.MissingMedicaments | PrescriptionApplication/PrescriptionApplication/Services/DbService.cs:24-33 | exactly the requested medicament ids absent from the store |
| Prescriptions.ExistingPatient | PrescriptionApplication/PrescriptionApplication/Services/DbService.cs:60-67 | a patient is reused exactly when an id is given and found |
| Prescriptions.ItemsFor | PrescriptionApplication/PrescriptionApplication/Services/DbService.cs:89-95 | one item per requested entry, in order, with its medicament, dose and description as details |
| Prescriptions.CreatePrescription | PrescriptionApplication/PrescriptionApplication/Services/DbService.cs:20-133 | the failing checks, in order: missing medicaments (all of them reported), none requested, more than 10 counting repeats, due date before date, unknown doctor. A repeated medicament collides on the item key and rolls back. Success, exactly when all checks pass, reuses or appends the patient and appends one prescription and its items |
| Prescriptions.CreatePreservesValid | PrescriptionApplication/PrescriptionApplication/Services/DbService.cs:79-98 | creation keeps every prescription pointing at a stored patient and doctor, and every item at a stored prescription and medicament |
| Prescriptions.ItemsOf | PrescriptionApplication/PrescriptionApplication/Services/DbService.cs:192-199 | exactly the stored items of the prescription |
| Prescriptions.PatientViews | PrescriptionApplication/PrescriptionApplication/Services/DbService.cs:178-200 | exactly the views of the patient's prescriptions, each once, in increasing prescription id |
| Prescriptions.GetPatientDetails | PrescriptionApplication/PrescriptionApplication/Services/DbService.cs:168-206 | an unknown patient is PatientNotFound; otherwise each of the patient's prescriptions exactly once, ordered by due date ascending |
| Prescriptions.CreatedPrescriptionIsListed | PrescriptionApplication/PrescriptionApplication/Services/DbService.cs:168-200 | after a creation the patient's details list the new prescription with its due date and one item per requested entry |
| Prescriptions.ItemsOfAppended | PrescriptionApplication/PrescriptionApplication/Services/DbService.cs:89-97 | the items of a freshly numbered prescription are exactly the rows stored for its request |
| CountryTrips.MaxPeople | CountryTripsApplication/CountryTripsApplication/Services/DbService.cs:155-158 | the participant limit of a trip with the id |
| CountryTrips.Register | CountryTripsApplication/CountryTripsApplication/Services/DbService.cs:127-180 | the failing checks, in order: client missing, trip missing, registrations already at the limit. Below the limit the registration is accepted: exactly one registration is added and the count stays within the limit; a repeated registration is not refused |
| CountryTrips.Without | CountryTripsApplication/CountryTripsApplication/Services/DbService.cs:200-205 | an order-preserving filter: a subsequence that holds every copy of each registration not of the pair and no registration of the pair |
| CountryTrips.Unregister | CountryTripsApplication/CountryTripsApplication/Services/DbService.cs:183-206 | RegistrationNotFound exactly when the pair is not registered; otherwise the registrations become exactly that filter, so every copy of the pair's registration goes and every other keeps its copies and order |
| CountryTrips.Participants | CountryTripsApplication/CountryTripsApplication/Services/DbService.cs:160-165 | the number of registration rows whose trip is the given one: the size of the set of their positions |
| CountryTrips.ParticipantsWithout | CountryTripsApplication/CountryTripsApplication/Services/DbService.cs:200-205 | removing a pair's registrations never raises any trip's count |
| CountryTrips.OperationsKeepLimits | CountryTripsApplication/CountryTripsApplication/Services/DbService.cs:154-178 | registering and unregistering keep every trip within its participant limit |
| CountryTrips.CountryRows | CountryTripsApplication/CountryTripsApplication/Services/DbService.cs:61 | the left join yields at least one row per trip, all about that trip |
| CountryTrips.TripRows | CountryTripsApplication/CountryTripsApplication/Services/DbService.cs:60-61 | a registration yields rows exactly when its trip exists |
| CountryTrips.ClientRows | CountryTripsApplication/CountryTripsApplication/Services/DbService.cs:59-62 | the query yields rows exactly when a registration of the client names an existing trip, and every row is about such a trip |
| CountryTrips.ClientTripsAsWritten | CountryTripsApplication/CountryTripsApplication/Services/DbService.cs:69-92 | no rows is ClientNotFound and one row is NoTrips; otherwise every row but the first |
| CountryTrips.ClientTripsDropsOnlyTrip | CountryTripsApplication/CountryTripsApplication/Services/DbService.cs:69-92 | a client registered for one trip without countries is reported as having no trips |
| CountryTrips.ClientTrips | CountryTripsApplication/CountryTripsApplication/Services/DbService.cs:69-94 | corrected lookup: no rows is ClientNotFound, otherwise every row |
| CountryTrips.ClientTripsFoundIffRegistered | CountryTripsApplication/CountryTripsApplication/Services/DbService.cs:53-95 | with the corrected lookup a client's trips are found exactly when a registration names an existing trip, and each row belongs to a registration |
| CountryTrips.CreateClient | CountryTripsApplication/CountryTripsApplication/Services/DbService.cs:97-125 | the new client gets a fresh id and every existing client keeps its id and data |
| Students.ReadDetailRow | s30395_kol2/s30395_kol2/Services/DbService.cs:47-71 | a row with four or fewer columns cannot be read, because column 4 is read |
| Students.ReadDetailRows | s30395_kol2/s30395_kol2/Services/DbService.cs:45-47 | reads every row in order, and fails if any row fails |
| Students.ReadWellTyped | s30395_kol2/s30395_kol2/Services/DbService.cs:47-71 | a row with four typed student columns and a null or typed group is read, with its student id |
| Students.FirstRowOf | s30395_kol2/s30395_kol2/Services/DbService.cs:49-61 | the first row about the student, present exactly when some row is about it |
| Students.IndexOf | s30395_kol2/s30395_kol2/Services/DbService.cs:49 | the entry with the student id, or none exactly when no entry has it |
| Students.FoldRows | s30395_kol2/s30395_kol2/Services/DbService.cs:45-76 | one entry per student id that has a row, each id once. Names and email come from the student's first row; the groups are those of all its non-null rows, in row order |
| Students.StepDescribes | s30395_kol2/s30395_kol2/Services/DbService.cs:45-72 | reading one more row keeps the listing in agreement with all rows read so far |
| Students.StepExisting | s30395_kol2/s30395_kol2/Services/DbService.cs:63-72 | a row of a listed student only appends its group, if not null, to that student |
| Students.StepNew | s30395_kol2/s30395_kol2/Services/DbService.cs:49-61 | a row of a new student appends an entry built from that row |
| Students.GroupColumns | s30395_kol2/s30395_kol2/Services/DbService.cs:37-38 | the left join gives a group's four typed columns or four nulls |
| Students.AssignmentRows | s30395_kol2/s30395_kol2/Services/DbService.cs:35-38 | one well-typed row per assignment of the student, none exactly when it has no assignment |
| Students.StudentRows | s30395_kol2/s30395_kol2/Services/DbService.cs:35-38 | every student yields at least one well-typed row of its own |
| Students.QueryRows | s30395_kol2/s30395_kol2/Services/DbService.cs:34-39 | with all eight columns selected, every row is well-typed and every student has a row |
| Students.QueryRowsAsWritten | s30395_kol2/s30395_kol2/Services/DbService.cs:34-39 | the query as written returns the same number of rows, each with only the four student columns |
| Students.StudentDetailsOf | s30395_kol2/s30395_kol2/Services/DbService.cs:27-77 | the listing succeeds exactly when every row can be read, and then agrees with the rows |
| Students.ListingAsWrittenFails | s30395_kol2/s30395_kol2/Services/DbService.cs:63 | with the query as written, a store with any student makes the listing fail on column 4 |
| Students.ReadRowsFirstError | s30395_kol2/s30395_kol2/Services/DbService.cs:63 | reading a four-column first row fails with ColumnOutOfRange |
| Students.ListingCoversStudents | s30395_kol2/s30395_kol2/Services/DbService.cs:27-77 | with the group columns selected, the listing succeeds and lists every student |
| Students.GroupCheckRow | s30395_kol2/s30395_kol2/Services/DbService.cs:90-100 | a row for the group id exactly when a group has it, laid out as id, name, level, academic year |
| Students.CheckGroups | s30395_kol2/s30395_kol2/Services/DbService.cs:86-112 | when every check passes, one group per requested id in request order, each read from that group's row |
| Students.AssignmentsFor | s30395_kol2/s30395_kol2/Services/DbService.cs:135-147 | one assignment per checked group, in order, duplicates included |
| Students.CreateStudentAsWritten | s30395_kol2/s30395_kol2/Services/DbService.cs:105-110 | reading the academic year from column 2 fails whenever the first requested group exists |
| Students.CreateStudentAsWrittenRejectsGroups | s30395_kol2/s30395_kol2/Services/DbService.cs:105-110 | a request naming one existing group fails with InvalidCast |
| Students.CreateStudent | s30395_kol2/s30395_kol2/Services/DbService.cs:80-166 | fails exactly when a requested group is missing, reporting the first one in request order, and then nothing is inserted. On success one student is appended, with one assignment per requested id in request order, and the returned groups carry those ids with the stored group's name, academic year and level |
| Students.CheckGroupsCorrect | s30395_kol2/s30395_kol2/Services/DbService.cs:86-112 | with the year read from column 3, the checks pass exactly when every requested group exists, and otherwise fail at the first missing one |
| Containers.NatToString | CW-2-s30395/ContainerLoadingApp/ContainerLoadingApp/Container.cs:19 | the decimal digits of the counter: non-empty, digits only |
| Containers.NatToStringInjective | CW-2-s30395/ContainerLoadingApp/ContainerLoadingApp/Container.cs:19 | different counter values print differently |
| Containers.Serial | CW-2-s30395/ContainerLoadingApp/ContainerLoadingApp/Container.cs:19 | `KON-`, the type letter, `-`, then the counter's digits |
| Containers.SerialsDistinct | CW-2-s30395/ContainerLoadingApp/ContainerLoadingApp/Container.cs:17-19 | serials from different counter values differ, whatever the kinds |
| Containers.MinTemperature | CW-2-s30395/ContainerLoadingApp/ContainerLoadingApp/CoolingContainer.cs:35-64 | a minimum temperature exactly for the ten listed product types, and none for any other type |
| Containers.TemperatureValidityMonotone | CW-2-s30395/ContainerLoadingApp/ContainerLoadingApp/CoolingContainer.cs:37-58 | a temperature that suits a product type still suits it when warmer |
| Containers.Construct | CW-2-s30395/ContainerLoadingApp/ContainerLoadingApp/CoolingContainer.cs:10-18 | the counter always advances. Construction fails with InvalidTemperature exactly for a refrigerated container whose type and temperature are not valid. Otherwise the container is empty and carries the counter's serial |
| Containers.ConstructAll | CW-2-s30395/ContainerLoadingApp/ContainerLoadingApp/Container.cs:17-19 | constructing in order uses consecutive counter values |
| Containers.ConstructedSerialsDistinct | CW-2-s30395/ContainerLoadingApp/ContainerLoadingApp/Container.cs:17-19 | any two containers built from one counter have different serials |
| Containers.LoadWithinCapacity | CW-2-s30395/ContainerLoadingApp/ContainerLoadingApp/Container.cs:27-33 | Overfill exactly when mass plus weight exceeds the capacity; otherwise the mass grows by the weight |
| Containers.LoadLiquidAsWritten | CW-2-s30395/ContainerLoadingApp/ContainerLoadingApp/LiquidContainer.cs:15-24 | Overfill exactly when the product's own weight exceeds half (hazardous) or 90% of the capacity; otherwise the mass grows by the weight |
| Containers.LiquidLimitIgnoresCargo | CW-2-s30395/ContainerLoadingApp/ContainerLoadingApp/LiquidContainer.cs:17-23 | two 25 kg loads into a hazardous container of capacity 50 are both accepted, leaving 50 kg against a 25 kg limit |
| Containers.LoadLiquid | CW-2-s30395/ContainerLoadingApp/ContainerLoadingApp/LiquidContainer.cs:17-18 | corrected rule: Overfill exactly when the total would exceed the limit |
| Containers.LoadCooling | CW-2-s30395/ContainerLoadingApp/ContainerLoadingApp/CoolingContainer.cs:21-33 | capacity is checked first (Overfill), then the product type (WrongProductType); success exactly when both pass, and it adds the weight |
| Containers.LoadCargoAsWritten | CW-2-s30395/ContainerLoadingApp/ContainerLoadingApp/GasContainer.cs:23-29 | every accepted load adds exactly the product's weight and changes nothing else |
| Containers.LoadCargo | CW-2-s30395/ContainerLoadingApp/ContainerLoadingApp/Container.cs:27-33 | the corrected dispatch agrees with the as-written one except on liquid containers |
| Containers.UnloadCargo | CW-2-s30395/ContainerLoadingApp/ContainerLoadingApp/GasContainer.cs:18-21 | a gas container keeps exactly 5% of its mass and any other is emptied; a non-negative mass never grows |
| Containers.OperationsKeepWithinLimit | CW-2-s30395/ContainerLoadingApp/ContainerLoadingApp/Container.cs:29-32 | under the corrected rule, loading non-negative weights and unloading keep every container within its limit |
| Containers.SampleLoads | CW-2-s30395/ContainerLoadingApp/ContainerLoadingApp/Program.cs:5-39 | the sample program's rejected loads are rejected, and an ice-cream container at 5 degrees is valid |
| ContainerShips.AddContainers | CW-2-s30395/ContainerLoadingApp/ContainerLoadingApp/ContainerShip.cs:14-28 | containers are taken in order while each keeps the weight strictly below the maximum. The first that does not fit stops the add, and the earlier ones stay. The tracked weight grows by exactly what was taken and stays below the maximum |
| ContainerShips.RemoveFirst | CW-2-s30395/ContainerLoadingApp/ContainerLoadingApp/ContainerShip.cs:32 | removing an absent container changes nothing |
| ContainerShips.RemoveFirstMultiset | CW-2-s30395/ContainerLoadingApp/ContainerLoadingApp/ContainerShip.cs:32 | exactly one copy of the container goes, if there is one |
| ContainerShips.RemoveContainers | CW-2-s30395/ContainerLoadingApp/ContainerLoadingApp/ContainerShip.cs:30-33 | for each given container, the first container on board with its serial goes; the others keep their order and the tracked weight does not change. At most one container per argument goes, and none whose serial was not given. With unique serials on board, exactly the containers with a given serial go |
| ContainerShips.RemoveBySerial | CW-2-s30395/ContainerLoadingApp/ContainerLoadingApp/ContainerShip.cs:32 | removes exactly the position FindSerial reports, and nothing when no container has the serial |
| ContainerShips.RemoveLoadedContainer | CW-2-s30395/ContainerLoadingApp/ContainerLoadingApp/ContainerShip.cs:30-33 | a container loaded after it went on board is still removed when the caller passes its loaded copy, as the shared reference is in the source |
| ContainerShips.ReplaceContainersSwaps | CW-2-s30395/ContainerLoadingApp/ContainerLoadingApp/ContainerShip.cs:35-45 | when a container has the serial, the contents lose that container and gain the new one (as multisets), and the gross weight on board changes by the new container's gross minus the old one's |
| ContainerShips.FindSerial | CW-2-s30395/ContainerLoadingApp/ContainerLoadingApp/ContainerShip.cs:37-39 | the first position with the serial, or none exactly when no container has it |
| ContainerShips.ReplaceContainers | CW-2-s30395/ContainerLoadingApp/ContainerLoadingApp/ContainerShip.cs:35-45 | only the first container with the serial is replaced, length and weight stay, and nothing changes when none matches |
| ContainerShips.MoveContainer | CW-2-s30395/ContainerLoadingApp/ContainerLoadingApp/ContainerShip.cs:47-58 | with no match, nothing changes. If the other ship rejects the container, neither ship changes. Otherwise the first match leaves this ship, whose tracked weight stays as it was, and is appended to the other, whose weight grows by it |
| ContainerShips.RemoveFirstAt | CW-2-s30395/ContainerLoadingApp/ContainerLoadingApp/ContainerShip.cs:54 | removing the first occurrence found at position `i` removes exactly position `i` |
| ContainerShips.MoveConservesContainers | CW-2-s30395/ContainerLoadingApp/ContainerLoadingApp/ContainerShip.cs:47-58 | a move keeps every container on one of the two ships |
| ContainerShips.SampleOverfilledShip | CW-2-s30395/ContainerLoadingApp/ContainerLoadingApp/Program.cs:44-45 | on a ship of maximum weight 100 the first container (75) is taken, the second stops the add, and the first stays on board |

## Left out

- HTTP controllers, routing, startup wiring and the exception-to-status mapping middleware: they only translate results.
- EF Core and SQL plumbing is replaced by abstract tables:
  - connections, seed data and the text of SQL queries;
  - the table names in raw SQL (`Clients` and `Trips` against `Client` and `Trip`);
  - the unquoted `Group` keyword.
- Transactions and rollback: an error result leaves the state unchanged.
- Concurrency between requests, and the sweeper's 24-hour wait and cancellation: one sweep cycle is one pure function of the store and `now`.
- The exchange-rate HTTP client and its JSON parsing: its answer is a parameter.
- JWT access tokens, random refresh-token strings and password hashing: these are parameters, and verification is a function parameter.
- DTO projections and get-by-id lookups:
  - including the returned contract DTO that reports the contract id as `ClientId`;
  - `GetPrescriptionByIdAsync`;
  - `GetTripsAsync` of the country-trips service;
  - the `ToString` and `NotifyAboutDanger` console output.
- Software products, discounts and company deletion: products and discounts are read-only tables. Company deletion is an unconditional refusal in the source.
- ContractEngine.CreatePreservesValid: the ledger invariant includes discount percentages in 0..100, which the service never checks. Without it a discount above 100% would give a negative price.
- PaymentLedger.AddPayment: amounts and prices are exact reals, while the source stores them in `decimal(18,2)` columns. A sub-cent amount or price is rounded when saved, so the cap test and the `sum == price` signing test can decide differently from the model on such values. The model's cap and signing promise holds for amounts and prices with at most two decimal places.
- ContractEngine.CreateContract: the reduced price is kept exact, while the source stores it rounded to two decimal places. A 12.35% discount on 10450 gives 9159.425, stored as 9159.43.
- Integer overflow of `int` ids and counters, IEEE-754 rounding of `double` masses, and null request lists:
  - a null medicament list would fail at `Select` before any check;
  - a null group list requests no groups.
- The `maxCapacity` argument of a ship only sizes the initial list and bounds nothing, so the model has no such field.
- ContainerShips.RemoveContainers: the source removes by object reference, and the model removes by serial number, which the shared counter makes distinct per constructed container. Two objects given the same serial by hand would be told apart by the source and not by the model.
- Aliasing of mutable containers: a container on board is a value. Loading or emptying it through the caller's reference does not change the ship's copy; in the source it does, although the ship's tracked weight does not follow it there either.
- TripsService.GetTrips: the source computes the offset `(page - 1) * pageSize` in 32-bit `int`, which wraps for large arguments (page = pageSize = 100000). The model computes it unbounded, so such a request yields an empty page rather than the page at the wrapped offset.
- ContainerShips.MoveContainer: moving a container to the same ship is not modelled, because the two ships are separate values.
- ContainerShips.RemoveFirst: its own contract only covers absent containers; the removal of one copy is stated by ContainerShips.RemoveFirstMultiset.
- ContainerShips.AddContainers: the overfill exception is returned as a flag with the partial result rather than thrown.
- CountryTrips.MaxPeople: when several trips share an id, the limit of the first is read, as `ExecuteScalar` does; the contract only says some trip with the id has it.

## Findings

| source | as written | input that shows it | evidently intended | confidence | as-written member | corrected member |
|---|---|---|---|---|---|---|
| CountryTripsApplication/CountryTripsApplication/Services/DbService.cs:69-92 | the existence check reads the first row and the loop starts at the second, so the first row never reaches the result | a client registered for one trip that has no country: the query yields one row and the lookup answers "does not have any trips" | every row is reported; only a client without rows is not found | high, not executed | CountryTrips.ClientTripsAsWritten, CountryTrips.ClientTripsDropsOnlyTrip | CountryTrips.ClientTrips, CountryTrips.ClientTripsFoundIffRegistered |
| CW-2-s30395/ContainerLoadingApp/ContainerLoadingApp/LiquidContainer.cs:18 | only the product's own weight is compared with the limit; the cargo already held is ignored | a hazardous container of capacity 50 takes 25 kg twice and holds 50 kg against a 25 kg limit | the current mass plus the product must stay within the limit, as in the other container kinds | high, not executed | Containers.LoadLiquidAsWritten, Containers.LiquidLimitIgnoresCargo | Containers.LoadLiquid, Containers.OperationsKeepWithinLimit |
| s30395_kol2/s30395_kol2/Services/DbService.cs:34-39 | the listing query selects four columns, but each row's group is read from columns 4 to 7 | any store with one student: reading column 4 of the first row is out of range, so the listing fails | select the group's id, name, academic year and level as columns 4 to 7 | high, not executed | Students.QueryRowsAsWritten, Students.ListingAsWrittenFails | Students.QueryRows, Students.ListingCoversStudents |
| s30395_kol2/s30395_kol2/Services/DbService.cs:105-110 | the academic year is read with `GetDateTime(2)`, the level column, which holds a string | a request naming one existing group fails with an invalid cast | read the academic year from column 3 | high, not executed | Students.CreateStudentAsWritten, Students.CreateStudentAsWrittenRejectsGroups | Students.CreateStudent, Students.CheckGroupsCorrect |
