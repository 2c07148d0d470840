# MediMate inventory engine in Dafny

This project models the inventory domain engine of MediMate, a per-user
medicine tracker. The engine has four parts:

- **The `Medicine` record** (`medicine.dfy`, module `Entity`): the record's six
  nullable fields, its two constructors, its setters, and the bean-validation
  constraints on its fields (name required and 2 to 100 UTF-16 code units long, quantity
  required and not negative, expiry date and user id required).
- **The record store** (`repository.dfy`, module `Repository`):
  - a functional table `map<Id, Medicine>` with an identity counter;
  - the JPA `save`, `findById` and `deleteById` the service relies on;
  - every derived and custom query of `MedicineRepository`, each a filter over
    the table in primary-key order, and the two counting queries.
- **The inventory service** (`service.dfy`, module `Service`): the ten
  operations of `MedicineService`, and laws relating them to each other and to
  the queries.
- **The scheduled jobs** (`scheduler.dfy`, module `Scheduler`):
  - the daily expired scan, which lists every expired record and groups the
    list by owner;
  - the expiring-soon reminder and its date window.

Two shared modules support them. `base.dfy` (module `Base`) holds nullable
references, sequence filters and the least element of a set. `text.dfy`
(module `Text`) holds Java's `trim()`, ASCII lower-casing, string lengths in
UTF-16 code units, substring search and SQL `LIKE` matching with `\` as the
escape character.

How the Java behaviour is represented:

- **Nulls.** Every Java reference that may be null is an `Option`. This covers
  each record field and each service argument.
- **Dates.** Dates are day numbers.
- **Today.** `LocalDate.now()` becomes an explicit `today` parameter.
- **Creation time.** `LocalDateTime.now()` in the constructors becomes an opaque
  `now` stamp.
- **Errors.** Every service method catches every exception and rethrows a
  `RuntimeException` whose message is "Failed to <action>: <original message>".
  A service operation therefore returns a `Result`: `Ok`, or `Err` with a kind
  and that exact message. The kinds are:
  - `InvalidArgument` for the `IllegalArgumentException` checks;
  - `NotFound` for the missing-record checks;
  - `StoreFailure` for a record the database refuses on `save`.
- **State changes.** Operations that change the table return the new table
  together with the result (`Step`).
- **The database's constraints.** `Repository.Persistable` stands for Hibernate
  validating a record before insert or update, plus the table's NOT NULL
  columns. A record that breaks a field constraint, or whose `addedDate` is
  null, is refused.

Where the code and its own tests or comments suggest otherwise, the model follows the code:

- **Name size.** `@Size` on the name counts the raw, untrimmed length of the
  Java string, in UTF-16 code units (`Medicine.java:36`). `"  a "` is
  therefore a valid name: its raw length is 4, although only one character
  survives `trim()`. A character outside the Basic Multilingual Plane counts
  twice.
- **Exception type.** The service wraps its `IllegalArgumentException`s into
  `RuntimeException`s (`MedicineService.java:51-53`). A caller sees the generic
  failure, whatever the unit test file expects. The model keeps the original
  kind in the `Result` and the wrapped text in the message (see Findings).
- **The worked scenario.** `addMedicine` refuses any expiry before today, so
  the worked scenario adds the scarce record on its own expiry date, the day
  before the queries (`Service.ScenarioSetup`).

## Model

| member | source | states |
|---|---|---|
| Entity.Medicine.WithId | src/main/java/com/medimate/entity/Medicine.java:105-107 | `setId` changes the id and leaves the other five fields as they were |
| Entity.Medicine.WithName | src/main/java/com/medimate/entity/Medicine.java:113-115 | `setName` changes the name and leaves the other five fields as they were |
| Entity.Medicine.WithQuantity | src/main/java/com/medimate/entity/Medicine.java:121-123 | `setQuantity` changes the quantity and leaves the other five fields as they were |
| Entity.Medicine.WithExpiryDate | src/main/java/com/medimate/entity/Medicine.java:129-131 | `setExpiryDate` changes the expiry and leaves the other five fields as they were |
| Entity.Medicine.WithAddedDate | src/main/java/com/medimate/entity/Medicine.java:137-139 | `setAddedDate` changes the added date and leaves the other five fields as they were |
| Entity.Medicine.WithUserId | src/main/java/com/medimate/entity/Medicine.java:145-147 | `setUserId` changes the owner and leaves the other five fields as they were |
| Entity.NewMedicine | src/main/java/com/medimate/entity/Medicine.java:78-81 | the no-argument constructor leaves every field null except `addedDate`, which is the creation time |
| Entity.NewMedicineWith | src/main/java/com/medimate/entity/Medicine.java:90-96 | the four-argument constructor stores exactly the given name, quantity, expiry and owner, no id, and the creation time as `addedDate` |
| Entity.BrokenAmong | src/main/java/com/medimate/entity/Medicine.java:35-72 | a constraint is listed exactly when it is among those checked and the record breaks it |
| Entity.Violations | src/main/java/com/medimate/entity/Medicine.java:35-72 | the violations are exactly the broken constraints, and there are none exactly when the record is valid: name present, non-blank and 2 to 100 UTF-16 code units long, quantity present and at least 0, expiry and owner present |
| Entity.ValidBreaksNothing | src/main/java/com/medimate/entity/Medicine.java:35-72 | a valid record breaks none of the six constraints |
| Entity.ValidNameBounds | src/main/java/com/medimate/entity/Medicine.java:35-36 | a valid name has between 2 and 100 UTF-16 code units, hence between 1 and 100 characters, and at least one character above U+0020, which `trim()` keeps |
| Text.Trim | src/main/java/com/medimate/service/MedicineService.java:240-244 | `trim()` yields a contiguous piece of the input with no space at either end; it is empty exactly when the input is blank |
| Text.TrimIdempotent | src/main/java/com/medimate/service/MedicineService.java:240-244 | trimming a trimmed name changes nothing |
| Text.Lower | src/main/java/com/medimate/repository/MedicineRepository.java:62 | `LOWER` lower-cases each ASCII capital, keeps every other character, and keeps the length |
| Text.LowerKeepsContains | src/main/java/com/medimate/repository/MedicineRepository.java:62 | a fragment that occurs literally in a name still occurs once both are lower-cased, so the case-insensitive query finds every literal match |
| Text.Utf16Length | src/main/java/com/medimate/entity/Medicine.java:36 | the length `@Size` checks lies between the number of characters and twice that number |
| Text.Utf16LengthUniform | src/main/java/com/medimate/entity/Medicine.java:36 | a string of Basic Multilingual Plane characters has as many code units as characters; one of supplementary characters has twice as many |
| Text.Utf16LengthAppend | src/main/java/com/medimate/entity/Medicine.java:36 | the code-unit length of a concatenation is the sum of the parts' lengths |
| Text.SurroundedLikeIsContains | src/main/java/com/medimate/repository/MedicineRepository.java:62 | for a fragment without `%`, `_` or `\`, `LIKE '%' + fragment + '%'` holds exactly when the fragment occurs somewhere in the name |
| Repository.EmptyStore | src/main/java/com/medimate/repository/MedicineRepository.java:20 | the empty table is well formed |
| Repository.RejectionOf | src/main/java/com/medimate/entity/Medicine.java:35-72 | the database refuses a record exactly when it breaks a constraint or lacks an added date, and the reason names a constraint it breaks |
| Repository.FindById | src/main/java/com/medimate/service/MedicineService.java:89 | `findById` finds a row exactly when the key is stored, and the row is the stored one |
| Repository.Insert | src/main/java/com/medimate/service/MedicineService.java:47 | `save` of a new record fails exactly when it is not persistable. Otherwise the record gets the next identity value as a fresh key, the table stays well formed, and every other row is kept |
| Repository.Overwrite | src/main/java/com/medimate/service/MedicineService.java:121 | `save` of a loaded record fails exactly when it is not persistable. Otherwise only that key's row changes, and the table stays well formed |
| Repository.Delete | src/main/java/com/medimate/service/MedicineService.java:146 | `deleteById` removes exactly that key, keeps every other row, and keeps the table well formed |
| Repository.Rows | src/main/java/com/medimate/repository/MedicineRepository.java:20 | the listing of the table holds exactly the stored rows, each once |
| Repository.Select | src/main/java/com/medimate/repository/MedicineRepository.java:28-72 | a query's answer is exactly the stored rows meeting its criterion, each once |
| Repository.CountKeysIsCountRows | src/main/java/com/medimate/repository/MedicineRepository.java:80-91 | the number of keys whose rows match equals the number of rows a query lists |
| Repository.CountWhere | src/main/java/com/medimate/repository/MedicineRepository.java:80-91 | `COUNT(m)` over a criterion equals the length of the matching query's answer |
| Repository.FindByUserId | src/main/java/com/medimate/repository/MedicineRepository.java:28 | exactly the user's rows, each once |
| Repository.FindByUserIdAndExpiryDateBefore | src/main/java/com/medimate/repository/MedicineRepository.java:36 | exactly the user's rows whose expiry is strictly before the date, each once |
| Repository.FindByUserIdAndExpiryDateBetween | src/main/java/com/medimate/repository/MedicineRepository.java:45 | exactly the user's rows whose expiry lies in the range with both ends included, each once |
| Repository.FindByUserIdAndQuantityLessThan | src/main/java/com/medimate/repository/MedicineRepository.java:53 | exactly the user's rows whose quantity is strictly below the threshold, each once |
| Repository.FindByUserIdAndNameContainingIgnoreCase | src/main/java/com/medimate/repository/MedicineRepository.java:62-63 | exactly the user's rows whose lower-cased name contains the lower-cased fragment anywhere, each once (the intended reading; see Findings) |
| Repository.FindAllExpiredMedicines | src/main/java/com/medimate/repository/MedicineRepository.java:71-72 | exactly the rows of every user whose expiry is strictly before the date, each once |
| Repository.CountExpiredMedicinesByUserId | src/main/java/com/medimate/repository/MedicineRepository.java:80-81 | the count equals the length of the user's strictly-before answer |
| Repository.CountExpiringSoonByUserId | src/main/java/com/medimate/repository/MedicineRepository.java:90-91 | the count equals the length of the user's inclusive-range answer |
| Repository.AllExpiredIsUnionOverUsers | src/main/java/com/medimate/repository/MedicineRepository.java:71-72 | in a well-formed table, the cross-user expired answer is the union, over the row owners, of the per-user strictly-before answers |
| Repository.AsWrittenAgreesWithoutSpecials | src/main/java/com/medimate/repository/MedicineRepository.java:62 | for a fragment with no `%`, `_` or `\`, the query's condition as written matches exactly the names that contain the fragment, ignoring case |
| Repository.FindByUserIdAndNameLikeAsWritten | src/main/java/com/medimate/repository/MedicineRepository.java:62-63 | the query as written: exactly the user's rows whose lower-cased name matches `'%' + LOWER(fragment) + '%'` under `LIKE`, each once |
| Repository.NameCriteriaAgree | src/main/java/com/medimate/repository/MedicineRepository.java:62 | for a fragment with no `%`, `_` or `\`, a row meets the condition as written exactly when it meets the containment condition |
| Repository.NameQueriesAgreeWithoutSpecials | src/main/java/com/medimate/repository/MedicineRepository.java:62-63 | for a fragment with no `%`, `_` or `\`, the query as written and the containment query return the same list |
| Repository.WildcardFragmentMatchesUnrelatedName | src/main/java/com/medimate/repository/MedicineRepository.java:62 | the fragment `%` matches the name "Aspirin" as written, although "Aspirin" does not contain `%` |
| Repository.EscapeFragmentMatchesUnrelatedName | src/main/java/com/medimate/repository/MedicineRepository.java:62 | the fragment `\` matches the name "Ethanol 70%" as written, although that name has no backslash |
| Repository.BackslashFragmentMissesBackslashName | src/main/java/com/medimate/repository/MedicineRepository.java:62 | the fragment `\` does not match the name `a\b` as written, although that name contains a backslash |
| Repository.SearchIgnoresCase | src/main/java/com/medimate/repository/MedicineRepository.java:62-63 | a row of the user named "Paracetamol" is in the containment query's answer for the fragment "RACET" |
| Service.Fail | src/main/java/com/medimate/service/MedicineService.java:51-53 | a rethrown failure keeps the kind, starts with "Failed to " and ends with the original message |
| Service.AddMedicine | src/main/java/com/medimate/service/MedicineService.java:34-55 | Succeeds exactly for a non-null, persistable record whose expiry is not before today, so an expiry of today is accepted. A null record and a past expiry give their exact invalid-argument errors, and a refused save is a store failure. Every failure leaves the table unchanged. On success the saved record is the payload under a fresh key, and the other rows are kept |
| Service.GetAllMedicinesByUserId | src/main/java/com/medimate/service/MedicineService.java:62-76 | fails exactly for a null user, with the exact message; otherwise returns exactly the user's rows |
| Service.GetMedicineById | src/main/java/com/medimate/service/MedicineService.java:83-95 | fails exactly for a null id; otherwise returns the stored row under the id, or empty when there is none |
| Service.Merged | src/main/java/com/medimate/service/MedicineService.java:116-119 | the three setters take name, quantity and expiry from the payload and keep id, owner and added date |
| Service.UpdateMedicine | src/main/java/com/medimate/service/MedicineService.java:103-129 | A null argument is an invalid-argument error. An unknown id is exactly the not-found case, with the message "Medicine with ID <id> not found", and leaves the table unchanged. On an existing row it succeeds exactly when the new name, quantity and expiry are valid. Only name, quantity and expiry change; id, owner, added date and every other row stay |
| Service.DeleteMedicine | src/main/java/com/medimate/service/MedicineService.java:135-153 | fails exactly for a null or unknown id, with the exact messages and the table unchanged; otherwise removes that row and keeps all others |
| Service.GetExpiredMedicines | src/main/java/com/medimate/service/MedicineService.java:160-175 | fails exactly for a null user; otherwise returns exactly the user's rows expiring strictly before today |
| Service.GetMedicinesExpiringSoon | src/main/java/com/medimate/service/MedicineService.java:182-199 | fails exactly for a null user; otherwise returns exactly the user's rows expiring from today to today + 30, both included |
| Service.GetLowStockMedicines | src/main/java/com/medimate/service/MedicineService.java:207-226 | fails exactly for a null user; otherwise returns exactly the user's rows whose quantity is below the threshold, or below 5 when none is given |
| Service.SearchMedicinesByName | src/main/java/com/medimate/service/MedicineService.java:234-252 | Fails exactly for a null user, a null name or a blank name, and the user check comes first. Otherwise it returns exactly the user's rows whose name contains the trimmed name, ignoring case (the intended reading; see Findings) |
| Service.SearchMedicinesByNameAsWritten | src/main/java/com/medimate/service/MedicineService.java:234-252 | the search as written: the same failures, and otherwise exactly the user's rows whose name matches the trimmed name under the unescaped `LIKE` pattern |
| Service.SearchAgreesWithoutSpecials | src/main/java/com/medimate/service/MedicineService.java:234-252 | when the trimmed name has no `%`, `_` or `\`, the search as written and the intended search give the same result, failure included |
| Service.GetAllExpiredMedicines | src/main/java/com/medimate/service/MedicineService.java:258-269 | exactly the rows of every user expiring strictly before today, each once |
| Service.ThrownAsWritten | src/main/java/com/medimate/service/MedicineService.java:51-53 | as written, whatever a service call caught leaves it as a `RuntimeException` with the wrapped message |
| Service.ThrownIntended | src/main/java/com/medimate/service/MedicineService.java:36-53 | as the callers expect, a failure leaves as an `IllegalArgumentException` exactly when it is a rejected argument, with its message kept |
| Service.RejectedAddEscapesAsRuntime | src/main/java/com/medimate/service/MedicineService.java:36-53 | a null record or a past expiry is rejected, yet as written the caller never sees an `IllegalArgumentException` |
| Service.RejectedAddEscapesAsIllegalArgument | src/main/java/com/medimate/service/MedicineService.java:36-53 | with the intended exception classes, a failed add leaves as an `IllegalArgumentException` exactly when the record was null or past its expiry |
| Service.NotFoundMessageSaysNotFound | src/main/java/com/medimate/service/MedicineService.java:110-113 | the wrapped not-found failure still contains "not found" |
| Service.AddThenGetById | src/main/java/com/medimate/service/MedicineService.java:34-95 | after a successful add, looking up the new id returns the saved record, and the record is listed among its owner's medicines |
| Service.AddThenDeleteRestores | src/main/java/com/medimate/service/MedicineService.java:34-153 | deleting a just-added record succeeds and gives back the original rows; only the identity counter has moved on |
| Service.DeleteThenGetByIdEmpty | src/main/java/com/medimate/service/MedicineService.java:142-146 | after a successful delete, looking up the id returns empty and deleting it again fails as not found |
| Service.UpdateAllowsPastExpiry | src/main/java/com/medimate/service/MedicineService.java:103-123 | a valid payload whose expiry has passed is refused by add but accepted by update, which stores that expiry |
| Service.UpdateIdempotent | src/main/java/com/medimate/service/MedicineService.java:103-129 | repeating a successful update with the same payload gives the same row and the same table |
| Service.LowStockDefaultIsFive | src/main/java/com/medimate/service/MedicineService.java:214-218 | no threshold gives the same answer as threshold 5 |
| Service.LowStockMonotone | src/main/java/com/medimate/service/MedicineService.java:218 | raising the threshold keeps every row that was low stock |
| Service.SearchIgnoresSurroundingSpaces | src/main/java/com/medimate/service/MedicineService.java:240-244 | searching with a name or with its trimmed form gives the same result |
| Service.ExpiredAndSoonPartition | src/main/java/com/medimate/service/MedicineService.java:160-199 | the expired and expiring-soon answers never share a row, together hold exactly the user's rows expiring by today + 30. A row of the user expiring today is soon and not expired, one that expired yesterday is expired and not soon, one expiring at today + 30 is soon, and one expiring at today + 31 is in neither |
| Service.AllExpiredIsEveryUsersExpired | src/main/java/com/medimate/service/MedicineService.java:258-269 | in a well-formed table, a row is in the cross-user expired list exactly when it is in its owner's expired list |
| Service.ScenarioSetupSucceeds | src/main/java/com/medimate/service/MedicineService.java:34-55 | adding, on day today − 1, Amoxicillin (10, expiring today + 40) and then Betadine (2, expiring today − 1, the day it is added) gives ids 1 and 2 and exactly those two rows |
| Service.ScenarioToday | src/main/java/com/medimate/service/MedicineService.java:160-226 | on the next day, Betadine alone is expired and alone is low stock, and nothing expires soon |
| Service.ScenarioUpdateSucceeds | src/main/java/com/medimate/service/MedicineService.java:103-129 | moving Betadine's expiry to today + 10 succeeds and returns the row under id 2 |
| Service.NothingExpiredYet | src/main/java/com/medimate/service/MedicineService.java:160-175 | with expiries today + 40 and today + 10, nothing is expired |
| Service.NoneExpired | src/main/java/com/medimate/service/MedicineService.java:160-175 | when no stored row expires before today, the user's expired list is empty |
| Service.OnlySecondExpiresSoon | src/main/java/com/medimate/service/MedicineService.java:182-199 | with expiries today + 40 and today + 10, only the second row expires soon |
| Service.ScenarioAfterUpdate | src/main/java/com/medimate/service/MedicineService.java:103-199 | after the update, nothing is expired and only Betadine expires soon |
| Scheduler.TotalSizeRemove | src/main/java/com/medimate/scheduler/MedicineScheduler.java:60-64 | the sum of the group sizes can take any group out first |
| Scheduler.GroupOf | src/main/java/com/medimate/scheduler/MedicineScheduler.java:60-61 | a group holds exactly the listed rows of its owner |
| Scheduler.GroupsOfAppend | src/main/java/com/medimate/scheduler/MedicineScheduler.java:60-61 | filing one more row into its owner's group gives the grouping of the longer list |
| Scheduler.GroupByUser | src/main/java/com/medimate/scheduler/MedicineScheduler.java:60-61 | Grouping fails exactly when some row has a null owner. Otherwise there is one group per owner present, holding exactly that owner's rows in list order, and the group sizes add up to the list's length |
| Scheduler.CheckExpiredMedicines | src/main/java/com/medimate/scheduler/MedicineScheduler.java:37-74 | The scan reports all-clear exactly when no row has expired. Otherwise it lists exactly the expired rows, each once, and groups them by owner with sizes that add up to the total. A null owner among them is exactly the caught failure, with the null-key message, and this never happens in a well-formed table |
| Scheduler.CheckMedicinesExpiringSoon | src/main/java/com/medimate/scheduler/MedicineScheduler.java:88-89 | the reminder's window starts today and ends 30 days later |
| Scheduler.ReminderWindowIsQueryWindow | src/main/java/com/medimate/scheduler/MedicineScheduler.java:88-89 | a row is in the user's expiring-soon answer exactly when its expiry lies in the reminder's window |

## Left out

- `MedicineController`, `GlobalExceptionHandler`, `ApiResponse`: HTTP routing and the mapping of messages to status codes are transport, not inventory logic.
- `WebConfig`, `MediMateApplication`: CORS and bootstrap configuration.
- `static/js/app.js`: the browser UI, with its own client-side thresholds and floating-point date arithmetic.
- Cron timing, the hourly health check and the ten-minute test job of `MedicineScheduler`: these only log time stamps, and Spring does the scheduling.
- Logging: every `System.out`/`System.err` line, and the per-row and per-user lines the expired scan prints, are reduced to the data they print (`Scheduler.ExpiredScan`).
- `LocalDate.now()` and `LocalDateTime.now()`: the clock becomes the `today` and `now` parameters.
- Reading failures: `findById`, `existsById` and the queries never fail in the model. A database outage is not modelled, so reads cannot produce `StoreFailure`.
- Service.AddMedicine: a payload that already carries an id is inserted under a fresh key. JPA's `merge` of a detached record with that id is not modelled.
- Concurrency: transactions and races between concurrent updates and deletes are outside a sequential model.
- Text.Lower, Text.LowerChar: lower-case ASCII letters only. Java's and the database's full Unicode case mapping is not modelled.
- Text.Trim: treats only the characters up to U+0020 as spaces, as `String.trim()` does. A `char` here is a Unicode scalar value, not a UTF-16 unit, so a Java string holding an unpaired surrogate cannot be written in the model.
- Entity.Violations: counts the name's length in UTF-16 code units from its characters, two for each character from U+10000 up. Names with unpaired surrogates are not modelled, as for Text.Trim.
- Service.SearchMedicinesByName: follows the intended containment match. The program's unescaped pattern is `Service.SearchMedicinesByNameAsWritten`, which returns different rows when the name holds `%`, `_` or `\`. It returns more rows for `%` or `_`. For `\` it may return fewer, because the pattern `%\%` matches only names ending in `%` (see Findings).
- Repository.NameMatchesAsWritten: takes `\` as the `LIKE` escape character, the default of MySQL, PostgreSQL and H2. A database with no default escape would treat `\` as an ordinary character. A pattern ending in a lone `\` is matched literally, where PostgreSQL raises an error; the query as written always ends its pattern with `%`, so this case does not arise.
- Integer widths: `Long` ids and `Integer` quantities are unbounded integers, so overflow of the identity counter or of `today + 30` is not modelled.
- Repository.RejectionOf: Hibernate's exact violation text is approximated by the message of the first broken constraint's annotation.
- Entity.NewMedicine: the creation stamp is an opaque parameter. That it is not earlier than the call is not stated.
- Service.GetAllExpiredMedicines: it is a pure function of the table and the day, so calling it twice on the same day gives the same list by construction. No separate lemma states this.
- Scheduler.CheckExpiredMedicines: the scan takes the table as an argument and returns only a report, so it cannot change the table. Its catch-all is modelled for the one failure the grouping can raise.
- Query result order: the database leaves it unspecified. The model returns rows in ascending primary-key order, and the contracts speak only of membership and distinctness.

## Findings

| source | as written | input that shows it | evidently intended | confidence | as-written member | corrected member |
|---|---|---|---|---|---|---|
| src/main/java/com/medimate/repository/MedicineRepository.java:62 | the search fragment is pasted into a `LIKE` pattern unescaped, so `%` and `_` in the user's text act as wildcards | searching for "%" finds "Aspirin", whose name has no `%` | a case-insensitive substring match of the literal text, as the method name `NameContainingIgnoreCase` says | not executed | Repository.WildcardFragmentMatchesUnrelatedName | Repository.FindByUserIdAndNameContainingIgnoreCase |
| src/main/java/com/medimate/repository/MedicineRepository.java:62 | the same unescaped pattern lets `\`, the default escape character, escape the closing `%` | searching for `\` finds "Ethanol 70%", whose name has no backslash | the same literal substring match | not executed | Repository.EscapeFragmentMatchesUnrelatedName | Repository.FindByUserIdAndNameContainingIgnoreCase |
| src/main/java/com/medimate/repository/MedicineRepository.java:62 | for the same reason, a search for `\` matches only names ending in `%` | searching for `\` misses `a\b`, whose name does contain a backslash | the same literal substring match | not executed | Repository.BackslashFragmentMissesBackslashName | Repository.FindByUserIdAndNameContainingIgnoreCase |
| src/main/java/com/medimate/service/MedicineService.java:51-53 | every catch block rethrows a `RuntimeException`, so the `IllegalArgumentException` for a null or past-dated record never reaches the caller | `addMedicine(null)` leaves as a `RuntimeException`, while MedicineServiceTest.java:88 expects an `IllegalArgumentException` and MedicineController.java:51 catches one to answer with a bad request | a rejected argument leaves as an `IllegalArgumentException` | not executed | Service.RejectedAddEscapesAsRuntime | Service.ThrownIntended |

`Repository.NameMatchesAsWritten` is the query's condition as written, as a `LIKE` match.
`Repository.AsWrittenAgreesWithoutSpecials` proves that it agrees with the literal substring match on every fragment without `%`, `_` or `\`, and `Service.SearchAgreesWithoutSpecials` lifts this to the whole search.
`Service.SearchMedicinesByName` uses the corrected query.
`Service.ThrownIntended` is the corrected exception mapping; the model's `Result` keeps the `InvalidArgument` kind that it relies on.
