# Timeføring: a verified model of the core

This project models the core of a time-registration application ("timeføring"):
a Kotlin Spring backend and a TypeScript web client. The model covers these parts:

- **Time entries.** Hours on a project on a date, stored in the `time_entries` table.
  `TimeEntryBusinessValidator` checks the hours: each entry must be positive, a whole
  or half hour, and at most 24 hours. The project must be one of the subject's active
  projects. A subject may have at most 24 hours on one day.
- **Projects.** The `projects` table, with a soft-delete flag `aktiv` and paging with
  `OFFSET … FETCH`. A project that time entries refer to cannot be deleted.
- **Users.** The `users` table through `UserRepository`. It covers:
  - soft delete;
  - optimistic versioning;
  - email lookup on the lower-cased address;
  - `normalizeMobileNumber`.

  `UserFacade` sits on top of it, with its duplicate-email check.
- **`GlobalExceptionHandler`.** It turns exceptions into `ErrorResponse`s.
- **The web client.**
  - The zod form schemas in `validation.ts`: the Norwegian mobile pattern, its
    normalising transform, and the display formatter.
  - The two axios interceptors of `apiClient.ts`.
- **`CalculatorService`.** Its arithmetic, with Kotlin `Int` and `Long` overflow
  written out.

## How the model is built

**Tables.** Each table is a `seq` of rows held by a repository class. A `nextId`
field stands for the generated key. Each repository's `Valid()` says that ids are
unique and below `nextId`.

**Facades.** The facades are classes over those repositories. Their invariants are
the tables' consistency:
- For time entries: every stored entry passes the validator's hour guards, belongs
  to an active project of its owner, and no subject has more than 24 hours on a day
  (`TimeEntryValidator.Consistent`).
- For users: every stored email is trimmed.

Every facade method that can throw returns a `Result` whose failure is the exception
the source throws. Every facade method that writes states the whole new table.

**Platform definitions.** Whitespace, trimming, lower-casing and JavaScript's
`slice` are defined once per platform in `Text`. Each definition says exactly which
characters the platform treats as whitespace:
- Java regex `\s`;
- Kotlin `isWhitespace`;
- JavaScript `\s`.

**End to end.** `ErrorFlow` follows an error from the exception, through the
handler's response, to the `ApiError` the client shows.

**Behaviours of the code.** The model follows the code in each of these:
- `normalizeMobileNumber` tests the "47" prefix before the length. Its doc comment
  (`UserRepository.kt:149-150`) names the format `+47xxxxxxxx`. Yet an eight-digit
  number that starts with 47, such as "47123456", gains only a "+" and becomes
  "+47123456" (`Users.FortySevenBeforeLength`).
- The client's mobile transform behaves the same way (`FormValidation.NormalizeNational47`).
- `createUser` looks up the email as given, not trimmed. A padded email can
  therefore be registered twice (`UserService.PaddedEmailRegistersTwice`), unless a
  database constraint on `epost` refuses it; no schema is part of this model.
- The handler maps only the two user messages to 404 and 409. Every other
  `IllegalArgumentException` is a 400 INVALID_REQUEST, including "Prosjekt ikke
  funnet" (`ErrorFlow.OtherNotFoundIsBadRequest`). The 404s that the controller
  tests expect come from the controllers' own `notFound()` on a GET that finds nothing.
- `TimeEntryControllerIT.kt:77-78` expects a 409 with code MAX_HOURS_PER_DAY for a
  day over 24 hours. `TimeEntryControllerIT.kt:88-89` and `:100-101` expect codes
  INVALID_TIMER_STEP and PROJECT_NOT_FOUND_OR_INACTIVE. The handler gives every
  validator refusal the status 400 and the code INVALID_REQUEST
  (`ErrorFlow.ValidatorRefusalsAreBadRequests`).

## Model

| member | source | states |
|---|---|---|
| Jvm.Wrap32 | src/main/kotlin/com/example/basespringbootapikotlin/service/CalculatorService.kt:18-40 | an `Int` result is congruent to the exact one modulo 2^32 and equals it when it fits |
| Jvm.Wrap64 | src/main/kotlin/com/example/basespringbootapikotlin/service/CalculatorService.kt:71-80 | a `Long` result is congruent to the exact one modulo 2^64 and equals it when it fits |
| Jvm.KotlinRem | src/main/kotlin/com/example/basespringbootapikotlin/service/CalculatorService.kt:61-63 | Kotlin's `%` is the remainder of truncating division: it differs from the dividend by a multiple of the divisor, takes the sign of the dividend and is smaller than the divisor in magnitude (so it is unique) |
| Calculator.Add | src/main/kotlin/com/example/basespringbootapikotlin/service/CalculatorService.kt:18-20 | `add` is the sum modulo 2^32, exact when it fits in an `Int` |
| Calculator.Subtract | src/main/kotlin/com/example/basespringbootapikotlin/service/CalculatorService.kt:28-30 | `subtract` is the difference modulo 2^32, exact when it fits |
| Calculator.Multiply | src/main/kotlin/com/example/basespringbootapikotlin/service/CalculatorService.kt:38-40 | `multiply` is the product modulo 2^32, exact when it fits |
| Calculator.Divide | src/main/kotlin/com/example/basespringbootapikotlin/service/CalculatorService.kt:49-54 | fails with the division-by-zero `IllegalArgumentException` iff the divisor is 0; otherwise the quotient times the divisor is the dividend |
| Calculator.IsEven | src/main/kotlin/com/example/basespringbootapikotlin/service/CalculatorService.kt:61-63 | true iff the number is divisible by 2, negative numbers included |
| Calculator.Max | src/main/kotlin/com/example/basespringbootapikotlin/service/CalculatorService.kt:88-90 | the result is one of the two and at least both |
| Calculator.FactorialLong | src/main/kotlin/com/example/basespringbootapikotlin/service/CalculatorService.kt:75-79 | the recursion wrapping at every step gives n! modulo 2^64 |
| Calculator.Factorial | src/main/kotlin/com/example/basespringbootapikotlin/service/CalculatorService.kt:71-80 | fails iff n < 0, with the negative-number message; otherwise n! wrapped to a `Long` |
| Calculator.Wrap64MulCongruent | src/main/kotlin/com/example/basespringbootapikotlin/service/CalculatorService.kt:78 | wrapping after each multiplication equals wrapping once at the end |
| Calculator.FactorialExactUpTo20 | src/main/kotlin/com/example/basespringbootapikotlin/service/CalculatorService.kt:71-80 | up to 20 the `Long` result is the exact factorial, and 20! fits below 2^63 |
| Calculator.FactBounded | src/main/kotlin/com/example/basespringbootapikotlin/service/CalculatorService.kt:75-79 | the factorial is monotone |
| Calculator.Factorial21Overflows | src/main/kotlin/com/example/basespringbootapikotlin/service/CalculatorService.kt:71-80 | `factorial(21)` silently wraps to a negative `Long` |
| Calculator.CalculatorExamples | src/test/kotlin/com/example/basespringbootapikotlin/service/CalculatorServiceTest.kt:18-141 | the service's own test vectors for add, subtract, multiply, divide, isEven and max hold |
| Calculator.FactorialExamples | src/test/kotlin/com/example/basespringbootapikotlin/service/CalculatorServiceTest.kt:110-118 | the service's own factorial vectors hold, and -1 is refused |
| Calculator.AddOverflowWraps | src/main/kotlin/com/example/basespringbootapikotlin/service/CalculatorService.kt:18-20 | `Int.MAX_VALUE + 1` gives `Int.MIN_VALUE` |
| Text.StripSpace | timeforing-app-gui/src/utils/validation.ts:97 | removing whitespace leaves none, changes a string without whitespace not at all, and never lengthens; `StripSpaceChars` states which characters remain |
| Text.StripSpaceChars | timeforing-app-gui/src/utils/validation.ts:97 | a character is in the result iff it is in the input and is not whitespace |
| Text.StripSpaceAppend | timeforing-app-gui/src/utils/validation.ts:97 | removing whitespace distributes over concatenation |
| Text.TrimStartSpec | timeforing-app-gui/src/utils/validation.ts:27 | the leading trim keeps a suffix that does not start with whitespace and drops only whitespace |
| Text.TrimEndSpec | timeforing-app-gui/src/utils/validation.ts:27 | the trailing trim keeps a prefix that does not end with whitespace and drops only whitespace |
| Text.TrimSpec | src/main/kotlin/com/example/basespringbootapikotlin/facade/UserFacade.kt:36-40 | `trim()` is a slice of the input with neither end whitespace, and everything cut off is whitespace |
| Text.Trim | src/main/kotlin/com/example/basespringbootapikotlin/facade/UserFacade.kt:36-40 | `trim()` never lengthens and leaves text without whitespace as it is; `TrimSpec` states the rest |
| Text.TrimIdempotent | src/main/kotlin/com/example/basespringbootapikotlin/facade/UserFacade.kt:36-40 | trimming twice is trimming once |
| Text.LowerChar | src/main/kotlin/com/example/basespringbootapikotlin/repository/UserRepository.kt:56-63 | an ASCII or Latin-1 capital moves down by 32 to its small letter; any other character is kept; the result is never a capital |
| Text.Lower | src/main/kotlin/com/example/basespringbootapikotlin/repository/UserRepository.kt:56-63 | `lowercase()` keeps the length, leaves no capital, turns each capital into its small letter and keeps every other character in place |
| Text.LowerIdempotent | src/main/kotlin/com/example/basespringbootapikotlin/repository/UserRepository.kt:56-63 | lower-casing twice is lower-casing once |
| Text.LowerCharSpace | src/main/kotlin/com/example/basespringbootapikotlin/facade/UserFacade.kt:39 | lower-casing neither makes nor removes whitespace |
| Text.NoJavaScriptSpaceNoJavaRegexSpace | src/main/kotlin/com/example/basespringbootapikotlin/repository/UserRepository.kt:152-161 | text free of JavaScript whitespace is free of Java-regex whitespace |
| Text.SliceIndex | timeforing-app-gui/src/utils/validation.ts:107-108 | a `slice` argument becomes an index within the string: unchanged when already within it, the length when beyond it, and length plus the argument (at least 0) when negative |
| Text.Slice | timeforing-app-gui/src/utils/validation.ts:108 | `slice(start, end)` is the subsequence when the bounds are in range, and never longer than the string |
| Text.SliceFrom | timeforing-app-gui/src/utils/validation.ts:107 | `slice(start)` is the suffix when `start` is in range |
| Text.SliceThreeParts | timeforing-app-gui/src/utils/validation.ts:108 | the three pieces cut at 3 and 5 join back to the string, however short it is |
| FormValidation.MobilePatternIsRegex | timeforing-app-gui/src/utils/validation.ts:35 | the pattern, alternative by alternative, accepts exactly what the regular expression `^(\+47\|0047\|47)?[4-9]\d{7}$` matches |
| FormValidation.IsValidNorwegianMobile | timeforing-app-gui/src/utils/validation.ts:96-99 | true iff the input, with whitespace removed, matches `^(\+47\|0047\|47)?[4-9]\d{7}$` as a regular expression |
| FormValidation.FormatMobileNumber | timeforing-app-gui/src/utils/validation.ts:102-128 | the result is the input as given or a "+47 …" display form; `FormatValid` and `FormatLeavesOthers` state which |
| FormValidation.NormalizeMobile | timeforing-app-gui/src/utils/validation.ts:37-44 | the transform's result starts with "+47" and has no whitespace |
| FormValidation.PrefixCountryCode | timeforing-app-gui/src/utils/validation.ts:40-43 | each branch of the transform yields "+47…" without whitespace |
| FormValidation.PatternShapes | timeforing-app-gui/src/utils/validation.ts:35 | a matching number has 11, 12, 10 or 8 characters by its prefix, and its last eight are a national number |
| FormValidation.PrefixValid | timeforing-app-gui/src/utils/validation.ts:40-43 | on a valid number the transform gives "+47" and the national number, except for an eight-digit "47…" number, which gains only "+" |
| FormValidation.NormalizeValid | timeforing-app-gui/src/utils/validation.ts:29-44 | the same, from the raw input with whitespace |
| FormValidation.NormalizeNational47 | timeforing-app-gui/src/utils/validation.ts:41 | a national number starting with 47 is accepted but normalised to "+" and eight digits |
| FormValidation.FormatValid | timeforing-app-gui/src/utils/validation.ts:102-124 | a valid number is displayed as "+47 ddd dd ddd" of its national number, whatever its prefix |
| FormValidation.FormatLeavesOthers | timeforing-app-gui/src/utils/validation.ts:126-127 | anything outside the four shapes is returned exactly as given |
| FormValidation.StripGrouped | timeforing-app-gui/src/utils/validation.ts:108 | removing the spaces of a displayed number gives "+47" and the number back |
| FormValidation.FormatGroupedIsFixed | timeforing-app-gui/src/utils/validation.ts:106-109 | formatting a displayed number changes nothing |
| FormValidation.FormatIdempotent | timeforing-app-gui/src/utils/validation.ts:102-128 | `formatMobileNumber` is idempotent |
| FormValidation.NavnField | timeforing-app-gui/src/utils/validation.ts:22-27 | valid iff 2 to 50 characters before trimming, with the trimmed value; the issues of empty, one-character and overlong input in order |
| FormValidation.MobilField | timeforing-app-gui/src/utils/validation.ts:29-44 | valid iff the number is a valid Norwegian mobile; the value is the transform's `NormalizeMobile` of the input, a "+47…" string without whitespace (`NormalizeValid` gives its digits); the empty input reports both issues |
| FormValidation.EpostField | timeforing-app-gui/src/utils/validation.ts:46-51 | valid iff non-empty and accepted by the email check; the value is lower-cased, then trimmed |
| FormValidation.ParseUserForm | timeforing-app-gui/src/utils/validation.ts:21-52 | the form is valid iff every field is, and otherwise reports all fields' issues in field order |
| FormValidation.ProfileNavnField | timeforing-app-gui/src/utils/validation.ts:56-61 | a missing name is valid; a given one is valid iff it has 2 to 50 characters and is stored trimmed |
| FormValidation.ProfileMobilField | timeforing-app-gui/src/utils/validation.ts:63-78 | a missing or empty number becomes undefined; another is valid iff it is a valid mobile and becomes its normal form |
| FormValidation.ProfileEpostField | timeforing-app-gui/src/utils/validation.ts:80-85 | a missing email is valid; a given one is valid iff the email check accepts it |
| FormValidation.MobilFieldSpacedCountryCode | timeforing-app-gui/src/utils/validation.ts:37-44 | "+47 " followed by a national number is accepted and stored without the space |
| FormValidation.MobilFieldExample | timeforing-app-gui/src/utils/__tests__/validation.test.ts:9-18 | "+47 41234567" is stored as "+4741234567" |
| FormValidation.EmptyFormExample | timeforing-app-gui/src/utils/validation.ts:21-52 | the empty form reports all six issues in field order |
| TimeEntries.NewEntry | src/main/kotlin/com/example/basespringbootapikotlin/feature/timeentry/TimeEntry.kt:6-16 | a new entry keeps the given fields, has no id yet, version 1, and both timestamps at the clock reading |
| TimeEntries.SortNewestFirst | src/main/kotlin/com/example/basespringbootapikotlin/feature/timeentry/TimeEntryRepository.kt:65 | the sort keeps the number of rows; `SortSortsNewestFirst` proves it a newest-first permutation |
| TimeEntries.Remove | src/main/kotlin/com/example/basespringbootapikotlin/feature/timeentry/TimeEntryRepository.kt:75-79 | the DELETE never adds rows, leaves no row that matches the id and owner, and keeps every row it does not match (a row is in the result iff it was in the table and does not match) |
| TimeEntries.FindByIdAndUserSub | src/main/kotlin/com/example/basespringbootapikotlin/feature/timeentry/TimeEntryRepository.kt:47-52 | a found entry is a stored row with that id and owner; none is found iff no row has both |
| TimeEntries.FindAllQuery | src/main/kotlin/com/example/basespringbootapikotlin/feature/timeentry/TimeEntryRepository.kt:54-64 | the built WHERE clause has one parameter per condition and selects exactly the subject's rows within the given bounds |
| TimeEntries.Select | src/main/kotlin/com/example/basespringbootapikotlin/feature/timeentry/TimeEntryRepository.kt:66 | the query returns exactly the selected rows, none more often than stored |
| TimeEntries.InsertKeepsOrder | src/main/kotlin/com/example/basespringbootapikotlin/feature/timeentry/TimeEntryRepository.kt:65 | inserting into a newest-first sequence keeps it newest first and adds exactly that row |
| TimeEntries.SortSortsNewestFirst | src/main/kotlin/com/example/basespringbootapikotlin/feature/timeentry/TimeEntryRepository.kt:65 | `ORDER BY dato DESC, time_entry_id DESC` yields a newest-first permutation |
| TimeEntries.EntriesOf | src/main/kotlin/com/example/basespringbootapikotlin/feature/timeentry/TimeEntryRepository.kt:54-67 | the result is newest first, a permutation of the selected rows, and holds exactly the subject's rows in range |
| TimeEntries.ExcludeId | src/main/kotlin/com/example/basespringbootapikotlin/feature/timeentry/TimeEntryBusinessValidator.kt:21 | the filter keeps exactly the rows with another id |
| TimeEntries.SortHours | src/main/kotlin/com/example/basespringbootapikotlin/feature/timeentry/TimeEntryBusinessValidator.kt:20-22 | the order the rows come in does not change the filtered sum of hours |
| TimeEntries.DaySelectHours | src/main/kotlin/com/example/basespringbootapikotlin/feature/timeentry/TimeEntryBusinessValidator.kt:20-22 | summing a one-day query with the id filter gives the reference day total |
| TimeEntries.QueriedDayHours | src/main/kotlin/com/example/basespringbootapikotlin/feature/timeentry/TimeEntryBusinessValidator.kt:20-22 | the validator's sum over `findAllByUserSub(sub, dato, dato)` is the reference day total |
| TimeEntries.ExcludeAppendHours | src/main/kotlin/com/example/basespringbootapikotlin/feature/timeentry/TimeEntryBusinessValidator.kt:21-22 | the filtered sum distributes over concatenation |
| TimeEntries.TotalHoursAppend | src/main/kotlin/com/example/basespringbootapikotlin/feature/timeentry/TimeEntryBusinessValidator.kt:22 | `sumOf` distributes over concatenation |
| TimeEntries.DayHoursAppend | src/main/kotlin/com/example/basespringbootapikotlin/feature/timeentry/TimeEntryBusinessValidator.kt:20-22 | appending a row adds its share to the day total |
| TimeEntries.DayHoursAbsentId | src/main/kotlin/com/example/basespringbootapikotlin/feature/timeentry/TimeEntryBusinessValidator.kt:21 | leaving out an id no row has changes no day total |
| TimeEntries.DayHoursSplit | src/main/kotlin/com/example/basespringbootapikotlin/feature/timeentry/TimeEntryBusinessValidator.kt:20-22 | the day total splits around any row |
| TimeEntries.ReplaceDayHours | src/main/kotlin/com/example/basespringbootapikotlin/feature/timeentry/TimeEntryBusinessValidator.kt:20-23 | after replacing a row under the same id, the day total is the total without that id plus the new hours |
| TimeEntries.DayHoursRemove | src/main/kotlin/com/example/basespringbootapikotlin/feature/timeentry/TimeEntryRepository.kt:75-79 | deleting rows never raises a day total |
| TimeEntries.UpdateRows | src/main/kotlin/com/example/basespringbootapikotlin/feature/timeentry/TimeEntryRepository.kt:69-73 | the UPDATE keeps the table's length; a row matching the id and owner gets the entry's `timer` and `kommentar`, `sistEndret == now` and the next version, and keeps its id, owner, project, date and creation time; every other row is unchanged |
| TimeEntries.RemoveContents | src/main/kotlin/com/example/basespringbootapikotlin/feature/timeentry/TimeEntryRepository.kt:75-79 | the DELETE keeps exactly the rows it does not match, none more often than before |
| TimeEntries.UpdateOneRow | src/main/kotlin/com/example/basespringbootapikotlin/feature/timeentry/TimeEntryRepository.kt:69-73 | with unique ids the UPDATE changes only the matched row, and only its hours, comment, change time and version |
| TimeEntries.UpdateKeepsKeys | src/main/kotlin/com/example/basespringbootapikotlin/feature/timeentry/TimeEntryRepository.kt:71 | the UPDATE keeps every row's id, owner, project and date |
| TimeEntries.UpdateKeepsUnique | src/main/kotlin/com/example/basespringbootapikotlin/feature/timeentry/TimeEntryRepository.kt:69-73 | the UPDATE keeps ids unique and below the bound |
| TimeEntries.RemoveOneRow | src/main/kotlin/com/example/basespringbootapikotlin/feature/timeentry/TimeEntryRepository.kt:75-79 | with unique ids the DELETE removes exactly the matched row and keeps the others in order |
| TimeEntries.AppendUnique | src/main/kotlin/com/example/basespringbootapikotlin/feature/timeentry/TimeEntryRepository.kt:26-45 | a row under the next generated id keeps ids unique |
| TimeEntries.RemoveNone | src/main/kotlin/com/example/basespringbootapikotlin/feature/timeentry/TimeEntryRepository.kt:75-79 | a DELETE of an id no row has changes nothing |
| TimeEntries.RemoveKeepsUnique | src/main/kotlin/com/example/basespringbootapikotlin/feature/timeentry/TimeEntryRepository.kt:75-79 | the DELETE keeps ids unique and below the bound |
| TimeEntries.TimeEntryRepository.Save | src/main/kotlin/com/example/basespringbootapikotlin/feature/timeentry/TimeEntryRepository.kt:26-45 | appends the entry under a fresh id no stored row has, and returns it with that id |
| TimeEntries.TimeEntryRepository.FindAllByUserSub | src/main/kotlin/com/example/basespringbootapikotlin/feature/timeentry/TimeEntryRepository.kt:54-67 | adds one condition and parameter per given bound, and returns exactly the subject's rows within the bounds, newest first |
| TimeEntries.TimeEntryRepository.Update | src/main/kotlin/com/example/basespringbootapikotlin/feature/timeentry/TimeEntryRepository.kt:69-73 | applies the UPDATE with the repository's own `LocalDateTime.now()` as the change time and returns true iff a row matched |
| TimeEntries.TimeEntryRepository.Delete | src/main/kotlin/com/example/basespringbootapikotlin/feature/timeentry/TimeEntryRepository.kt:75-79 | removes the matched row and returns true iff one matched |
| TimeEntryValidator.Require | src/main/kotlin/com/example/basespringbootapikotlin/feature/timeentry/TimeEntryBusinessValidator.kt:11-13 | `require` passes iff its condition holds, and otherwise throws `IllegalArgumentException` with its message |
| TimeEntryValidator.ValidateCreateOrUpdate | src/main/kotlin/com/example/basespringbootapikotlin/feature/timeentry/TimeEntryBusinessValidator.kt:9-24 | passes iff the hours are positive, whole or half and at most 24, the project is the subject's and active, and the day total is at most 24; every failure is an `IllegalArgumentException` |
| TimeEntryValidator.FirstFailureWins | src/main/kotlin/com/example/basespringbootapikotlin/feature/timeentry/TimeEntryBusinessValidator.kt:9-24 | the first failing guard decides the message |
| TimeEntryValidator.HourGuardsIgnoreTables | src/main/kotlin/com/example/basespringbootapikotlin/feature/timeentry/TimeEntryBusinessValidator.kt:11-13 | refused hours are refused the same way whatever the tables hold |
| TimeEntryValidator.StepExamples | src/main/kotlin/com/example/basespringbootapikotlin/feature/timeentry/TimeEntryBusinessValidator.kt:12 | 7.5 and 24 hours are whole or half; 1.3 is not |
| TimeEntryValidator.DayLimitExample | src/main/kotlin/com/example/basespringbootapikotlin/feature/timeentry/TimeEntryBusinessValidator.kt:20-23 | with 23 hours on the day, 1 more passes and 2 more are refused with the day message |
| TimeEntryValidator.RevalidationExcludesOldHours | src/main/kotlin/com/example/basespringbootapikotlin/feature/timeentry/TimeEntryBusinessValidator.kt:20-22 | re-validating a stored entry counts the day's other rows plus the new hours, never the old hours |
| TimeEntryValidator.DayHoursNonNegative | src/main/kotlin/com/example/basespringbootapikotlin/feature/timeentry/TimeEntryBusinessValidator.kt:20-22 | with non-negative hours a day total is non-negative |
| TimeEntryValidator.ExcludingLowers | src/main/kotlin/com/example/basespringbootapikotlin/feature/timeentry/TimeEntryBusinessValidator.kt:21 | leaving a row out never raises a day total |
| TimeEntryValidator.InsertKeepsConsistent | src/main/kotlin/com/example/basespringbootapikotlin/feature/timeentry/TimeEntryFacadeImpl.kt:17-31 | saving a validated new entry under a fresh id keeps the tables consistent |
| TimeEntryValidator.UpdateKeepsConsistent | src/main/kotlin/com/example/basespringbootapikotlin/feature/timeentry/TimeEntryFacadeImpl.kt:45-62 | updating a stored entry that passed re-validation keeps the tables consistent |
| TimeEntryValidator.RemoveKeepsConsistent | src/main/kotlin/com/example/basespringbootapikotlin/feature/timeentry/TimeEntryFacadeImpl.kt:64-70 | deleting entries keeps the tables consistent |
| TimeEntryValidator.ProjectsChangeKeepsConsistent | src/main/kotlin/com/example/basespringbootapikotlin/feature/timeentry/TimeEntryBusinessValidator.kt:16-17 | a project change that keeps every referenced project active keeps the tables consistent |
| TimeEntryValidator.AppendKeepsActive | src/main/kotlin/com/example/basespringbootapikotlin/feature/project/ProjectFacadeImpl.kt:15-26 | creating a project keeps every active project active |
| TimeEntryValidator.AppendProjectKeepsConsistent | src/main/kotlin/com/example/basespringbootapikotlin/feature/project/ProjectFacadeImpl.kt:15-26 | creating a project keeps the tables consistent |
| TimeEntryValidator.UpdateProjectKeepsConsistent | src/main/kotlin/com/example/basespringbootapikotlin/feature/project/ProjectFacadeImpl.kt:43-55 | renaming a project keeps the tables consistent |
| TimeEntryValidator.UpdateKeepsActive | src/main/kotlin/com/example/basespringbootapikotlin/feature/project/ProjectRepository.kt:72-79 | the project UPDATE keeps every active project active |
| TimeEntryValidator.SoftDeleteKeepsConsistent | src/main/kotlin/com/example/basespringbootapikotlin/feature/project/ProjectFacadeImpl.kt:57-64 | soft-deleting a project no entry refers to keeps the tables consistent |
| TimeEntryService.TimeEntryFacadeImpl.CreateTimeEntry | src/main/kotlin/com/example/basespringbootapikotlin/feature/timeentry/TimeEntryFacadeImpl.kt:17-31 | a refused entry leaves the table and returns the validator's exception; otherwise the entry is appended under the next id and returned as a DTO |
| TimeEntryService.TimeEntryFacadeImpl.GetTimeEntry | src/main/kotlin/com/example/basespringbootapikotlin/feature/timeentry/TimeEntryFacadeImpl.kt:33-37 | none iff the caller has no entry with that id; otherwise the DTO of such an entry |
| TimeEntryService.TimeEntryFacadeImpl.ListTimeEntries | src/main/kotlin/com/example/basespringbootapikotlin/feature/timeentry/TimeEntryFacadeImpl.kt:39-43 | the DTOs of the caller's entries in range, newest first |
| TimeEntryService.TimeEntryFacadeImpl.UpdateTimeEntry | src/main/kotlin/com/example/basespringbootapikotlin/feature/timeentry/TimeEntryFacadeImpl.kt:45-62 | not found, or refused by the validator, leaves the table; otherwise only hours and comment change and the tables stay consistent (the update-failed branch is unreachable) |
| TimeEntryService.TimeEntryFacadeImpl.DeleteTimeEntry | src/main/kotlin/com/example/basespringbootapikotlin/feature/timeentry/TimeEntryFacadeImpl.kt:64-70 | removes the caller's entry and returns true iff there was one |
| Projects.FindByIdAndUserSub | src/main/kotlin/com/example/basespringbootapikotlin/feature/project/ProjectRepository.kt:51-56 | a found project is a stored active row of that id and owner; none is found iff there is no such row |
| Projects.ActiveOf | src/main/kotlin/com/example/basespringbootapikotlin/feature/project/ProjectRepository.kt:58-63 | exactly the subject's active rows |
| Projects.CountByUserSub | src/main/kotlin/com/example/basespringbootapikotlin/feature/project/ProjectRepository.kt:65-70 | the count is at most the table size, and zero iff the subject has no active project |
| Projects.CountIsActiveRows | src/main/kotlin/com/example/basespringbootapikotlin/feature/project/ProjectRepository.kt:65-70 | `countByUserSub` counts what the active-project query returns |
| Projects.OffsetFetch | src/main/kotlin/com/example/basespringbootapikotlin/feature/project/ProjectRepository.kt:60 | `OFFSET … FETCH NEXT …` returns min(count, rows left after the offset) rows, none past the end or for a count of 0 or less, the i-th being the row at offset + i; a negative offset counts as 0 |
| Projects.PagesTile | src/main/kotlin/com/example/basespringbootapikotlin/feature/project/ProjectRepository.kt:60 | two adjacent windows join into the window that spans both, so paging skips and repeats nothing |
| Projects.FindAllByUserSub | src/main/kotlin/com/example/basespringbootapikotlin/feature/project/ProjectRepository.kt:58-63 | a page holds only the subject's active projects, at most `pageSize` of them |
| Projects.PageOffset | src/main/kotlin/com/example/basespringbootapikotlin/feature/project/ProjectRepository.kt:62 | wrapping `page - 1` and then the product gives the exact `(page - 1) * pageSize` wrapped once to an `Int` |
| Jvm.Wrap32MulCongruent | src/main/kotlin/com/example/basespringbootapikotlin/feature/project/ProjectRepository.kt:62 | wrapping a factor before multiplying does not change the wrapped product |
| Projects.PageOffsetExact | src/main/kotlin/com/example/basespringbootapikotlin/feature/project/ProjectRepository.kt:62 | when `(page - 1) * pageSize` fits an `Int`, the offset is exact |
| Projects.PageSlice | src/main/kotlin/com/example/basespringbootapikotlin/feature/project/ProjectRepository.kt:58-63 | a page with a non-negative offset is the run of active projects from that offset |
| Projects.EveryProjectOnItsPage | src/main/kotlin/com/example/basespringbootapikotlin/feature/project/ProjectRepository.kt:58-63 | every active project appears on the page its position gives |
| Projects.OffsetOverflowShowsFirstPage | src/main/kotlin/com/example/basespringbootapikotlin/feature/project/ProjectRepository.kt:62 | the offset overflows: page 3 of 2^30 rows shows page 1 again |
| Projects.ExistsWithTimeregistrering | src/main/kotlin/com/example/basespringbootapikotlin/feature/project/ProjectRepository.kt:90-95 | true iff some time entry, of any owner, refers to the project |
| Projects.CountForProject | src/main/kotlin/com/example/basespringbootapikotlin/feature/project/ProjectRepository.kt:92 | the count is positive iff an entry refers to the project |
| Projects.UpdateRows | src/main/kotlin/com/example/basespringbootapikotlin/feature/project/ProjectRepository.kt:72-79 | the table keeps its length and every row's id, owner, activity and creation time; a row with the project's id and owner gets the new name, description and change time; every other row is unchanged |
| Projects.UpdateOnlyThatRow | src/main/kotlin/com/example/basespringbootapikotlin/feature/project/ProjectRepository.kt:72-79 | with unique ids the UPDATE is the table with that one row's name, description and change time replaced |
| Projects.SoftDeleteRows | src/main/kotlin/com/example/basespringbootapikotlin/feature/project/ProjectRepository.kt:81-88 | the table keeps its length and every id and owner; a row with that id and owner becomes inactive with change time `now` and nothing else changed; every other row is unchanged |
| Projects.SoftDeleteOnlyThatRow | src/main/kotlin/com/example/basespringbootapikotlin/feature/project/ProjectRepository.kt:81-88 | with unique ids the soft delete is the table with that one row made inactive at `now` |
| Projects.SoftDeletedNotFound | src/main/kotlin/com/example/basespringbootapikotlin/feature/project/ProjectRepository.kt:81-88 | after a soft delete the project is no longer found |
| Projects.SoftDeleteOnlyThatProject | src/main/kotlin/com/example/basespringbootapikotlin/feature/project/ProjectRepository.kt:81-88 | a soft delete leaves every other (id, owner) active or inactive as it was |
| Projects.UpdateKeepsIds | src/main/kotlin/com/example/basespringbootapikotlin/feature/project/ProjectRepository.kt:72-79 | the UPDATE keeps ids unique and below the bound |
| Projects.SoftDeleteKeepsIds | src/main/kotlin/com/example/basespringbootapikotlin/feature/project/ProjectRepository.kt:81-88 | the soft delete keeps ids unique and below the bound |
| Projects.ProjectRepository.Save | src/main/kotlin/com/example/basespringbootapikotlin/feature/project/ProjectRepository.kt:28-49 | appends the project under a fresh id and returns it with that id |
| Projects.ProjectRepository.Update | src/main/kotlin/com/example/basespringbootapikotlin/feature/project/ProjectRepository.kt:72-79 | applies the UPDATE; true iff a row with that id and owner exists |
| Projects.ProjectRepository.SoftDelete | src/main/kotlin/com/example/basespringbootapikotlin/feature/project/ProjectRepository.kt:81-88 | applies the soft delete; true iff a row with that id and owner exists, active or not |
| ProjectService.ProjectFacadeImpl.CreateProject | src/main/kotlin/com/example/basespringbootapikotlin/feature/project/ProjectFacadeImpl.kt:15-26 | appends the trimmed, active project under the next id, which is then an active project of the caller |
| ProjectService.ProjectFacadeImpl.GetProject | src/main/kotlin/com/example/basespringbootapikotlin/feature/project/ProjectFacadeImpl.kt:28-30 | some iff the caller has an active project with that id, and then its DTO |
| ProjectService.ProjectFacadeImpl.ListProjects | src/main/kotlin/com/example/basespringbootapikotlin/feature/project/ProjectFacadeImpl.kt:32-41 | the page's DTOs, the page numbers as given, and the total of all the caller's active projects |
| ProjectService.ProjectFacadeImpl.UpdateProject | src/main/kotlin/com/example/basespringbootapikotlin/feature/project/ProjectFacadeImpl.kt:43-55 | not found leaves the table; otherwise the renamed project is written and returned (the update-failed branch is unreachable) |
| ProjectService.ProjectFacadeImpl.DeleteProject | src/main/kotlin/com/example/basespringbootapikotlin/feature/project/ProjectFacadeImpl.kt:57-64 | not found, or referenced by a time entry, leaves the table with the source's exception; otherwise soft-deletes and returns true |
| Users.NormalizeMobileNumber | src/main/kotlin/com/example/basespringbootapikotlin/repository/UserRepository.kt:152-161 | the number comes back as given or as "+47…" without whitespace; `NormalizedShape` states which digits follow |
| Users.NormalizedShape | src/main/kotlin/com/example/basespringbootapikotlin/repository/UserRepository.kt:152-161 | the result is the input untouched, or "+47…" without whitespace that keeps the cleaned number's digits after its prefix |
| Users.NormalizeIdempotent | src/main/kotlin/com/example/basespringbootapikotlin/repository/UserRepository.kt:152-161 | normalising twice is normalising once |
| Users.FortySevenBeforeLength | src/main/kotlin/com/example/basespringbootapikotlin/repository/UserRepository.kt:154-158 | an eight-character "47…" number gains only "+" |
| Users.ZeroZeroFortySeven | src/main/kotlin/com/example/basespringbootapikotlin/repository/UserRepository.kt:157 | "0047" becomes "+47" |
| Users.EightCharactersGainCountryCode | src/main/kotlin/com/example/basespringbootapikotlin/repository/UserRepository.kt:158 | any other eight characters gain "+47" |
| Users.FormNumbersAreFixed | src/main/kotlin/com/example/basespringbootapikotlin/repository/UserRepository.kt:152-161 | the numbers the web form sends pass through the normaliser unchanged |
| Users.SavedInNormalForm | src/main/kotlin/com/example/basespringbootapikotlin/repository/UserRepository.kt:65-127 | what `save` writes and returns has a lower-cased email and a normalised number; an insert has version 1 and an update one more |
| Users.FindById | src/main/kotlin/com/example/basespringbootapikotlin/repository/UserRepository.kt:28-40 | a found user is live with that id; none is found iff no live row has the id |
| Users.WithEpost | src/main/kotlin/com/example/basespringbootapikotlin/repository/UserRepository.kt:42-54 | exactly the live users with that email |
| Users.SeveralIffShared | src/main/kotlin/com/example/basespringbootapikotlin/repository/UserRepository.kt:42-54 | the email query returns two or more rows iff two live rows share the email |
| Users.ExistsByEpost | src/main/kotlin/com/example/basespringbootapikotlin/repository/UserRepository.kt:56-63 | true iff a live user has the lower-cased email |
| Users.FindByEpost | src/main/kotlin/com/example/basespringbootapikotlin/repository/UserRepository.kt:42-54 | null iff no live user has the email; a found user has it; fails iff two live users share it, and then with `IncorrectResultSizeDataAccessException` |
| Users.StoredEmailFound | src/main/kotlin/com/example/basespringbootapikotlin/repository/UserRepository.kt:56-63 | a stored user is found under any spelling that lower-cases to its email |
| Users.LiveUsers | src/main/kotlin/com/example/basespringbootapikotlin/repository/UserRepository.kt:134-147 | exactly the live users |
| Users.InsertByCreatedKeepsOrder | src/main/kotlin/com/example/basespringbootapikotlin/repository/UserRepository.kt:134-147 | inserting keeps newest-first order and adds exactly that user |
| Users.SortByCreatedSorts | src/main/kotlin/com/example/basespringbootapikotlin/repository/UserRepository.kt:134-147 | `ORDER BY opprettet_dato DESC` yields a newest-first permutation |
| Users.LimitOffset | src/main/kotlin/com/example/basespringbootapikotlin/repository/UserRepository.kt:134-147 | `LIMIT … OFFSET …` returns min(limit, rows left after the offset) rows, none past the end or for a limit of 0 or less, the i-th being the row at offset + i; a negative offset counts as 0 |
| Users.PagesTile | src/main/kotlin/com/example/basespringbootapikotlin/repository/UserRepository.kt:134-147 | two adjacent windows join into the window that spans both, so paging skips and repeats no user |
| Users.FindAll | src/main/kotlin/com/example/basespringbootapikotlin/repository/UserRepository.kt:134-147 | `findAll` returns at most `limit` users, newest first |
| Users.WindowOfSorted | src/main/kotlin/com/example/basespringbootapikotlin/repository/UserRepository.kt:134-147 | a window of a newest-first sequence is newest first and drawn from it |
| Users.FindAllReturnsNewestLive | src/main/kotlin/com/example/basespringbootapikotlin/repository/UserRepository.kt:134-147 | `findAll` returns at most `limit` live users, newest first |
| Users.FindAllEveryLiveUser | src/main/kotlin/com/example/basespringbootapikotlin/repository/UserRepository.kt:134-147 | from offset 0 with a limit above the table size, every live user comes back, as often as stored |
| Users.UpdateRows | src/main/kotlin/com/example/basespringbootapikotlin/repository/UserRepository.kt:99-118 | the table keeps its length and every row's id, deleted flag and creation time; a row with the id and version gets the next version and change time `now`; every other row is unchanged |
| Users.CountMatchesZero | src/main/kotlin/com/example/basespringbootapikotlin/repository/UserRepository.kt:99-118 | the update changes no row iff no row has that id and version |
| Users.NoMatchNoChange | src/main/kotlin/com/example/basespringbootapikotlin/repository/UserRepository.kt:99-118 | an update that matches no row leaves the table as it was |
| Users.UpdatedRowIsReturned | src/main/kotlin/com/example/basespringbootapikotlin/repository/UserRepository.kt:99-126 | the rewritten row holds what `save` returns, except the creation time, which stays the stored one |
| Users.SoftDeleteRows | src/main/kotlin/com/example/basespringbootapikotlin/repository/UserRepository.kt:129-132 | the table keeps its length and every user's data; a row is deleted afterwards iff it was already or has the id |
| Users.DeletedUserGone | src/main/kotlin/com/example/basespringbootapikotlin/repository/UserRepository.kt:129-132 | after a delete the user is not found by id, and an email exists only through another live user |
| Users.AtMostOneMatch | src/main/kotlin/com/example/basespringbootapikotlin/repository/UserRepository.kt:99-118 | with unique ids the update matches at most one row |
| Users.UpdateKeepsTable | src/main/kotlin/com/example/basespringbootapikotlin/repository/UserRepository.kt:99-126 | the update keeps ids unique and rows in normal form |
| Users.DeleteKeepsTable | src/main/kotlin/com/example/basespringbootapikotlin/repository/UserRepository.kt:129-132 | the delete keeps ids unique and rows in normal form |
| Users.InsertKeepsTable | src/main/kotlin/com/example/basespringbootapikotlin/repository/UserRepository.kt:68-98 | the insert keeps ids unique and rows in normal form |
| Users.UserRepository.Save | src/main/kotlin/com/example/basespringbootapikotlin/repository/UserRepository.kt:65-127 | id 0 inserts under a fresh id; otherwise the versioned update is applied, and when no row matched it fails with `IllegalStateException` and leaves the table |
| Users.UserRepository.Delete | src/main/kotlin/com/example/basespringbootapikotlin/repository/UserRepository.kt:129-132 | soft-deletes and returns true iff a live user had the id |
| UserService.LowerKeepsPadding | src/main/kotlin/com/example/basespringbootapikotlin/facade/UserFacade.kt:39 | lower-casing keeps leading and trailing whitespace where it was |
| UserService.StoredEmailUnpadded | src/main/kotlin/com/example/basespringbootapikotlin/facade/UserFacade.kt:39 | the stored email is trimmed and already lower-case |
| UserService.PaddedEmailRegistersTwice | src/main/kotlin/com/example/basespringbootapikotlin/facade/UserFacade.kt:32-40 | a padded spelling of a registered email passes the duplicate check, and after the insert `findByEpost` fails on the shared email |
| UserService.MergedKeepsUnpadded | src/main/kotlin/com/example/basespringbootapikotlin/facade/UserFacade.kt:63-67 | the update of a merged user keeps every stored email trimmed |
| UserService.DeleteKeepsUnpadded | src/main/kotlin/com/example/basespringbootapikotlin/facade/UserFacade.kt:73-78 | a delete keeps every stored email trimmed |
| UserService.UserFacadeImpl.CreateUser | src/main/kotlin/com/example/basespringbootapikotlin/facade/UserFacade.kt:30-44 | a taken email fails with the duplicate message and leaves the table; otherwise the trimmed, lower-cased, normalised user is appended under the next id |
| UserService.UserFacadeImpl.FindUserById | src/main/kotlin/com/example/basespringbootapikotlin/facade/UserFacade.kt:46-49 | none iff no live user has the id; otherwise that user's DTO |
| UserService.UserFacadeImpl.UpdateUser | src/main/kotlin/com/example/basespringbootapikotlin/facade/UserFacade.kt:51-71 | not found or a clashing new email fails with the source's message and leaves the table; otherwise the merged user is written under its version and returned |
| UserService.UserFacadeImpl.DeleteUser | src/main/kotlin/com/example/basespringbootapikotlin/facade/UserFacade.kt:73-78 | not found fails; otherwise soft-deletes and returns true |
| UserService.UserFacadeImpl.FindUserByEpost | src/main/kotlin/com/example/basespringbootapikotlin/facade/UserFacade.kt:80-83 | fails iff two live users share the email; null iff none has it; otherwise the DTO of a user with it |
| UserService.UserFacadeImpl.IsEmailAvailable | src/main/kotlin/com/example/basespringbootapikotlin/facade/UserFacade.kt:85-88 | true iff no live user has the lower-cased email |
| UserService.UserFacadeImpl.GetAllUsers | src/main/kotlin/com/example/basespringbootapikotlin/facade/UserFacade.kt:90-93 | the DTOs of `findAll`'s window, each of a live user, at most `limit` of them |
| ExceptionHandling.FieldMap | src/main/kotlin/com/example/basespringbootapikotlin/exception/GlobalExceptionHandler.kt:25-29 | the map has no more keys than there are errors, and the last error's field is a key |
| ExceptionHandling.FieldMapLastWins | src/main/kotlin/com/example/basespringbootapikotlin/exception/GlobalExceptionHandler.kt:25-29 | the map has a key for exactly the fields with an error, each holding that field's last message |
| ExceptionHandling.HandleValidationExceptions | src/main/kotlin/com/example/basespringbootapikotlin/exception/GlobalExceptionHandler.kt:18-41 | a global error makes the cast fail; otherwise a 400 VALIDATION_ERROR with the field map |
| ExceptionHandling.CodeMatchesStatus | src/main/kotlin/com/example/basespringbootapikotlin/exception/GlobalExceptionHandler.kt:48-58 | the status and the code `when`s agree case by case |
| ExceptionHandling.HandleIllegalArgument | src/main/kotlin/com/example/basespringbootapikotlin/exception/GlobalExceptionHandler.kt:43-69 | 409 iff the duplicate-email message, 404 iff the user-not-found message, 400 otherwise; the message is passed on or defaulted |
| ExceptionHandling.HandleGeneral | src/main/kotlin/com/example/basespringbootapikotlin/exception/GlobalExceptionHandler.kt:71-85 | a fixed 500 INTERNAL_ERROR that hides the cause |
| ExceptionHandling.Handle | src/main/kotlin/com/example/basespringbootapikotlin/exception/GlobalExceptionHandler.kt:18-85 | each exception type reaches its handler: a validation exception with only field errors gives the full 400 VALIDATION_ERROR response with `FieldMap` of its errors, one with a global error fails with `ClassCast`, an `IllegalArgumentException` gets `HandleIllegalArgument`'s response and anything else `HandleGeneral`'s; every response status is 400, 404, 409 or 500 |
| ApiClient.Or | timeforing-app-gui/src/services/apiClient.ts:31-33 | `a \|\| b` gives `a` when it is a non-empty string and `b` otherwise, in both directions |
| ApiClient.StatusOf | timeforing-app-gui/src/services/apiClient.ts:33 | the status is never 0: a missing response or a status of 0 becomes 500, and any other response status is kept |
| ApiClient.OnResponseError | timeforing-app-gui/src/services/apiClient.ts:28-72 | the interceptor always rejects, with the error the case table gives |
| ApiClient.ClientError | timeforing-app-gui/src/services/apiClient.ts:28-72 | the status is never 0 and is the response's own when it has one; for a status outside the `switch` the server's message is shown, or "try again" without one |
| ApiClient.ClientErrorComplete | timeforing-app-gui/src/services/apiClient.ts:28-72 | the error shown always has a message, a code and a non-zero status |
| ApiClient.FixedStatusIgnoresDetails | timeforing-app-gui/src/services/apiClient.ts:38-58 | for 400, 401, 409, 422 and 500 the error depends on the status alone |
| ApiClient.OtherStatusShowsServerMessage | timeforing-app-gui/src/services/apiClient.ts:59-64 | for another status the server's message is shown with axios' code |
| ApiClient.NoResponseIsNetworkError | timeforing-app-gui/src/services/apiClient.ts:65-68 | a sent request without a response is a NETWORK_ERROR with status 500 |
| ApiClient.OnRequest | timeforing-app-gui/src/services/apiClient.ts:14-25 | with a stored token the `Authorization` header becomes "Bearer " and the token; without one the headers are unchanged |
| ErrorFlow.UserErrorsReachClient | src/main/kotlin/com/example/basespringbootapikotlin/exception/GlobalExceptionHandler.kt:48-58 | a taken email reaches the client as DUPLICATE_EMAIL 409 with the same text; a missing user as a 404 with the server's text |
| ErrorFlow.ValidatorRefusalsAreBadRequests | src/main/kotlin/com/example/basespringbootapikotlin/feature/timeentry/TimeEntryBusinessValidator.kt:9-24 | every validator refusal is a 400 INVALID_REQUEST with its message, which the client replaces with its fixed 400 text |
| ErrorFlow.OtherNotFoundIsBadRequest | src/main/kotlin/com/example/basespringbootapikotlin/exception/GlobalExceptionHandler.kt:48-52 | a missing project or time entry is a 400 INVALID_REQUEST, not a 404 |
| ErrorFlow.IllegalStateIsServerError | src/main/kotlin/com/example/basespringbootapikotlin/exception/GlobalExceptionHandler.kt:71-85 | an `IllegalStateException` reaches the client only as "Server feil" SERVER_ERROR 500 |
| ErrorFlow.FieldErrorsNotShown | src/main/kotlin/com/example/basespringbootapikotlin/exception/GlobalExceptionHandler.kt:18-41 | the field map of a validation response never reaches the user: the client shows its fixed 400 text |

## Left out

- Timing: every `LocalDateTime.now()` reading is a parameter. On a time-entry update there are two: the facade's `now`, which the returned DTO carries as `sistEndret`, and the repository's own reading, read later, which is what the row stores as `sist_endret` (`repoNow` in `UpdateTimeEntry`). Where the source reads the clock twice in one step (the defaults of `TimeEntry`, `opprettetDato` and `endretDato` in `createProject`), the model uses one reading for both. Logging, MDC correlation ids and the request path are dropped or passed as parameters.
- Calculator.Factorial: the JVM call-stack depth is not modelled. The Kotlin recursion throws `StackOverflowError` for a large enough n (`Int.MAX_VALUE`, say), where the model returns n! wrapped to a `Long`.
- Hours are exact reals, not IEEE doubles. `(timer * 2) % 1.0 == 0.0` is read as "twice the hours is whole", and `Divide` returns the exact quotient.
- Lower-casing covers ASCII and Latin-1 (Æ, Ø, Å included). Other Unicode case mappings and UTF-16 lengths are not modelled.
- Tables are in-memory sequences. SQL, JDBC, transactions and concurrent writers are not modelled. The generated-key fallback `id ?: 0` is left out, because a key is always generated.
- Projects.FindAllByUserSub: the caller's `ORDER BY $sort` is not modelled; table order stands for it.
- Users.SortByCreated: ties in `opprettet_dato` keep an insertion order, whereas the database leaves their order open.
- Negative LIMIT, OFFSET and FETCH values are read as 0 rather than raising a database error.
- Version numbers are unbounded integers, not wrapping `Int`s.
- The controllers, bean validation (`@NotBlank`, `@Email`, `@Size`) and security are not part of this model. This includes the mock authentication, the report export and the legacy `facade/ProjectFacadeImpl.kt`. The facades are modelled as called after bean validation, which would probably refuse a padded email before `createUser` sees it.
- zod's own e-mail check is a boolean parameter of `EpostField` and `ProfileEpostField`.
- The DTOs' JSON rendering is not modelled: the decimal id and the ISO-8601 dates.
- The `model/User.kt` that `UserFacade.kt` imports is not part of this model. The fields of `feature/user/User.kt` are used.
- ApiClient: a non-string `data.message` is not modelled. The request interceptor's own error path (`Promise.reject(error)`) is not modelled either.
- UserService.UserFacadeImpl.UpdateUser: the `IllegalStateException` that `save` throws on a stale version is proved unreachable here, because the facade reads and writes in one step. Concurrent writers are what could make it happen.
- TimeEntryService.TimeEntryFacadeImpl.UpdateTimeEntry and ProjectService.ProjectFacadeImpl.UpdateProject: their `IllegalStateException` branches are unreachable for the same reason.
- FormValidation.NavnField, FormValidation.MobilField and FormValidation.EpostField: the user form's fields are always present as strings, so zod's `required_error` for an undefined field is not modelled.
- Database constraints (unique keys, foreign keys, NOT NULL) are not modelled: the tables accept any row the repository writes. So the claim that a padded email can be registered twice holds only if the users table has no unique constraint on `epost`.
