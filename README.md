# Walk-and-run backend: points, settlement and verification codes in Dafny

This project models the core of a fitness backend. The backend is a NestJS service over a Firebase
realtime database. Users send movement samples while they walk or run. Each sample is priced in kcal
and in reward points, using a policy table keyed by age band and sex. The sample is stored under a
day key (`YYYYMMDD`) and a time key (`HHMMSSmmm`) in the user's open ("doing") log. When the user
finishes a workout, every open day bucket is summed. The user's daily and monthly points are
rewritten, and yesterday's daily points are converted into cash. The buckets are then moved into the
archive ("done"). Beside this engine, the model covers:

- e-mail verification codes: issue, expire after five minutes, and consume once;
- the controller's input checks (the e-mail regular expression and the six-digit code);
- the profile, cash and workout-state queries;
- account deletion;
- the way each service's catch block classifies what it caught.

Modules, leaves first:

- `Errors`: `Option`, `Result`, HTTP statuses, and the catch-block classifiers.
- `Keys`: the order in which `Object.keys` lists integer-like keys, and the least and greatest key of a set.
- `Decimal`: digit strings, `String(n)` and `padStart`.
- `Dates`: `dateStr` and `timeStr`.
- `Calculator`: `calcKcal`, `parseInt` and `calcPointsBasedPolicy`.
- `Datastore`: the database. This is the class `Database` with the node maps `users`, `exercise`,
  `verifications` and `accounts`, plus the node shapes.
- `Settlement`: the pure specification of what finishing a workout writes.
- `ExerciseService`, `AuthService`, `AuthController`, `UsersService`: the operations.

The services hold no state of their own, since every request goes to the shared database handle. So
each service operation is a module-level method that takes the `Database` and states the whole new
state of the database.

What the model takes as parameters:

- the clock, as `now` (epoch milliseconds);
- the Date library's local calendar, as `decompose`;
- `Math.random()`, as `random` in [0, 1);
- the SHA-256 digest of an address, as `hash`;
- the points policy table, as `policy`;
- the outcome of sending a mail, as `mail`.

Numbers are exact reals, and integers are unbounded. `Object.keys` lists the integer-like keys of a
node (canonical array indices) first, in ascending numeric order. A day key is such a key when its
year has four digits or more and its month and day are in range. `Keys.Less` is that listing order:
a shorter key first, keys of one length character by character. `Decimal.LessIsNumeric` shows that
it is numeric order on integer-like keys, and `Dates.DateKeyOrder` shows that it is calendar order on
day keys. The model therefore settles days in `Keys.Less` order, and the finish response is the
aggregate of the newest day bucket.

The cash conversion adds the previous balance a second time (`prevCashes + (… ? prevCashes + 500 :
prevCashes + …)`). `Settlement.CashAfter` states the doubled balance.

## Model

| member | source | states |
|---|---|---|
| Errors.CommonThrow | src/exercise/exercise.service.ts:318-339 | An HttpException passes unchanged. Otherwise the result is the 403 PERMISSION_DENIED error exactly when the caught value carries code PERMISSION_DENIED, and the 500 error in every other case. |
| Errors.RethrowOrMap | src/auth/auth.service.ts:99-119 | An HttpException whose status the catch block lists passes unchanged. An unlisted HttpException becomes 500. A non-HTTP value is classified exactly as `commonThrow` does. |
| Errors.RethrowAllIsCommon | src/exercise/exercise.service.ts:318-339 | Rethrowing every HTTP status and mapping the rest is the same classification as `commonThrow`. |
| Errors.ControllerThrow | src/auth/auth.controller.ts:43-55 | An HttpException passes unchanged, and anything else becomes a 500. |
| Errors.ClassifiersCompose | src/auth/auth.controller.ts:91-103 | A controller passes on unchanged whatever its service's classifier produced, and classifying an error twice gives the same error. |
| Keys.LessTotal | src/exercise/exercise.service.ts:231 | The listing order of day keys (shorter first, then character by character) is total on distinct keys. |
| Keys.LessTransitive | src/exercise/exercise.service.ts:231 | The listing order is transitive. |
| Keys.LessIrreflexive | src/exercise/exercise.service.ts:231 | No key comes before itself in the listing order. |
| Keys.Greatest | src/exercise/exercise.service.ts:237-248 | Every non-empty set of day keys has a greatest key, the last one the loop visits. |
| Keys.GreatestAfterLeast | src/exercise/exercise.service.ts:237-248 | Removing the first-visited key leaves the last-visited key in place, unless the set had only one key. |
| Decimal.PadStart | src/common/utils/dates.ts:3-5 | `padStart` keeps the string as its suffix, fills only on the left, and gives the width or the string's own length, whichever is larger. |
| Decimal.DigitsCorrect | src/common/utils/dates.ts:3-5 | `String(n)` of a natural number is all digits and reads back as `n`. |
| Decimal.DigitsLength | src/common/utils/dates.ts:3-5 | `String(n)` fits in `k` characters exactly when `n < 10^k`. |
| Decimal.FieldRoundTrip | src/common/utils/dates.ts:3-5 | A padded field of a number below `10^width` has exactly `width` digits and reads back as the number, leading zeros included. |
| Decimal.FieldOverflow | src/common/utils/dates.ts:3 | A number of `10^width` or more gives a field longer than `width`, because padStart never truncates. |
| Decimal.LexIsNumeric | src/exercise/exercise.service.ts:231 | For digit strings of equal length, string comparison is numeric order. |
| Decimal.DigitsCanonical | src/common/utils/dates.ts:3 | `String(n)` is an integer-like key: digits with no leading zero. |
| Decimal.FieldUnpadded | src/common/utils/dates.ts:3 | A value that fills its width gets no padding, so its field is `String(n)`, integer-like, and reads back as the value. |
| Decimal.LessIsNumeric | src/exercise/exercise.service.ts:231 | For integer-like keys, one key is listed before another exactly when its number is smaller. |
| Dates.ResolveInstant | src/common/utils/dates.ts:2 | A missing or zero argument means "now", and any other argument is used as given. |
| Dates.DateStrRoundTrip | src/common/utils/dates.ts:1-7 | For an in-range date, the day key is eight digits and reads back as year, month + 1 and day. |
| Dates.TimeStrRoundTrip | src/common/utils/dates.ts:9-16 | For an in-range time, the time key is nine digits and reads back as hours, minutes, seconds and milliseconds. |
| Dates.LongYearLongKey | src/common/utils/dates.ts:3 | A year of five digits or more makes the day key longer than eight characters. |
| Dates.DateKeyValue | src/common/utils/dates.ts:1-7 | For a year of four digits or more and an in-range month and day, the day key is integer-like and denotes year × 10000 + (month + 1) × 100 + day, however wide the year. |
| Dates.DateKeyOrder | src/common/utils/dates.ts:1-7 | For such dates, one day key is listed before another exactly when its day is earlier on the calendar. |
| Dates.TimeKeyOrder | src/common/utils/dates.ts:9-16 | For in-range times, one time key is below another in string comparison exactly when its time of day is earlier. |
| Calculator.CeilHundredths | src/exercise/utils/calculator.ts:8 | `Math.ceil(x * 100) / 100` is the least multiple of 0.01 that is not below `x`. |
| Calculator.CalcKcal | src/exercise/utils/calculator.ts:3-9 | The kcal is whole hundredths, at least the exact MET × weight × hours, and less than 0.01 above it. |
| Calculator.MetPositive | src/exercise/utils/calculator.ts:4-7 | The MET of a non-negative velocity is positive. |
| Calculator.MetMonotone | src/exercise/utils/calculator.ts:4-7 | For non-negative velocities, the MET does not fall as velocity rises, across the switch at 7.0 as well. |
| Calculator.KcalOfNoTime | src/exercise/utils/calculator.ts:3-9 | No movement time gives 0 kcal. |
| Calculator.KcalMonotoneInWeight | src/exercise/utils/calculator.ts:3-9 | For a non-negative velocity and movement time, a heavier user is credited with no fewer kcal. |
| Calculator.KcalMonotoneInMovetime | src/exercise/utils/calculator.ts:3-9 | For a non-negative velocity and weight, a longer movement time is credited with no fewer kcal. |
| Calculator.KcalMonotoneInVelocity | src/exercise/utils/calculator.ts:3-9 | For non-negative velocities, weight and movement time, a faster movement is credited with no fewer kcal. |
| Calculator.TrimStart | src/exercise/utils/calculator.ts:20 | `parseInt`'s leading-whitespace skip leaves a suffix that starts with a non-space, after dropping only spaces. |
| Calculator.ParseInt | src/exercise/utils/calculator.ts:20 | After white space and an optional sign, `parseInt` gives a number when a digit comes first, and only then. Behind a `0x` or `0X` prefix it gives one exactly when a hex digit follows. A negative number comes only after a minus sign, and a minus sign never gives a positive number. |
| Calculator.TrimSpaces | src/exercise/utils/calculator.ts:20 | All leading white space, and nothing after it, is skipped. |
| Calculator.ParseIntSkipsSpace | src/exercise/utils/calculator.ts:20 | Leading white space does not change the result. |
| Calculator.ParseIntSigned | src/exercise/utils/calculator.ts:20 | An optional sign and a run of decimal digits up to the first non-digit give the value of the digits, negated after a minus sign. |
| Calculator.ParseIntHex | src/exercise/utils/calculator.ts:20 | An optional sign, `0x` or `0X` and a run of hex digits give the base-16 value of the digits, negated after a minus sign. |
| Calculator.ParseIntOfDigits | src/exercise/utils/calculator.ts:20 | A string of digits parses to its decimal value. |
| Calculator.ParseIntStopsAtNonDigit | src/exercise/utils/calculator.ts:20 | Parsing stops at the first non-digit, so `"1994-01-01"` style birth dates give the year. |
| Calculator.Prefix4 | src/exercise/utils/calculator.ts:20 | `substring(0, 4)` is the first four characters, or the whole string when it is shorter. |
| Calculator.DecadeAge | src/exercise/utils/calculator.ts:18-21 | The age is a multiple of ten and the largest one not above the difference of the years. |
| Calculator.ClampBand | src/exercise/utils/calculator.ts:23 | Ages of 70 or more map to 70, ages of 20 or less map to 20, and ages in between keep their value. |
| Calculator.ClampedDecadeIsBand | src/exercise/utils/calculator.ts:18-23 | A clamped decade age is always one of the six bands 20, 30, …, 70 of the policy table. |
| Calculator.AgeBand | src/exercise/utils/calculator.ts:18-23 | A band exists exactly when the first four characters of the birth date parse, and it is the clamped decade age of that year. |
| Calculator.AgeBandOfYear | src/exercise/utils/calculator.ts:18-23 | A birth date starting with four digits gets the band of the year those digits spell. |
| Calculator.AgeBandReadsYearOnly | src/exercise/utils/calculator.ts:20 | Two birth dates that agree in their first four characters get the same band. |
| Calculator.SexKey | src/exercise/utils/calculator.ts:23 | Only exactly "M" and "W" select a column of the policy table. |
| Calculator.CalcPoints | src/exercise/utils/calculator.ts:11-27 | The points exist exactly when the band and the sex resolve (otherwise the lookup throws). At or above the maximum velocity they are 2, at or below the minimum velocity they are 1, and between the two they are velocity / minimum rounded up to hundredths. |
| Calculator.MiddleTierAboveOne | src/exercise/utils/calculator.ts:24-26 | With a positive minimum velocity, a velocity strictly between the thresholds earns more than 1 point. |
| Calculator.PointsAtMostTwo | src/exercise/utils/calculator.ts:24-26 | With a positive minimum velocity and a maximum at most twice the minimum, no velocity earns more than 2 points. |
| Datastore.Lookup | src/exercise/exercise.service.ts:89-92 | A read of a node gives a value exactly when the node exists, and the value is the stored one. |
| Settlement.TotalRemove | src/exercise/exercise.service.ts:242-246 | A bucket's sum is one sample plus the sum of the rest, whatever sample is taken first, so the visiting order of time keys does not matter. |
| Settlement.Carry | src/exercise/exercise.service.ts:253-255 | Only the part of a day's points above 10000 is carried into the month, and it is never negative. |
| Settlement.CashAfter | src/exercise/exercise.service.ts:260-271 | Above 10000 daily points the new balance is twice the old one plus 500. Otherwise it is twice the old one plus one unit per full 20 points. |
| Settlement.SettleClosedForm | src/exercise/exercise.service.ts:237-275 | Settling the buckets oldest first leaves daily and monthly points as written for the newest bucket alone, from the snapshot read before the loop. Cash is converted once, from the snapshot, exactly when some bucket other than today's was settled. |
| Settlement.Merge | src/exercise/exercise.service.ts:283-289 | Merging into done/<day> keeps every archived and every open time key, and the open sample wins where both exist. |
| Settlement.ArchiveContents | src/exercise/exercise.service.ts:280-295 | Archiving loses no sample: a (day, time) is in the archive exactly when it was open or archived before, and the open sample wins. |
| Settlement.ArchiveStep | src/exercise/exercise.service.ts:280-295 | Archiving one more day is one more merge into that day's archived bucket. |
| ExerciseService.TraceUserCheck | src/exercise/exercise.service.ts:92-128 | NO_USER, NO_USERINFO, NO_USER_BIRTH, NO_USER_SEX and NO_USER_WEIGHT are each reported exactly when all earlier checks pass and their own fails. The profile passes exactly when all five pass. |
| ExerciseService.InsertFirst | src/exercise/exercise.service.ts:143-153 | The sample slot ends up filled. A sample already there stays, the new one is stored otherwise, and every other slot and the archive are unchanged. |
| ExerciseService.InsertFirstIdempotent | src/exercise/exercise.service.ts:143-153 | Writing again to a slot, the same sample or another one, changes nothing. |
| ExerciseService.RecordSample | src/exercise/exercise.service.ts:139-153 | The transaction changes only the user's exercise log, and only as `InsertFirst` says. |
| ExerciseService.SendUserActivityTrace | src/exercise/exercise.service.ts:85-167 | A failed profile check is reported with nothing written. An unresolvable points lookup becomes 500 with nothing written. Otherwise the response is the request's velocity with its points and kcal, and the sample is first-write-wins at the request's day and time key. |
| ExerciseService.Started | src/exercise/exercise.service.ts:182-184 | The new node is an object whose `doing` is true and whose other fields are unchanged. |
| ExerciseService.StartUserExerciseActivity | src/exercise/exercise.service.ts:169-192 | A missing user gets 404 and nothing changes. Otherwise only the user's node changes, as `Started` says. |
| ExerciseService.AggregateBucket | src/exercise/exercise.service.ts:238-248 | The loop's accumulators are the bucket's point and kcal totals and its mean velocity (0 for an empty bucket). |
| ExerciseService.SettleBuckets | src/exercise/exercise.service.ts:231-279 | After the points and cash transactions of every open bucket, the user's node is the `Settle` fold, oldest day first, against the snapshot. The returned accumulators are those of the newest bucket. |
| ExerciseService.ArchiveDay | src/exercise/exercise.service.ts:281-292 | The two transactions of one day change only the user's log: the open samples are merged into that day's archive, and the day is removed from the open log. |
| ExerciseService.ArchiveBuckets | src/exercise/exercise.service.ts:280-295 | The open log ends empty and the archive is `Archive` of the open and archived buckets. Nothing else changes. |
| ExerciseService.FinishUserExerciseActivity | src/exercise/exercise.service.ts:194-316 | A missing user gets 404. An empty open log answers zeros and writes nothing, `doing` included. Otherwise the profile is settled, the buckets are archived, `doing` becomes false, and the response is the newest bucket's aggregate. |
| ExerciseService.GetUserDailyPoints | src/exercise/exercise.service.ts:58-83 | A missing user gets 404. Otherwise the response is the stored daily points, or 0 when they are absent. |
| ExerciseService.GetUserExerciseRecord | src/exercise/exercise.service.ts:24-56 | The call never fails. It returns today's archived bucket exactly when that bucket exists and is non-empty. |
| ExerciseService.DailyPointsAfterFinish | src/exercise/exercise.service.ts:249-275 | After a finish, the daily points read back as snapshot plus the newest bucket's points when that bucket is today's, and as 0 otherwise. |
| ExerciseService.RecordAfterFinish | src/exercise/exercise.service.ts:280-295 | After a finish, today's record is today's archive merged with today's open samples. It is unchanged when nothing was open today. |
| AuthService.NamespaceOf | src/auth/auth.service.ts:64-65 | Exactly the mode "signup" selects the sign-up collection, and every other mode selects the reset collection. |
| AuthService.KeyOf | src/auth/auth.service.ts:128-133 | A record is addressed by the mode's collection and the address's digest, the same way when sending and when verifying. |
| AuthService.SendPrecheck | src/auth/auth.service.ts:43-57 | DUPLICATE_EMAIL is reported exactly for sign-up of a registered address, and NO_SIGNUP_EMAIL exactly for reset of an unregistered one. Every other combination passes. |
| AuthService.AuthCodeDigits | src/auth/auth.service.ts:59-61 | The code has six digits, keeps its leading zeros, and reads back as the drawn number below 1000000. |
| AuthService.Issued | src/auth/auth.service.ts:62-70 | The stored record holds the code and expires 300000 ms after it was issued. |
| AuthService.MailResult | src/auth/auth.service.ts:72-119 | Success exactly when the mail was delivered. A mailer error is classified by the catch block. |
| AuthService.SendEmailVerificationMail | src/auth/auth.service.ts:32-120 | A refused request writes nothing. Otherwise the address's record is replaced before the mail is sent and stays whatever the mailer does, and the response is the mail's outcome. |
| AuthService.VerifyCheck | src/auth/auth.service.ts:135-175 | VERIFICATION_NOT_FOUND, MISSING_VERIFICATION_DATA, MISSING_EXPIRATION_TIME, VERIFICATION_EXPIRED and INVALID_AUTH_NUMBER are each reported exactly when all earlier checks pass and their own fails. An expiry equal to now is still valid. |
| AuthService.VerifyEmailWithAuthNumber | src/auth/auth.service.ts:122-208 | A failed check is reported and changes nothing. A passed check removes the record. |
| AuthService.VerifyErrorsPassThrough | src/auth/auth.service.ts:186-192 | The catch block lets every refusal of the verify checks through unchanged. |
| AuthService.SendThenVerify | src/auth/auth.service.ts:135-177 | The code sent for an address and mode is accepted until its expiry. Once consumed, a second attempt finds no record. |
| AuthService.CodeValidForFiveMinutes | src/auth/auth.service.ts:161-175 | The issued code is accepted at `t` exactly when `t` is at most five minutes after issue. After that any code is VERIFICATION_EXPIRED, and before that a different code is INVALID_AUTH_NUMBER. |
| AuthService.ResendReplacesCode | src/auth/auth.service.ts:68-70 | A second send overwrites the record: only the latest code is accepted. |
| AuthService.SharedDigestSharesRecord | src/auth/auth.service.ts:66-70 | Two addresses with the same digest share one record. |
| AuthService.ModesAreSeparate | src/auth/auth.service.ts:64-70 | Issuing a code in one mode leaves the other mode's record of the same address as it was. |
| AuthController.WordTailShape | src/auth/auth.controller.ts:29 | `([-_.]?[A-Za-z0-9])*` matches exactly the strings that are empty or end in a letter or digit, use only letters, digits and separators, and have a letter or digit after every separator. |
| AuthController.WordIsShape | src/auth/auth.controller.ts:29 | `[A-Za-z0-9]([-_.]?[A-Za-z0-9])*` matches exactly the non-empty strings of letters, digits and `-_.` that start and end with a letter or digit and have no two separators side by side. |
| AuthController.IndexOf | src/auth/auth.controller.ts:29 | The position found is of the first `@`, or the length when there is none. |
| AuthController.RecognizerSplit | src/auth/auth.controller.ts:29 | An accepted address splits at its first `@` and at the dot three or four characters from the end into word, word and top-level domain. |
| AuthController.PatternSplit | src/auth/auth.controller.ts:29 | Any split the regular expression can find is accepted by the recognizer. |
| AuthController.IsEmailMatchesPattern | src/auth/auth.controller.ts:28-31 | The recognizer accepts exactly the strings the e-mail regular expression matches. |
| AuthController.OnlyOneAt | src/auth/auth.controller.ts:29 | A matching address has no `@` besides the one that splits it. |
| AuthController.AcceptedLocalPart | src/auth/auth.controller.ts:29 | An accepted address has exactly one `@`, its local part has the word shape, and a letter or digit stands on both sides of the `@`. |
| AuthController.AcceptedDomain | src/auth/auth.controller.ts:29 | After the `@` come a word, a dot three or four characters from the end, and only letters after the dot. |
| AuthController.IssuedCodePassesCheck | src/auth/auth.controller.ts:78 | Every code the service issues passes the controller's `^\d{6}$` check. |
| AuthController.VerifyInputCheck | src/auth/auth.controller.ts:66-84 | INVALID_EMAIL_FORMAT is reported exactly when the address fails the pattern, and INVALID_AUTH_NUMBER_FORMAT exactly when the address passes and the code is not six digits. |
| AuthController.RequestEmailVerification | src/auth/auth.controller.ts:23-56 | A malformed address is refused and nothing is written. Otherwise the service's outcome and writes are passed on unchanged. |
| AuthController.VerifyEmailWithAuthNumber | src/auth/auth.controller.ts:58-104 | Malformed input is refused first and nothing is written. Otherwise the service's checks decide, and a passed check consumes the record. |
| UsersService.ClampsAgree | src/users/users.service.ts:42-48 | The profile's strict clamp and the calculator's non-strict clamp pick the same band for every age, always between 20 and 70. |
| UsersService.ProfileBand | src/users/users.service.ts:42-48 | The profile reads its thresholds from the same band as the points calculation. |
| UsersService.GetUserProfile | src/users/users.service.ts:22-70 | A missing user gets 404. A missing birth date, an unparsable year or a sex other than M/W gets 500. Otherwise the view has the stored fields with absent totals read as 0, the weight from `Weight`, and the thresholds of the user's band and sex. |
| UsersService.GetUserCashes | src/users/users.service.ts:72-94 | A missing user gets 404. Otherwise the response is the stored balance, or 0 when it is absent. |
| UsersService.GetDoing | src/users/users.service.ts:96-118 | A missing user gets 404. An absent flag reads as false, and any stored value is returned as it is. |
| UsersService.DeleteCheck | src/users/users.service.ts:124-139 | A deletion is refused with 404 exactly for a missing user, and with DOING EXERCISE exactly when `doing` is strictly `true`. |
| UsersService.DeleteRefusedIffDoing | src/users/users.service.ts:133-139 | Deletion is refused for a workout in progress exactly when `getDoing` reports `true`. |
| UsersService.DeleteUserInfo | src/users/users.service.ts:120-150 | A refused deletion changes nothing. Otherwise the profile and the exercise log are removed. The account is removed too when it exists; when it does not, the result is 500 and the first two removals stay. |
| UsersService.StartBlocksDelete | src/users/users.service.ts:133-139 | After a start, `getDoing` reports true and a deletion is refused. |
| UsersService.FinishAllowsDelete | src/users/users.service.ts:133-139 | After a finish that settled some day, `getDoing` reports false and a deletion passes the checks. |
| UsersService.CashesAfterFinish | src/users/users.service.ts:88 | After a finish, the balance reads back as the converted one when some day other than today was settled, and as before otherwise. |

## Left out

- Concurrency. `finishUserExerciseActivity` starts its per-day callbacks with `forEach(async …)` and
  never awaits them. The model runs the transactions of each day one after another, oldest day
  first, and then clears `doing`. Interleavings with other requests are not modelled. Neither are
  transaction retries: the first call with a null value, and a retried closure that would read the
  shared `tmpPoints` of a later day.
- ExerciseService.FinishUserExerciseActivity: the response is the aggregate of the newest bucket,
  which matches the synchronous part of the callbacks. Whether the awaited transactions see each
  other's writes is not modelled (see the concurrency line above).
- Timezones and the Date library. The split of an instant into local calendar fields is the
  parameter `decompose`. Years before 0 are not modelled, because the calendar fields are natural
  numbers. `padStart` of a negative year would keep its minus sign.
- Each request reads the clock once (`now`). The source reads it up to three times in a trace
  (`dateStr`, `timeStr` and the calculator's `new Date()`), so a request that straddles midnight
  could mix two days.
- Negative velocity, weight or movement time. The request body accepts any number, and a negative
  velocity gives a negative MET and negative kcal (velocity −2.0 gives a MET of −0.6). The MET and
  kcal monotonicity lemmas are stated for non-negative inputs only, because they are false for
  negative ones.
- IEEE-754 arithmetic. Velocities, weights, points and kcal are exact reals, so rounding error, NaN
  and Infinity do not arise.
- Calculator.CalcPoints: requires every minimum velocity in the policy to be non-zero. With a zero
  minimum, a velocity between the thresholds would divide by zero (Infinity in the source).
- ExerciseService.SendUserActivityTrace: inherits the non-zero-minimum requirement of
  `CalcPoints`.
- The policy table is a function from (band, sex) to a threshold pair. Arrays of other lengths are
  not modelled. Neither are other property names that would resolve through the object prototype.
- A user node that is a truthy scalar (a non-empty string, a non-zero number) is not modelled.
  `Datastore.UserNode` has objects and falsy scalars only. Stored field values of the wrong type,
  for example a `birth` that is not a string, are not modelled either.
- In `finishUserExerciseActivity`, the second `exists()` test repeats the first one and cannot fail,
  so it is not modelled separately. In `getUserExerciseRecord`, the second "no record" branch is
  covered by the same `None` result, since a node that exists is never falsy there.
- Datastore failures (permission denial, network errors) are not injected into the operations. The
  classifiers that would handle them are modelled (`Errors.CommonThrow`, `Errors.RethrowOrMap`). The
  only collaborator failures that are modelled are the mailer's (`AuthService.MailOutcome`) and
  deleting an unknown account.
- Mail contents (subject, HTML body, sender) and delivery are not modelled. Only the outcome enters.
- The SHA-256 digest is the parameter `hash`, and it is not assumed to be injective.
- The server timestamp `createdAt` of a verification record is not modelled, because nothing reads
  it.
- `updatePassword` of the auth service is not part of this model: it only calls the identity
  provider.
- Logging, DTO validation, HTTP routing and response messages are not modelled.
- Time keys whose hour starts with 0 are not integer-like, so `Object.keys` lists them in insertion
  order. The bucket sums are order-independent (`Settlement.TotalRemove`), so nothing depends on
  that order.
- Day keys that are not integer-like are not modelled. `Object.keys` would list them after the
  integer-like ones, in insertion order. A year below 1000 gets a leading zero ("0999…"), a negative
  year a minus sign, and an Invalid Date (an instant beyond ±8.64e15 ms) gives "NaN…" keys.
  `Keys.Less` treats every day key as integer-like.
- Array indices stop at 2^32 − 2. A day key of ten digits at or above 4294967295 would not be
  integer-like, but no valid Date reaches it: the largest year is 275760.
