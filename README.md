# User service: registration, status toggle, distance and weekday listing

A Dafny model of a small Express/MongoDB user API. It covers:

- registration, which validates the body, refuses a used email, stores a
  record with a hashed password and answers with a signed token;
- a bulk status toggle over every user;
- a distance endpoint that validates its query parameters;
- a listing that groups users by the weekday they registered on;
- the bearer-token guard in front of the last three endpoints.

The users collection is `UserController.UserStore`, a class whose `users`
field is a sequence of records. Registration appends to it and the toggle
rewrites it in place. Record ids are positions in the sequence, emails
are unique (`UserModel.WellFormed`) and every status is "active" or
"inactive" (`UserModel.Enumerated`); every operation keeps all three. Request-body
and query values are JavaScript values (`JsValues.JsValue`), so the
handlers' `!x` presence tests keep their JavaScript meaning: `0`, `""`,
`false`, `null` and a missing key all count as absent. The string
built-ins the handlers rely on are modelled in `JsStrings`:

- `split(",")`;
- `replace` with a string pattern, which replaces the first occurrence only;
- `parseInt` with no radix, including leading whitespace, sign, `0x` prefix
  and digit-prefix parsing.

Password hashing, token signing and verification, the haversine utility and
the clock are parameters. `hash`, `sign`, `verify` and `haversine` are
functions the caller supplies, and `now` is the creation time in
milliseconds.

The listing handler's aggregation is `UserListing.Matched`. Its `forEach`
is the method `UserListing.PushMatched`, and its result is a sequence of
`(key, list)` groups in key insertion order. `UserListing.IsGrouping`
states what the answer is: the keys are the distinct `days[n]` in the
order they were first requested, and under each key are the matched users
of that weekday in store order. Lemmas derive what a client sees from
that: which keys exist, that "undefined" is a key exactly when a number is
NaN or out of range (and its list is empty), and that every user appears
exactly once under its weekday's key when that weekday was requested, and
nowhere otherwise.

## Model

| member | source | states |
|---|---|---|
| JsStrings.Split | controllers/userController.js:97 | `split(",")` never returns an empty array, and no piece contains a comma |
| JsStrings.JoinSplit | controllers/userController.js:97 | joining the pieces of `split(",")` with commas gives back the original string |
| JsStrings.SplitJoin | controllers/userController.js:97 | splitting comma-joined comma-free pieces gives back exactly those pieces |
| JsStrings.TrimStart | controllers/userController.js:97 | what `parseInt` reads after skipping blanks does not start with JavaScript whitespace |
| JsStrings.TrimStartSuffix | controllers/userController.js:97 | what is left after skipping is a suffix of the input, and everything skipped is whitespace |
| JsStrings.TrimStartBlanks | controllers/userController.js:97 | a run of whitespace in front of a string that does not start with whitespace is removed, and nothing more |
| JsStrings.DigitPrefix | controllers/userController.js:97 | the digits `parseInt` reads are the longest prefix of digits in the radix |
| JsStrings.DigitPrefixStops | controllers/userController.js:97 | digits followed by a non-digit of the radix: exactly those digits are read |
| JsStrings.ParseInt | controllers/userController.js:97 | `parseInt(n)` with no radix: skip whitespace, read an optional sign, then hexadecimal digits after `0x`/`0X` or decimal digits otherwise; NaN when there is no digit (definition; its laws are the ParseInt rows) |
| JsStrings.ParseIntUnsigned | controllers/userController.js:97 | a string starting with neither whitespace nor a sign is read as an unsigned number |
| JsStrings.ParseIntDecimal | controllers/userController.js:97 | `parseInt` of any integer's decimal rendering gives that integer back |
| JsStrings.ParseIntNoDigits | controllers/userController.js:97 | `parseInt` of "", "abc" and "0x" is NaN |
| JsStrings.ParseIntSkipsBlanks | controllers/userController.js:97 | for any run of whitespace `w` and any `s` not starting with whitespace, `parseInt(w + s)` is `parseInt(s)` |
| JsStrings.ParseIntStopsAtNonDigit | controllers/userController.js:97 | for any non-empty decimal digits `d` and any `t` starting with a non-digit (with no `0x` prefix on `d + t`), `parseInt(d + t)` is the value of `d` |
| JsStrings.ParseIntSign | controllers/userController.js:97 | for any `u`, `parseInt("-" + u)` is the negation of the unsigned number `u` denotes, and `parseInt("+" + u)` is that number |
| JsStrings.ParseIntHex | controllers/userController.js:97 | for any `d`, `parseInt("0x" + d)` and `parseInt("0X" + d)` are the leading hexadecimal digits of `d` read in radix 16, NaN without one |
| JsStrings.IndexOf | middlewares/auth.js:5 | the result is the first occurrence at or after the start, and None means there is no occurrence at all |
| JsStrings.ReplaceFirst | middlewares/auth.js:5 | without an occurrence the string is unchanged; otherwise only the first occurrence is replaced |
| JsStrings.ReplacePrefix | middlewares/auth.js:5 | the pattern at the very start is what gets replaced |
| JsStrings.RemoveFirstEmptyIff | middlewares/auth.js:5-6 | removing a non-empty pattern leaves "" exactly when the string was "" or the pattern itself |
| JsValues.Truthy | controllers/userController.js:11 | the `!x` test: a value is falsy exactly when it is `undefined`, `null`, `false`, `0` or `""` |
| UserModel.UniqueEmails | models/userModel.js:5 | the schema's `unique` index: no two records share an email, compared as unconverted JavaScript values (definition) |
| UserModel.WellFormed | models/userModel.js:5 | a store with unique emails whose ids are the records' creation positions; every operation that changes the store keeps it (definition) |
| UserModel.EmailTaken | controllers/userController.js:14 | `User.findOne({ email })` finds a record: some stored record has exactly that email value, compared without Mongoose's conversion to a string (definition) |
| UserModel.FindById | middlewares/auth.js:10 | a found record is in the store and has that id; None means no record has the id |
| UserModel.FindByIdDense | middlewares/auth.js:10 | with ids handed out in creation order, `findById` finds exactly the ids below the record count, and finds the record at that position |
| UserController.AllFieldsPresent | controllers/userController.js:11 | all six body fields are truthy (definition) |
| UserController.Publish | controllers/userController.js:35-44 | the `data` of a successful registration: the record's public fields, its status and creation time, and the token, with no password field (definition) |
| UserController.PublishIgnoresPassword | controllers/userController.js:35-44 | two records that differ only in their stored hash publish the same data, so the answer reveals nothing of the password |
| UserController.RegisterSpec | controllers/userController.js:9-45 | a falsy field gives 400 "All fields are required"; a used email gives 400 "Email already used"; a password that is not a string, which bcryptjs refuses, gives 500 "Server error"; in all three the store is unchanged; it succeeds exactly when none of these holds; on success it appends one record with the next id, the body's fields, the hash of the password, status "active" and the creation time, and answers with the public fields plus a token signed over the new id; it preserves unique emails, dense ids and two-valued statuses |
| UserController.RegisterRejectsZeroCoordinate | controllers/userController.js:11-12 | a latitude or longitude of 0 is falsy, so that registration is refused and the store is unchanged |
| UserController.RegisterRejectsNumericPassword | controllers/userController.js:17 | a number sent as the password passes the presence test but not the hashing: 500 "Server error", and nothing is stored |
| UserController.RegisterTwiceRejected | controllers/userController.js:14-15 | a second registration with the same body is refused with "Email already used", and only one record holds that email |
| UserController.UserStore.Register | controllers/userController.js:7-45 | the store and the answer after the call are exactly `RegisterSpec` of the store before it, and the store stays well formed |
| UserController.Flip | controllers/userController.js:58 | the new status is "active" or "inactive", and it is "inactive" exactly when the old one was "active" |
| UserController.FlipTwice | controllers/userController.js:58 | flipping twice gives the status back exactly when it is "active" or "inactive"; any other status ends up "inactive" |
| UserController.ToggleAll | controllers/userController.js:54-62 | every record's status is flipped and nothing else about any record changes |
| UserController.ToggleAllInvariants | controllers/userController.js:54-62 | after a toggle every status is "active" or "inactive", and ids and unique emails are kept |
| UserController.ToggleTwice | controllers/userController.js:54-62 | toggling twice restores every record whose status was one of the two values, and leaves any other record "inactive" |
| UserController.ToggleInvolution | controllers/userController.js:54-62 | on a store with two-valued statuses, toggling twice is the identity |
| UserController.UserStore.ToggleStatus | controllers/userController.js:52-64 | the record-by-record loop leaves exactly `ToggleAll` of the old store, which is well formed with two-valued statuses; toggling the new store once more gives the old store back; it answers "All users' status toggled" |
| UserController.QueryValue | controllers/userController.js:76 | a query parameter as JavaScript sees it is truthy exactly when it is present and non-empty |
| UserController.GetDistance | controllers/userController.js:73-85 | it fails exactly when either destination parameter is missing or empty, with 400 "Destination coordinates required"; otherwise it answers "Distance calculated" and the haversine of the caller's stored coordinates and the destination |
| UserListing.DayOfWeek | controllers/userController.js:103 | `$dayOfWeek` is between 1 (Sunday) and 7 (Saturday) |
| UserListing.DayOfWeekNextDay | controllers/userController.js:103 | one day later is the next weekday, and Saturday wraps to Sunday |
| UserListing.DayOfWeekEpoch | controllers/userController.js:103 | the epoch, 1 January 1970, is a Thursday (5) |
| UserListing.DayName | controllers/userController.js:127 | `days[i]` as an object key is "undefined" exactly when `i` is outside 0..6 |
| UserListing.DayKey | controllers/userController.js:122 | `days[num]` as an object key is "undefined" exactly when `num` is NaN or outside 0..6 |
| UserListing.WeekNumbers | controllers/userController.js:97 | one parsed number per comma-separated piece, in order |
| UserListing.WeekNumbersOfDecimals | controllers/userController.js:97 | a parameter written as decimal integers joined by commas is read back as exactly those integers |
| UserListing.PlusOne | controllers/userController.js:108 | `num + 1`, with NaN staying NaN (definition) |
| UserListing.Targets | controllers/userController.js:108 | the `$in` list: one `num + 1` per requested number, in order |
| UserListing.TargetsShift | controllers/userController.js:108 | the `$in` test on `num + 1` is the same as asking whether `week_day - 1` was requested |
| UserListing.Project | controllers/userController.js:102-117 | the `$addFields`/`$project` stages: a record's name, email and `$dayOfWeek` of its creation time (definition) |
| UserListing.Matched | controllers/userController.js:100-118 | the aggregation: the stored users whose `$dayOfWeek` is some `num + 1`, projected to name, email and `week_day`, in store order (definition) |
| UserListing.MatchedWeekDays | controllers/userController.js:100-118 | every user the aggregation returns has a weekday between 1 and 7 |
| UserListing.Dedup | controllers/userController.js:120-123 | the keys the assignments create are the requested keys, each once |
| UserListing.SetEmpty | controllers/userController.js:122 | `grouped[key] = []`: resets an existing key in place, else appends it (definition) |
| UserListing.SetEmptyStep | controllers/userController.js:122 | one assignment `grouped[key] = []` adds the key at the end when it is new, keeps the key order when it is not, and leaves every list empty |
| UserListing.InitKeys | controllers/userController.js:120-123 | the loop creates the distinct keys in first-request order, each with an empty list |
| UserListing.ToEntry | controllers/userController.js:129 | the `{ name, email }` object pushed for a matched user (definition) |
| UserListing.PushKey | controllers/userController.js:128-129 | `if (grouped[key]) grouped[key].push(x)`: appends to the list of an existing key, else changes nothing (definition) |
| UserListing.PushOne | controllers/userController.js:126-130 | one `forEach` step: push the user's name and email under `days[week_day - 1]` (definition) |
| UserListing.PushKeyStep | controllers/userController.js:128-129 | with distinct keys, a push keeps the keys, extends the list under its key, and leaves every other list as it was; a push under a missing key changes nothing |
| UserListing.PushStep | controllers/userController.js:125-131 | one `forEach` step keeps the keys and extends the list of the user's weekday when that key exists; a missing key drops the user |
| UserListing.PushMatched | controllers/userController.js:125-131 | after the `forEach`, each key's list holds exactly the matched users of that weekday, in aggregation order |
| UserListing.IsGrouping | controllers/userController.js:120-131 | what the answer is: the keys are the distinct `days[n]` in first-request order, and each key's list is the matched users of that weekday in aggregation order (definition) |
| UserListing.GetUserListing | controllers/userController.js:94-137 | it fails exactly when `week_number` is missing or empty, with 400 "week_number required"; otherwise it answers "Users grouped by day" and a grouping of the store for the parsed numbers |
| UserListing.GroupingKeys | controllers/userController.js:120-123 | the keys are exactly `days[n]` for the requested numbers, with no key twice |
| UserListing.UndefinedKey | controllers/userController.js:120-131 | "undefined" is a key exactly when some number is NaN or outside 0..6, and its list is always empty |
| UserListing.BucketAbsent | controllers/userController.js:100-131 | a user whose email no record has is never listed |
| UserListing.BucketCount | controllers/userController.js:100-131 | in a store with unique emails, a user is listed once under its weekday when that weekday was requested, and otherwise not at all |
| UserListing.ListingPlacesUser | controllers/userController.js:100-131 | in the answer, a requested user's weekday is a key; each user appears once under that key and under no other key; an unrequested user appears nowhere |
| Auth.ExtractToken | middlewares/auth.js:5 | without the header there is no token; with it, the token is the header with "Bearer " replaced once |
| Auth.DecodedId | middlewares/auth.js:5-9 | the user id a present, non-empty token verifies to, if any (definition) |
| Auth.ExtractTokenShape | middlewares/auth.js:5 | the token is the header with only its first "Bearer " removed, the header itself when it has none, and the rest of the header after a leading "Bearer " |
| Auth.Decide | middlewares/auth.js:4-15 | every rejection is a 401; the request proceeds exactly when the token verifies to an id that a record has, and with that record; the message is "Token missing" for a missing or empty token and otherwise "Invalid token" |
| Auth.TokenMissingIff | middlewares/auth.js:5-6 | "Token missing" comes exactly from a missing header, an empty one, or one that is exactly "Bearer " |
| Auth.ForgedAndMissingUserAlike | middlewares/auth.js:9-14 | a token that fails verification and a verified token whose user is gone get the same 401 "Invalid token" |
| Auth.Request.constructor | middlewares/auth.js:4-10 | Express's `req` as the guard sees it: the Authorization header it reads and a `user` property, empty until the guard assigns it |
| Auth.Authenticate | middlewares/auth.js:4-16 | the guard's outcome is `Decide`; `req.user` is the lookup's result whenever the token verifies, found or not, and is left as it was otherwise |
| Service.RegisteredTokenAuthenticates | controllers/userController.js:30-43 | the token of a successful registration, sent as "Bearer token", lets the request through as the new user, provided verification accepts what signing produces |
| Service.Guarded | routes/userRoutes.js:21-23 | `router.METHOD(path, auth, handler)`: the guard's 401, or the handler run as the resolved user (definition) |
| Service.GuardedOutcome | routes/userRoutes.js:21-23 | the handler runs exactly for a token that verifies to the id of a stored record, and as that record; every other request gets the guard's message with status code 401 |
| Service.NoHeaderNoAccess | routes/userRoutes.js:21-23 | a guarded endpoint called without an Authorization header answers 401 "Token missing" |
| Service.ToggleStatusRoute | routes/userRoutes.js:21 | the guard, then toggleStatus: the answer is `Guarded` with the toggle's answer; the store is toggled when the request got through and left as it was otherwise |
| Service.DistanceRoute | routes/userRoutes.js:22 | the guard, then getDistance from the coordinates of the record the guard resolved: the answer is `Guarded` with `GetDistance` |
| Service.ListingRoute | routes/userRoutes.js:23 | the guard, then getUserListing: a rejected request gets the guard's 401; an admitted one fails exactly when `week_number` is missing or empty, and otherwise answers a grouping of the store |
| Service.WeekNumbersZeroSix | controllers/userController.js:97 | `week_number=0,6` parses to the numbers 0 and 6 |
| Service.SundaySaturdayKeys | controllers/userController.js:120-123 | `week_number=0,6` gives the keys "sunday" then "saturday" |
| Service.SundaySaturdayOnly | controllers/userController.js:100-131 | under `week_number=0,6`, a user registered on any other weekday appears in no list |

## Left out

- The `catch` branches that answer 500 are modelled only for a password that is not a string, which bcryptjs refuses with "Illegal arguments". The model's oracles cannot fail. So it leaves out a database failure and a hashing failure on a string password. The `error` field with the exception's text is not modelled. It also leaves out a signing failure after `User.create`, which would leave the new record stored while answering 500.
- In the auth guard, a database error during `findById` is not modelled. The source answers it with 401 "Invalid token", the same as an unknown id.
- A token whose payload has no `userId` is modelled as one that verifies to no id. The source's `findById(undefined)` also finds nothing, so both answer "Invalid token". The source does set `req.user` to `null` for such a token, while `Auth.Authenticate` leaves it as it was. The request is rejected either way, so no answer changes.
- Mongoose's casting of body values to the schema types (String, Number) is not modelled. Records keep the JavaScript value they were given.
- UserController.RegisterSpec: succeeds, and UserStore.Register stores the record, for bodies that Mongoose cannot cast: a latitude or longitude such as "abc" or an object, or an object as name, email or address. In the source, `User.create` throws a cast error for them, and the handler answers 500 "Server error" with nothing stored. It also succeeds for an email that equals a stored one only after Mongoose converts it to a string, such as `123` after `"123"` or `true` after `"true"`. The source's `findOne` finds the stored record and answers 400 "Email already used", while the model stores a second record.
- Query operators inside the email value (an object such as `{"$ne": ...}` passed to `findOne`) are not modelled. Any object email is compared as a plain value.
- Query parameters given more than once are not modelled. Express then gives an array, and `split` throws, which answers 500.
- The unique index is modelled as a predicate the store keeps. The race between `findOne` and `create` is not modelled: two concurrent registrations with the same email would hit the index and answer 500.
- bcrypt, JWT signing and verification (including `expiresIn: '1d'` and the secret), and the haversine formula in utils/distance are parameters. utils/distance is not part of this model.
- JsStrings.ParseInt: returns an unbounded integer. It does not model double-precision rounding beyond 2^53, and it collapses `-0` to `0`. Both are harmless here: `days[-0]` is `days[0]`, and a number that large is never a day index.
- Strings are sequences of Unicode characters, not UTF-16 code units, so surrogate pairs are not modelled.
- UserListing.Matched: takes the aggregation to return users in store order. MongoDB does not promise an order without `$sort`.
- `$dayOfWeek` is computed in UTC from milliseconds since the epoch, and the Date object itself is not modelled.
- The `status_code` field of the JSON bodies is not modelled. The status is `Response.StatusCode`.
- Express routing itself (path matching, the HTTP methods), the `/test` route, server.js, the database connection and environment loading are not modelled. The three guarded routes are modelled as compositions of the guard and their handler (`Service.ToggleStatusRoute`, `Service.DistanceRoute`, `Service.ListingRoute`), and registration as `UserStore.Register` on its own.
