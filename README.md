# Remindery authentication core in Dafny

This project models the server side of Remindery's phone-number authentication:

- the OTP collection: its schema, its `(phoneNumber, purpose)` lookup key and its TTL sweep;
- the four forgot-password handlers: request, verify, reset and resend;
- registration, login, and the `isLoggedIn` middleware.

The OTP collection and the user collection are classes whose record sequences the handlers update in place. Each handler is a method. Its postcondition gives, for every branch of the source, the response and the new contents of both collections. Login and token extraction compute values without changing state, so they are functions.

Conventions:

- A request-body field is a string. The empty string stands for a field that is missing or empty, since JavaScript treats both as falsy.
- Time is a parameter `now`, in milliseconds since the epoch.
- `Math.random()` is replaced by a parameter `draw`, which stands for `floor(Math.random() * 900000)`.
- bcrypt (`hash`, `compare`) and jsonwebtoken (`sign`, `verify`) are function-typed parameters and are not interpreted.
- A collection is a sequence in insertion order. `findOne` returns the first matching record.

The main invariant is `OtpModel.KeysUnique`: each `(phoneNumber, purpose)` key has at most one record. Every handler preserves it, and no handler touches any other key. Under that invariant, a key's lifecycle phase (`Absent`, `Pending`, `Verified`) decides what each lookup finds. The scenario methods in `ForgotPassword` chain several handler calls and are proved from the handlers' contracts alone:

- a superseded code is refused;
- request, verify, reset leaves the key empty;
- an expired code is refused, with or without a TTL sweep in between;
- resend is throttled by the cooldown.

Three behaviours of the code that a reader may not expect, all kept by the model:

- The resend cooldown applies to any forgot-password record of the phone, verified or not. It is not limited to a pending one (`server/Controllers/forgotPassword.js:230-246`).
- Reset accepts a verified record without re-checking its expiry (`server/Controllers/forgotPassword.js:160-171`). No handler deletes a verified record because it has expired: `verifyOTP` only looks at unverified records. An expired verified record goes with the TTL sweep, with a new request or resend (both run `deleteMany` first), or with a successful reset.
- Reset answers 404 "User not found" when the account has disappeared (`server/Controllers/forgotPassword.js:174-180`). On success it deletes every forgot-password record of the phone.

## Model

| member | source | states |
|---|---|---|
| Decimal.FromNat | server/Controllers/forgotPassword.js:7 | the rendering of a natural number is non-empty, all digits, and has no leading zero unless the number is zero, which is what `toString` gives for integers below 10^21 |
| Decimal.ToNatFromNat | server/Controllers/forgotPassword.js:7 | reading a rendered number back gives the number |
| Decimal.FromNatToNat | server/Controllers/forgotPassword.js:7 | every canonical digit string is the rendering of the number it denotes |
| Decimal.FromNatInjective | server/Controllers/forgotPassword.js:7 | different numbers have different renderings |
| Decimal.LengthOfFromNat | server/Controllers/forgotPassword.js:7 | a number in [10^(k-1), 10^k) renders to exactly k digits |
| OtpModel.ParsePurpose | server/Models/otpModel.js:12-16 | the enum validator accepts a string exactly when it is the stored name of a purpose, and maps it to that purpose |
| OtpModel.Instantiate | server/Models/otpModel.js:3-30 | validation fails exactly when phoneNumber or otp is missing or empty, expiresAt is missing, or purpose is outside the enum; the error names each failing required path; on success the given fields are kept and the defaults apply: purpose forgot_password, isVerified false, createdAt now |
| OtpModel.PurposeName | server/Models/otpModel.js:14 | the stored string of each purpose: `forgot_password`, `verification`, `registration`; `ParsePurpose` inverts it |
| OtpModel.FindOne | server/Controllers/forgotPassword.js:82-86 | the result is the first record in insertion order that matches phone, purpose and the optional verified flag; None means no record matches |
| OtpModel.OfKey | server/Models/otpModel.js:33 | a key's records are exactly the stored records with that phone number and purpose |
| OtpModel.RemoveKey | server/Controllers/forgotPassword.js:33 | `deleteMany` keeps exactly the records not of the key |
| OtpModel.RemoveAt | server/Controllers/forgotPassword.js:97 | `deleteOne({_id})` of the found record: one record fewer, the records before it unchanged, the ones after it shifted down by one |
| OtpModel.Unexpired | server/Models/otpModel.js:21-25 | a sweep at time `cutoff` keeps exactly the records with `cutoff <= expiresAt` |
| OtpModel.OfKeyRemoveKey | server/Controllers/forgotPassword.js:33 | after `deleteMany` the key is empty and every other key holds what it held |
| OtpModel.OfKeyUnexpired | server/Models/otpModel.js:24 | the sweep acts on each key independently |
| OtpModel.IssueEffect | server/Controllers/forgotPassword.js:32-46 | after delete-then-insert the key holds exactly the new record, other keys are unchanged, and key uniqueness is preserved |
| OtpModel.ConsumeEffect | server/Controllers/forgotPassword.js:190-191 | consuming a key empties it, leaves other keys alone, and preserves uniqueness |
| OtpModel.OnlyRecordOfKey | server/Models/otpModel.js:33 | with unique keys, a stored record is the only record of its key |
| OtpModel.RemoveAtKey | server/Controllers/forgotPassword.js:96-97 | deleting one record leaves every other key's records unchanged, empties a key whose only record it was, and never enlarges a key |
| OtpModel.RemoveAtEffect | server/Controllers/forgotPassword.js:96-97 | `deleteOne` of a found record touches no other key; with unique keys it empties its own key, and uniqueness is preserved |
| OtpModel.ReplaceAtKey | server/Controllers/forgotPassword.js:113-114 | overwriting a record with one of the same key leaves other keys unchanged and keeps every key's size |
| OtpModel.ReplaceEffect | server/Controllers/forgotPassword.js:113-114 | saving the verified flag touches no other key; with unique keys the key then holds exactly the updated record, and uniqueness is preserved |
| OtpModel.SweepEffect | server/Models/otpModel.js:24 | a sweep preserves key uniqueness and never removes a record that is still valid at any time no earlier than the sweep |
| OtpModel.PhaseByQuery | server/Controllers/forgotPassword.js:160-164 | with unique keys, the unverified, verified and any-record lookups succeed exactly when the key is Pending, Verified, or not Absent, respectively |
| OtpModel.FindSole | server/Controllers/forgotPassword.js:230-233 | when a key holds exactly one record, a lookup on that key finds that record exactly when it matches the filter |
| OtpModel.OtpStore.Save | server/Controllers/forgotPassword.js:40-46 | saving validates the fields as the schema does, appends the record on success, and leaves the store unchanged on failure |
| OtpModel.OtpStore.DeleteMany | server/Controllers/forgotPassword.js:33 | the store afterwards is the old store without the key's records |
| OtpModel.OtpStore.DeleteOne | server/Controllers/forgotPassword.js:97 | the store afterwards is the old store without the found record |
| OtpModel.OtpStore.MarkVerified | server/Controllers/forgotPassword.js:113-114 | only the found record changes, and only its verified flag, which becomes true |
| OtpModel.OtpStore.TtlSweep | server/Models/otpModel.js:24 | the store afterwards holds exactly the unexpired records, and uniqueness is preserved |
| Users.FindByPhone | server/Controllers/forgotPassword.js:24 | the result is the first user with the phone number; None means no user has it |
| Users.FindByPhoneUnique | server/Controllers/register.js:13-16 | when phone numbers are unique, the lookup finds the one user who has the number |
| Users.UserTable.Save | server/Controllers/register.js:18-24 | a new user, with the next id, is appended |
| Users.UserTable.SetPassword | server/Controllers/forgotPassword.js:187-188 | only the given user's password changes |
| ForgotPassword.Outcome.Status | server/Controllers/forgotPassword.js:16-271 | the HTTP status of each handler branch: 200 for the four successes, 404 for an unknown phone number in request and resend and for a missing user in reset, 429 for a refused resend, 400 for every other refusal; the body's `success` is true exactly for 200 |
| ForgotPassword.Outcome.Message | server/Controllers/forgotPassword.js:16-271 | the `message` of each branch, word for word; the 429 message carries the wait in decimal |
| ForgotPassword.GenerateOtp | server/Controllers/forgotPassword.js:6-8 | a code is exactly six digits with no leading zero, and denotes 100000 plus the draw, so it lies in [100000, 999999] |
| ForgotPassword.GenerateOtpInjective | server/Controllers/forgotPassword.js:6-8 | two draws give the same code exactly when they are equal |
| ForgotPassword.WaitSeconds | server/Controllers/forgotPassword.js:236-240 | the reported wait is the least whole number of seconds covering the rest of the one-minute cooldown, between 1 and 60 |
| ForgotPassword.IssueOtp | server/Controllers/forgotPassword.js:32-46 | the key's old records are gone and the key holds exactly one fresh pending record that expires ten minutes after now; other keys are unchanged and uniqueness is preserved |
| ForgotPassword.RequestOtp | server/Controllers/forgotPassword.js:11-66 | 400 without a phone number, 404 for an unknown phone number, otherwise a code is issued; the store changes only when a code is issued |
| ForgotPassword.VerifyOtp | server/Controllers/forgotPassword.js:69-128 | each outcome (missing fields, not found, expired, wrong code, verified) follows the source's check order, with its exact effect on the store; an expired record is deleted; with unique keys, success happens exactly when the key has an unverified, unexpired record with the given code, and leaves the key Verified |
| ForgotPassword.ResetPassword | server/Controllers/forgotPassword.js:131-205 | each of the six outcomes holds exactly under its condition, checked in the source's order; only success rehashes the user's password and deletes the key's records; key and phone uniqueness are preserved |
| ForgotPassword.ResendOtp | server/Controllers/forgotPassword.js:208-280 | 400 or 404 as for a request; 429, with the remaining whole seconds, within a minute of the existing record's creation; otherwise a fresh code is issued; the store changes only when a code is issued |
| ForgotPassword.SupersededCodeRejected | server/Controllers/forgotPassword.js:32-46 | when the two draws differ, after two requests only the second code is stored, and the first code is refused as invalid |
| ForgotPassword.ResetAfterVerification | server/Controllers/forgotPassword.js:159-191 | request, verify in time and reset all succeed; the key is then empty, and verifying the same code again finds nothing |
| ForgotPassword.ExpiredCodeRemoved | server/Controllers/forgotPassword.js:95-102 | verifying after expiry is always refused: if no sweep ran since the expiry, the handler answers "expired" and deletes the record; if a sweep did, the code is "not found"; in both cases a retry finds nothing and the key ends Absent |
| ForgotPassword.ResendCooldown | server/Controllers/forgotPassword.js:229-246 | a resend within a minute of the request is refused with a wait of 1 to 60 seconds and keeps the current code; a later resend replaces it |
| Register.Outcome.Status | server/Controllers/register.js:10-25 | 400 for missing fields, 409 for a phone number in use, 201 on registration |
| Register.Outcome.Message | server/Controllers/register.js:10-25 | the `message` of each of the three branches, word for word |
| Register.RegisterUser | server/Controllers/register.js:7-29 | 400 exactly when username, password or phone is missing; 409 exactly when the phone is taken; otherwise exactly one user with the hashed password is appended, and the lookup then finds that user; phone uniqueness is preserved |
| Register.SameUsernameTwice | server/Controllers/register.js:13-16 | only the phone number is checked for duplicates: two registrations with one username and different phones both succeed |
| Login.Outcome.Status | server/Controllers/login.js:10-29 | 400 for missing fields, 401 for an unknown phone number or a wrong password, 200 when the token is sent |
| Login.Outcome.Message | server/Controllers/login.js:10-20 | the `message` of the two refusals, word for word; one message serves both 401 cases |
| Login.TokenCookie | server/Controllers/login.js:23-28 | the cookie is `token`, httpOnly, strict same-site, lives thirty days (2592000000 ms), and is secure exactly in production |
| Login.LoginUser | server/Controllers/login.js:7-35 | 400 without both fields; success exactly when the phone's user exists and the password matches; an unknown phone and a wrong password give the same 401; the token signs the user's id and phone for thirty days, and when ids are positions that id is the position of the first user with the phone; with unique phones, success means some user has the phone and the password |
| Login.RegisteredUserCanLogIn | server/Controllers/login.js:14-21 | a user just registered logs in with the registration password and gets a token for the new id |
| Login.ResetUserCanLogIn | server/Controllers/login.js:14-22 | after a password reset, the new password logs the user in, and the token names that user's position as its id |
| Auth.StartsWith | server/middleware/isLoggedin.js:8 | `startsWith`: the string begins with the prefix, compared character by character |
| Auth.Split | server/middleware/isLoggedin.js:9 | `split(' ')` gives space-free pieces that, joined with single spaces, give back the string |
| Auth.SplitWord | server/middleware/isLoggedin.js:9 | a space-free string splits to itself |
| Auth.SplitAfterWord | server/middleware/isLoggedin.js:9 | a space-free word followed by a space splits off as the first piece |
| Auth.SplitJoin | server/middleware/isLoggedin.js:9 | splitting undoes joining space-free pieces |
| Auth.FirstPiece | server/middleware/isLoggedin.js:9 | the first piece is the longest space-free prefix |
| Auth.HeaderToken | server/middleware/isLoggedin.js:7-10 | without a case-sensitive "Bearer " prefix there is no header token; with one, the token is the longest space-free run after the prefix |
| Auth.CookieToken | server/middleware/isLoggedin.js:13-15 | the cookie token exists exactly when cookies were parsed and hold a non-empty `token` entry |
| Auth.ExtractToken | server/middleware/isLoggedin.js:6-15 | a non-empty header token wins; otherwise the cookie token is used; there is no token exactly when neither exists |
| Auth.Outcome.Status | server/middleware/isLoggedin.js:17-28 | 401 for both refusals; a passed request gets no status from the middleware |
| Auth.Outcome.Message | server/middleware/isLoggedin.js:17-28 | the `message` of the two refusals, word for word |
| Auth.IsLoggedIn | server/middleware/isLoggedin.js:3-30 | 401 without a token, 401 when verification fails, otherwise `req.user` is the decoded payload and `next` is called exactly once; a refused request is unchanged |

## Left out

- The `catch` branches (status 500), `console.log` and `console.error`, and the development-mode echo of the code: the model has no failing I/O and no logging.
- Decimal.FromNat: JavaScript's `toString` gives exponent form from 10^21 on, and a Number above 2^53 does not hold every integer; the model renders digits for every natural number. It only renders codes below 10^6 and resend waits, which exceed 60 seconds only when a record's `createdAt` lies in the future.
- Concurrency: each handler runs to completion before the next starts. Interleaved requests for the same key are not modelled.
- `Math.random`: replaced by the `draw` parameter, with `0 <= draw < 900000`. Uniformity is not modelled.
- The internals of bcrypt and jsonwebtoken: token expiry and signature checking are left to the `verify` parameter. The salt rounds have no effect in the model.
- Each handler reads the clock once, as `now`. The source reads it separately for the comparison and for the new expiry.
- ForgotPassword.ResetPassword: `newPassword.length` counts UTF-16 code units in JavaScript, while the model counts Dafny characters. The two agree on the Basic Multilingual Plane.
- Request-body fields that are not strings (numbers, objects) are not modelled. Mongoose casting of schema values is not modelled either.
- `server/Models/userModel.js` is not part of this model. A user is the five fields the controllers use, and `_id` is the position at insertion. OTP records are found by position.
- The registration OTP flow (`sendRegistrationOTP`, `verifyAndRegister`, `resendRegistrationOTP`): `server/Routes/registerRoute.js` imports these, but `server/Controllers/register.js` does not define them. Only `registerUser` is modelled.
- Express wiring, routes, `res.status().json()` plumbing, the reminder endpoint and the client app. `server/index.js` installs no cookie parser, so in practice `req.cookies` is undefined. The model keeps the cookie path, with `None` for unparsed cookies.
- The TTL monitor's timing: a sweep is a call at some `cutoff` time, and a sweep that removes only part of the expired records is not modelled. `expires: 0` means a record goes once `expiresAt` has passed.
- MongoDB's natural order is taken to be insertion order for `findOne`.
