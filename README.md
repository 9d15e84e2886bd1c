# WISHPOT backend: OTP registration and credential core, in Dafny

This project models the registration and login core of the WISHPOT backend:

- `Otp` (`otp.dfy`): the one-time-passcode store of `OTPService`. It is a class with the two in-place maps `otpStore` and `otpExpiry`. `GenerateOTP` issues or overwrites a six-digit code with a five-minute expiry. `VerifyOTP` tells missing, expired, mismatched and matching entries apart. It removes the entry when the code has expired or matched, and leaves it on a mismatch. Each method is proved against a pure function on the store value (`Issue`, `Verify`). Lemmas over arbitrary call sequences show three things: the two maps always have the same keys, a code is accepted at most once, and there is no replay.
- `Auth` (`auth.dfy`): `AuthService` over the user repository's contents, which is a sequence of `User` records.
  - `RegisterUser` changes the repository: it checks the username first, then the email, then saves.
  - Lookups, authentication and role retrieval are functions.
  - Authentication gives the same failure for an unknown user and for a wrong password.
- `Controller` (`controller.dfy`): the endpoints of `AuthController` (`register`, `verifyOtp`, `login`, `getRole`), each mapped to its HTTP status. Two client methods run the registration flow from start to end.
- `PrimeLoop` (`primes.dfy`): the trial-division loop of `A.main`. It returns the ten numbers it prints and is proved to return the first ten primes.
- `Dto` (`dto.dfy`) and `Wrappers` (`wrappers.dfy`) hold the request records and the `Option`/`Result`/`Outcome` values that stand for null and for exceptions.

The model takes these as parameters:
- the clock as `now`, in milliseconds;
- the random draw as `r: Draw`, where `0 <= r < 999999`;
- a failed mail delivery as `mailFails`;
- a failed repository `save` as `saveFails`;
- the password encoder and the token issuer as the function values of a `Crypto` record.

Behaviour of the code worth knowing:
- `register` checks only the email, not the username. A second registration with a taken username gets a code, and the conflict surfaces only in `verifyOtp`, after the code has been used up (`DuplicateUsernameScenario`).
- A wrong but unexpired code does not consume the pending entry.
- Codes run from `000000` to `999998`, because `nextInt(999999)` never returns 999999.
- Accounts created through `verifyOtp` get no role (a null role, `None`), because the verification request carries no role (`RegistrationScenario`).

## Model

| member | source | states |
|---|---|---|
| `Otp.ZeroPadded` | src/main/java/com/wishPot/Service/OTPService.java:24 | zero padding to the width gives exactly `width` decimal digits that read back as the value |
| `Otp.FormatCode` | src/main/java/com/wishPot/Service/OTPService.java:24 | `%06d` of a draw is six ASCII digits whose decimal value is the draw |
| `Otp.NeverAllNines` | src/main/java/com/wishPot/Service/OTPService.java:24 | the code `999999` is never issued, because the draw excludes 999999 |
| `Otp.FormatCodeInjective` | src/main/java/com/wishPot/Service/OTPService.java:24 | distinct draws give distinct codes |
| `Otp.Issue` | src/main/java/com/wishPot/Service/OTPService.java:25-26 | after issuing, the email holds the new code and expiry `now + 300000`; every other email's entry is unchanged; equal key sets are preserved |
| `Otp.Verify` | src/main/java/com/wishPot/Service/OTPService.java:42-63 | accepted iff an entry exists, `now <= expiry` and the codes are equal. Missing entry: nothing changes. Expired: entry removed, even on a matching code. Live mismatch: nothing changes. Accepted: entry consumed. Other emails untouched |
| `Otp.OTPService.constructor` | src/main/java/com/wishPot/Service/OTPService.java:16-17 | both maps start empty |
| `Otp.OTPService.GenerateOTP` | src/main/java/com/wishPot/Service/OTPService.java:23-28 | returns the formatted draw; the two maps change exactly as `Issue` says |
| `Otp.OTPService.VerifyOTP` | src/main/java/com/wishPot/Service/OTPService.java:42-63 | the answer and the new maps are exactly those of `Verify`; the two key sets stay equal |
| `Otp.NoReplay` | src/main/java/com/wishPot/Service/OTPService.java:60-62 | after an accepted check, any further check for that email fails, whatever the code and time |
| `Otp.ReissueReplacesCode` | src/main/java/com/wishPot/Service/OTPService.java:25-26 | issuing twice leaves the second code pending; the first code is refused |
| `Otp.ExpiryBoundary` | src/main/java/com/wishPot/Service/OTPService.java:50-54 | a fresh code is accepted at exactly `now + 300000`; one millisecond later it is refused and its entry removed |
| `Otp.After` | src/main/java/com/wishPot/Service/OTPService.java:23-63 | any single call keeps the two maps' key sets equal |
| `Otp.Run` | src/main/java/com/wishPot/Service/OTPService.java:23-63 | after any sequence of calls the two maps' key sets are still equal |
| `Otp.AcceptedAtMostOnce` | src/main/java/com/wishPot/Service/OTPService.java:42-63 | with no new issue for an email, checks for it are accepted at most once, and never when no code is pending |
| `Otp.IssuedCodeAcceptedAtMostOnce` | src/main/java/com/wishPot/Service/OTPService.java:23-63 | whatever the store held before, an issued code is accepted at most once by any later sequence of calls that issues no new code for that email |
| `Auth.FindByUsername` | src/main/java/com/wishPot/Service/AuthService.java:57 | finds a user iff one has that username, and returns the first such user |
| `Auth.FindByEmail` | src/main/java/com/wishPot/Service/AuthService.java:29 | finds a user iff one has that email, and the user found is stored with that email |
| `Auth.IsEmailExists` | src/main/java/com/wishPot/Service/AuthService.java:28-30 | true iff some stored user has the email |
| `Auth.IsUsernameExists` | src/main/java/com/wishPot/Service/AuthService.java:33-35 | true iff some stored user has the username |
| `Auth.NewUser` | src/main/java/com/wishPot/Service/AuthService.java:46-50 | the new account takes the request's username, email and role, and the encoded password |
| `Auth.Register` | src/main/java/com/wishPot/Service/AuthService.java:38-53 | username taken: "Username is already taken!", checked before the email. Email taken: "Email is already registered!". Storage error only when both are free and `save` fails. Success appends exactly one user with the encoded password and the request's role, and keeps usernames and emails unique |
| `Auth.RegisterSucceedsIff` | src/main/java/com/wishPot/Service/AuthService.java:38-53 | registration succeeds iff username and email are both free and `save` does not fail |
| `Auth.AuthenticateUser` | src/main/java/com/wishPot/Service/AuthService.java:56-68 | every failure is the same `UserNotFound("Invalid username or password!")`, for an unknown user and for a wrong password alike. Success yields `generateToken(username)`. With unique usernames, success iff the stored user's password matches |
| `Auth.GetUserRole` | src/main/java/com/wishPot/Service/AuthService.java:71-82 | fails with "User not found!" iff the username is unknown; otherwise returns that username with the stored role |
| `Auth.AuthService.constructor` | src/main/java/com/wishPot/Service/AuthService.java:21-25 | the service is wired with its collaborators and repository contents, and is valid iff those contents have unique usernames and emails |
| `Auth.AuthService.RegisterUser` | src/main/java/com/wishPot/Service/AuthService.java:38-53 | the repository becomes what `Register` computes, or is unchanged and the exception is returned; uniqueness of usernames and emails is preserved |
| `Controller.AuthController.constructor` | src/main/java/com/wishPot/Controller/AuthController.java:22-26 | the controller is wired with the two services it is given |
| `Controller.RegistrationStatus` | src/main/java/com/wishPot/Controller/AuthController.java:83-94 | 200 iff registration succeeded, 409 iff it failed with `UserAlreadyExists`, 500 iff it failed otherwise |
| `Controller.AuthController.Register` | src/main/java/com/wishPot/Controller/AuthController.java:35-53 | a registered email gives 409 with the OTP store unchanged. Otherwise a code is issued first, and the status is 500 if mailing fails (the code stays pending) or 200 if it succeeds |
| `Controller.AuthController.VerifyOtp` | src/main/java/com/wishPot/Controller/AuthController.java:62-95 | the OTP store changes exactly as `Verify` says. A refused code gives 400 and no user is created. Otherwise `registerUser`'s outcome maps to 200, 409 (code already consumed) or 500. 200 iff exactly one user with the submitted username, email and encoded password, and no role, was appended |
| `Controller.AuthController.Login` | src/main/java/com/wishPot/Controller/AuthController.java:105-115 | 200 with `generateToken(username)` iff authentication succeeds; otherwise 401 with no token |
| `Controller.AuthController.GetRole` | src/main/java/com/wishPot/Controller/AuthController.java:124-134 | 404 iff the username is unknown; otherwise 200 with the username and its stored role |
| `Dto.OTPVerificationRequest.Admissible` | src/main/java/com/wishPot/Dto/OTPVerificationRequest.java:17-31 | a request that passes validation has a non-empty email, a username of 3 to 30 characters, a password of at least 8 and a code of exactly 6 |
| `Dto.RequestFromOtp` | src/main/java/com/wishPot/Controller/AuthController.java:75-79 | the registration request built field by field from the verification request: same username, password and email, no role |
| `Dto.PositionalRequest` | src/main/java/com/wishPot/Controller/AuthController.java:75-79 | what a three-argument constructor over the first three declared fields would build: the arguments become username, password and email, and the role is absent |
| `Controller.PositionalBindingSwapsIdentity` | src/main/java/com/wishPot/Controller/AuthController.java:75-79 | were the call as written to bind to the first three declared fields, it would store the email as the username and the username as the email |
| `Controller.RequestFromOtpKeepsIdentity` | src/main/java/com/wishPot/Controller/AuthController.java:75-79 | bound field by field, the new account carries the submitted username, email and encoded password, and no role |
| `Controller.RegistrationScenario` | src/main/java/com/wishPot/Controller/AuthController.java:35-134 | full flow from an empty repository: `register` 200, `verifyOtp` with the mailed code 200. Login with the right password gives 200 and the token; a wrong password gives 401. `getRole` gives 200 with no role |
| `Controller.DuplicateUsernameScenario` | src/main/java/com/wishPot/Controller/AuthController.java:38-89 | a second registration with a taken username and a new email gets 200 from `register`. Its `verifyOtp` gets 409, and retrying the same code gets 400 because the code was consumed |
| `PrimeLoop.NoDivisorFrom` | src/main/java/com/wishPot/A.java:12-17 | the inner loop's verdict from divisor `i`: true iff no `j` with `i <= j` and `j*j <= num` divides `num` |
| `PrimeLoop.TrialDivisionDecidesPrimality` | src/main/java/com/wishPot/A.java:12-17 | no divisor `i` with `2 <= i` and `i*i <= num` iff `num` is prime |
| `PrimeLoop.PrimesBelowExactly` | src/main/java/com/wishPot/A.java:9-23 | what has been printed once the candidate reaches `k` is exactly the numbers below `k` that pass the test, in strictly increasing order |
| `PrimeLoop.FirstTenPrimes` | src/main/java/com/wishPot/A.java:5-23 | by candidate 30, ten numbers have been printed, starting at 2, all prime, increasing, with no prime up to 29 skipped |
| `PrimeLoop.FirstPrimes` | src/main/java/com/wishPot/A.java:4-24 | the loop stops after printing exactly 10 numbers. They start at 2, strictly increase and are all prime, and no prime up to the last is skipped: they are 2, 3, 5, 7, 11, 13, 17, 19, 23, 29 |

## Findings

| source | as written | input that shows it | evidently intended | confidence | as-written member | corrected member |
|---|---|---|---|---|---|---|
| src/main/java/com/wishPot/Controller/AuthController.java:75-79 | `new RegistrationRequest(email, password, username)`, while `RegistrationRequest` declares username, password, email (Dto/RegistrationRequest.java:7-10, four fields in all); `@Data` generates only a no-argument constructor, so the call does not compile against the class as declared. Were a three-argument constructor over the first three declared fields added, the arguments would land in the wrong fields | under that hypothetical constructor, a verification request with email `bob@x.com` and username `bob` would create an account named `bob@x.com` with email `bob` | each field taken from the field of the same name | not executed; the call matches no constructor that `@Data` generates | `Controller.PositionalBindingSwapsIdentity` | `Controller.RequestFromOtpKeepsIdentity` |

## Left out

- Mail delivery (`OTPService.sendOTP`, `JavaMailSender`) is not modelled. Only whether it throws is kept, as the `mailFails` parameter of `Register`.
- `System.currentTimeMillis()` and `new Random()` are parameters (`now`, `r`). Uniform randomness is not modelled.
- `PasswordEncoder` and `JwtUtil` internals are not modelled. They are arbitrary function values, so "the stored password is not the plaintext" holds only as "the stored password is `encode(password)`".
- The repository is an in-memory sequence. Persistence, schema constraints and entity ids are not modelled, and neither is the `User` entity's file, which is not part of this model. A failing `save` is the `saveFails` parameter. Other exceptions that reach the controller's generic handlers (for example from `generateOTP` or `encode`) are not modelled.
- `Auth.FindByUsername`: returns the first match. Spring Data would raise an exception for two users with one username, a state that `RegisterUser` never creates.
- `Auth.FindByEmail`: returns a match when several users share an email, where Spring Data's `Optional` finder would raise an exception. `register` then answers 409 in the model, while the program would fail with 500, since the call at Controller/AuthController.java:38 is outside its `try`. The `AuthService` constructor accepts any repository contents, so this state is reachable in the model.
- `Otp.FormatCode`: `String.format("%06d")` formats with the JVM default locale's digits, so "six ASCII digits" holds only under a locale whose zero digit is `0`.
- Long arithmetic: `now + 300000` is computed on unbounded integers, so the model does not capture the wrap-around of a Java `long`.
- Concurrency: the unsynchronised `HashMap`s and races between concurrent `verifyOtp` calls are out of scope for this sequential model.
- HTTP and Spring: annotations, response messages, CORS and logging are left out. Statuses are an enum.
- Bean validation: the size limits (username 3 to 30, password at least 8, OTP exactly 6) are a precondition of `VerifyOtp`. The `@Email` format check is not modelled.
- `LoginRequest.java`, `RoleResponse` and `AuthenticationResponse` are not part of this model. Their fields are taken from how the services use them.
- `A.main`: `Math.sqrt(num)` is floating point and is modelled as the integer test `i * i <= num`, which agrees for these values. Printing is replaced by returning the printed numbers.
