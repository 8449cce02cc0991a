# HoReCa call system — a Dafny model

HoReCa lets a restaurant guest scan the QR code on a table and press "call
the waiter" or "ask for the bill" on their phone; staff see the open calls
on a dashboard and resolve them. This project models the decision logic of
the Spring backend and of the React front end as pure functions over
immutable datatypes, and proves what that logic promises:

- the password policy of `PasswordEncoder.isPasswordValid`;
- the login lockout of `AuthController` (five failures, fifteen minutes);
- the table session lifecycle of `Session`, `SessionService` and
  `SessionRepository`: creation, validation, the deactivating side effect
  of `isExpired`, the periodic sweep, and the scheduled deletion of
  expired sessions in `SessionCleanupTask`;
- call placement and resolution in `CallController`, `CallService` and
  `CallRepository`: the guard chain, the per-table-and-kind three-minute
  cooldown, the auto-resolve of calls ten minutes old, and the open-call
  queries;
- administrator and table management in `UserController`,
  `TableController` and `TableService`, with the exact status of every
  step and the cascade from a table to its calls;
- the guest page (`ClientPage.jsx`) as a state machine over its route,
  its stored QR identifier and its flags;
- the dashboard's list transforms (`AdminDashboard.jsx`), the announced
  call set (`useCallNotifications.js`), and translation lookup with
  `{{name}}` substitution (`TranslationContext.jsx`).

Conventions:

- Clocks are integer milliseconds, passed as parameters. Where one request
  reads the clock more than once, `CallController` takes one parameter per
  reading; the other places use a single reading, and "## Left out" names
  each of them.
- Generated UUIDs and ids, the Argon2 hasher (`Encoder`) and its verifier
  (`Matcher`) are also parameters.
- A Java `null` is `Option`, and a thrown exception is `Result.Err` with
  its message.
- An HTTP reply is `Response(status, body)`. The body is text, a
  serialized value, nothing, or the framework's default error page.
- A repository is the sequence of its rows in `findAll` order. Each
  operation returns its reply together with the rows afterwards.
- Timers and fetch replies in the front end are events; requests,
  navigation and timers started are effects.

Timing in the front end, as the code has it:

- the dashboard polls every 10000 ms (`AdminDashboard.jsx:11-13`,
  `AdminDashboard.POLL_INTERVAL`);
- a call the server has resolved is missing from the next poll
  (`AdminDashboard.NextPollDropsResolved`), which comes before the
  30000 ms removal timer of `AdminDashboard.jsx:32-34`;
- the guest page's 180000 ms cooldown (`ClientPage.jsx:170-171`) disables
  both buttons (lines 220 and 231), while the server's cooldown is per
  table and kind (`CallService.java:34`).

## Model

| member | source | states |
|---|---|---|
| JavaString.Utf16Length | HoReCa/src/main/java/mk/scan/horeca/controller/UserController.java:49 | `String.length()` counts UTF-16 units: between the number of characters and twice that, and exactly the number of characters when all lie in the Basic Multilingual Plane |
| JavaString.IsBlank | HoReCa/src/main/java/mk/scan/horeca/controller/TableController.java:114 | `isBlank()` is true exactly when every character is Java whitespace, the empty string included |
| JavaString.StartsWith | HoReCa/src/main/java/mk/scan/horeca/controller/TableController.java:107 | `startsWith` holds exactly when the prefix fits and agrees character by character, and then the string is the prefix followed by its rest |
| JavaString.Trim | HoReCa/src/main/java/mk/scan/horeca/controller/UserController.java:66 | `trim()` returns a contiguous piece of the name that is preceded and followed only by characters at or below U+0020, and that itself starts and ends above U+0020 |
| JavaString.TrimOfTrimmed | HoReCa/src/main/java/mk/scan/horeca/controller/UserController.java:66 | a name that already starts and ends with a visible character is stored unchanged |
| JavaString.UpperCase | HoReCa/src/main/java/mk/scan/horeca/controller/CallController.java:67 | upper-casing keeps the length and maps each character on its own |
| PasswordEncoder.IsPasswordValid | HoReCa/src/main/java/mk/scan/horeca/util/PasswordEncoder.java:36-55 | a password is accepted exactly when it is non-null and acceptable: 8 to 128 UTF-16 units, no weak prefix in any ASCII letter case, no line terminator, and at least one digit, one a-z, one A-Z and one listed special character |
| PasswordEncoder.MatchesClassSomewhereIff | HoReCa/src/main/java/mk/scan/horeca/util/PasswordEncoder.java:51-54 | under whole-string matching, `.*[k].*` matches exactly the strings free of line terminators that contain a character of class k |
| PasswordEncoder.WeakPatternIff | HoReCa/src/main/java/mk/scan/horeca/util/PasswordEncoder.java:47 | on a string without line terminators the weak-word pattern is the plain case-insensitive prefix test |
| PasswordEncoder.MatchesIff | HoReCa/src/main/java/mk/scan/horeca/util/PasswordEncoder.java:47-54 | the four composition patterns and the weak-word pattern agree with their regex-free readings |
| PasswordEncoder.AcceptedLengthBounds | HoReCa/src/main/java/mk/scan/horeca/util/PasswordEncoder.java:37-44 | null is rejected, and every accepted password has 8 to 128 UTF-16 units |
| PasswordEncoder.LineTerminatorRejected | HoReCa/src/main/java/mk/scan/horeca/util/PasswordEncoder.java:51-54 | a line terminator anywhere in the password rejects it |
| PasswordEncoder.AcceptedWhen | HoReCa/src/main/java/mk/scan/horeca/util/PasswordEncoder.java:37-54 | a printable password of allowed length with all four classes and no weak prefix is accepted |
| PasswordEncoder.RejectedLength | HoReCa/src/main/java/mk/scan/horeca/util/PasswordEncoder.java:37-44 | a printable password shorter than 8 or longer than 128 is rejected whatever it contains |
| PasswordEncoder.ShortestLengthBoundary | HoReCa/src/main/java/mk/scan/horeca/util/PasswordEncoder.java:37-39 | the 8-character "Abcdef1!" is accepted and the 7-character "Abcde1!" is not: the lower bound is inclusive |
| PasswordEncoder.LongestLengthBoundary | HoReCa/src/main/java/mk/scan/horeca/util/PasswordEncoder.java:42-44 | "Abcdef1!" padded to 128 characters is accepted and padded to 129 is not: the upper bound is inclusive |
| PasswordEncoder.WeakPrefixRejected | HoReCa/src/main/java/mk/scan/horeca/util/PasswordEncoder.java:47-49 | a weak word at the start rejects the password in mixed letter case |
| PasswordEncoder.WeakWordInsideAccepted | HoReCa/src/main/java/mk/scan/horeca/util/PasswordEncoder.java:47-49 | a weak word that does not start the password does not reject it |
| PasswordEncoder.NotWeak | HoReCa/src/main/java/mk/scan/horeca/util/PasswordEncoder.java:47 | a string whose first letters differ from those of every weak word has no weak prefix |
| AdminEntity.FindByUsername | HoReCa/src/main/java/mk/scan/horeca/controller/AuthController.java:47 | `findByUsername` finds no row exactly when no stored admin has the name, one stored admin with the name, or, exactly when two rows share the name, the exception a single-result query throws |
| AdminEntity.FindByUsernameUnique | HoReCa/src/main/java/mk/scan/horeca/controller/AuthController.java:47 | with unique names the lookup of a stored admin's name returns that admin |
| AdminEntity.FindById | HoReCa/src/main/java/mk/scan/horeca/controller/UserController.java:95 | the lookup finds nothing exactly when no stored admin has the id, and otherwise a stored admin with that id |
| AdminEntity.FindByIdUnique | HoReCa/src/main/java/mk/scan/horeca/controller/UserController.java:95-100 | with unique ids the lookup returns the one admin holding the id |
| AuthController.IsAccountLocked | HoReCa/src/main/java/mk/scan/horeca/controller/AuthController.java:73-85 | the answer is true exactly while now is before the lockout instant plus 15 minutes; a lockout that ran out is removed together with its counter, and nothing else changes |
| AuthController.RecordFailedAttempt | HoReCa/src/main/java/mk/scan/horeca/controller/AuthController.java:87-94 | the counter goes up by one from its default 0, and from the fifth failure on the lockout instant is set to now |
| AuthController.ResetFailedAttempts | HoReCa/src/main/java/mk/scan/horeca/controller/AuthController.java:96-99 | both entries of the username are gone and every other username's entries are kept |
| AuthController.CheckPassword | HoReCa/src/main/java/mk/scan/horeca/controller/AuthController.java:47-70 | 200 exactly when one account has the name and the hash matches, with that account's id and name and a cleared record; an unknown name or a wrong password gives 401 with one more failure, locking at the fifth, and no hash is checked for an unknown name; a name held by two accounts gives the framework's 500 with nothing recorded; other usernames untouched |
| AuthController.Login | HoReCa/src/main/java/mk/scan/horeca/controller/AuthController.java:34-71 | a missing field gives 400 and a lockout in force gives 423, both with the state unchanged; otherwise the lookup and the password decide, starting from the count left after an expired lockout was lifted; other usernames never change |
| AuthController.LoginKeepsConsistent | HoReCa/src/main/java/mk/scan/horeca/controller/AuthController.java:34-99 | counters stay between 1 and 5, and a username is locked exactly when its counter is 5, across every login |
| AuthController.UnlockKeepsConsistent | HoReCa/src/main/java/mk/scan/horeca/controller/AuthController.java:73-85 | lifting an expired lockout keeps the invariant and leaves the name unlocked with fewer than 5 failures |
| AuthController.CheckPasswordKeepsConsistent | HoReCa/src/main/java/mk/scan/horeca/controller/AuthController.java:50-59 | checking a password for an unlocked name keeps the invariant |
| AuthController.LoginFailureCounts | HoReCa/src/main/java/mk/scan/horeca/controller/AuthController.java:50-55 | a wrong password or unknown name for an unlocked name gives 401, adds exactly one failure, and locks the name at now exactly when the count reaches 5 |
| AuthController.LoginSuccessClears | HoReCa/src/main/java/mk/scan/horeca/controller/AuthController.java:58-70 | an accepted login returns the stored account's id and name and clears both entries of the name |
| AuthController.FailuresCount | HoReCa/src/main/java/mk/scan/horeca/controller/AuthController.java:87-94 | from a clean record, n ≤ 5 wrong passwords leave a count of n, and the name is locked at the instant of the fifth exactly when n is 5 |
| AuthController.LockoutWindow | HoReCa/src/main/java/mk/scan/horeca/controller/AuthController.java:73-85 | before lockout plus 15 minutes every login of the name gets 423, even with the right password; from then on the right password succeeds and clears the record |
| AuthController.FiveFailuresLock | HoReCa/src/main/java/mk/scan/horeca/controller/AuthController.java:73-94 | after five failures any login of the name gets 423 exactly until 15 minutes after the fifth |
| AuthController.SharedNameAnswers500 | HoReCa/src/main/java/mk/scan/horeca/controller/AuthController.java:47-51 | once two accounts share a name, every login of it that is not locked out gets the framework's 500, whatever the password, and no failure is counted |
| AuthController.UniqueNamesNever500 | HoReCa/src/main/java/mk/scan/horeca/controller/AuthController.java:47 | with unique names no login is answered 500 |
| SessionEntity.NewSession | HoReCa/src/main/java/mk/scan/horeca/model/Session.java:22-31 | a new session is bound to its table and token, is active, and expires one minute after it is created |
| SessionEntity.IsExpired | HoReCa/src/main/java/mk/scan/horeca/model/Session.java:33-40 | expired exactly when now is strictly after the expiry; an expired session comes back inactive, and nothing else changes |
| SessionEntity.IsValid | HoReCa/src/main/java/mk/scan/horeca/model/Session.java:43-45 | valid exactly when active and now is not after the expiry; afterwards the session is active exactly when it was valid |
| SessionEntity.IsExpiredOnlyDeactivates | HoReCa/src/main/java/mk/scan/horeca/model/Session.java:33-40 | `isExpired` never turns a session on and touches only the active flag |
| SessionEntity.ExpiryInstantNotExpired | HoReCa/src/main/java/mk/scan/horeca/model/Session.java:34 | the exact expiry instant is not expired and changes nothing; one millisecond later is expired |
| SessionEntity.NewSessionValidity | HoReCa/src/main/java/mk/scan/horeca/model/Session.java:26-45 | a new session is valid from creation up to and including one minute later, and never after |
| SessionEntity.IsValidStable | HoReCa/src/main/java/mk/scan/horeca/model/Session.java:43-45 | asking twice at the same instant gives the same answer, and the second call changes nothing |
| SessionRepository.FindByToken | HoReCa/src/main/java/mk/scan/horeca/repository/SessionRepository.java:15 | `findByToken` (and `getSessionByToken`, which delegates to it) finds nothing exactly when no stored session has the token, and otherwise a stored session with that token |
| SessionRepository.FindByTokenUnique | HoReCa/src/main/java/mk/scan/horeca/model/Session.java:16 | with the unique token column the lookup returns the one session holding the token |
| SessionRepository.DeleteByExpiresAtBefore | HoReCa/src/main/java/mk/scan/horeca/repository/SessionRepository.java:18 | exactly the sessions expiring strictly before now are removed, active or not; the others keep their multiplicity |
| SessionRepository.FindAllByActiveTrue | HoReCa/src/main/java/mk/scan/horeca/repository/SessionRepository.java:20 | exactly the active sessions, with their multiplicity |
| SessionRepository.DeletePreservesUniqueTokens | HoReCa/src/main/java/mk/scan/horeca/repository/SessionRepository.java:18 | the delete keeps tokens unique |
| SessionService.CreateNewSession | HoReCa/src/main/java/mk/scan/horeca/service/SessionService.java:29-49 | fails with "Table not found" exactly when no table has the identifier; otherwise the session is appended bound to that table, active, expiring one minute later, and every stored session, active or not, is kept |
| SessionService.ValidateSession | HoReCa/src/main/java/mk/scan/horeca/service/SessionService.java:52-57 | true only if some session with the token is active and unexpired; with unique tokens, exactly then |
| SessionService.ExpireSession | HoReCa/src/main/java/mk/scan/horeca/service/SessionService.java:65-68 | only the active flag of the session with that token changes, to false |
| SessionService.ValidateAgrees | HoReCa/src/main/java/mk/scan/horeca/service/SessionService.java:52-57 | stores that agree on tokens and on which sessions holding the token are usable give the same verdict |
| SessionService.ExpireSessionEffect | HoReCa/src/main/java/mk/scan/horeca/service/SessionService.java:65-68 | an expired token never validates again, and every other token keeps its verdict |
| SessionService.CleanupExpiredSessions | HoReCa/src/main/java/mk/scan/horeca/service/SessionService.java:73-80 | exactly the active sessions past expiry are switched off, unexpired ones stay active, nothing is deleted, and no token's verdict at that instant changes |
| SessionService.CreatedSessionValidates | HoReCa/src/main/java/mk/scan/horeca/service/SessionService.java:29-57 | with a fresh token, tokens stay unique and the new token validates exactly until one minute after creation |
| UserController.GetAllUsers | HoReCa/src/main/java/mk/scan/horeca/controller/UserController.java:26-37 | one entry per admin, in order, with its id and name and no hash |
| UserController.GetAllUsersKeepsIds | HoReCa/src/main/java/mk/scan/horeca/controller/UserController.java:26-37 | distinct stored ids stay distinct in the listing |
| UserController.CreateRequestError | HoReCa/src/main/java/mk/scan/horeca/controller/UserController.java:44-58 | the request passes exactly when both fields are present, the name as typed has 3 to 50 UTF-16 units and the password is valid; missing fields and a bad length give their messages first |
| UserController.CreateUser | HoReCa/src/main/java/mk/scan/horeca/controller/UserController.java:40-72 | 200 exactly when the request passes and no admin has the name as typed, appending one admin with the trimmed name and the encoded password; a name held by one admin gives 400 "Username already exists", by two the framework's 500; every refusal leaves the store unchanged |
| UserController.CreateUserAppends | HoReCa/src/main/java/mk/scan/horeca/controller/UserController.java:65-71 | a request passing every check appends exactly one account and answers "User created successfully" |
| UserController.CreateUserDuplicatesTrimmedName | HoReCa/src/main/java/mk/scan/horeca/controller/UserController.java:61-66 | as written, " " + a stored name passes the check and leaves two admins with the same name |
| UserController.DuplicateNameLocksOwnerOut | HoReCa/src/main/java/mk/scan/horeca/controller/UserController.java:61-69 | after the trimmed duplicate is stored, every login of the original name that is not locked out gets the framework's 500, and so does creating the name again |
| UserController.CreateUserTrimmedCheck | HoReCa/src/main/java/mk/scan/horeca/controller/UserController.java:61-66 | with the check made on the trimmed name, 200 exactly when no admin has the name that is stored; one holder gives 400, two the framework's 500, with the store unchanged |
| UserController.CreateUserTrimmedCheckKeepsUnique | HoReCa/src/main/java/mk/scan/horeca/controller/UserController.java:61-69 | on a store with unique names the corrected creation never answers 500, keeps usernames unique, and keeps ids unique when the new id is fresh |
| UserController.SetPassword | HoReCa/src/main/java/mk/scan/horeca/controller/UserController.java:108-109 | only the admin with that id gets the new hash; every other row and the length are unchanged |
| UserController.UpdateRequestError | HoReCa/src/main/java/mk/scan/horeca/controller/UserController.java:79-93 | the request passes exactly when both fields are present, the new password is valid and differs from the old one |
| UserController.UpdateUserPassword | HoReCa/src/main/java/mk/scan/horeca/controller/UserController.java:75-112 | a request refused on its content is 400 with its message before any lookup; then 404 with no body exactly for a missing id, 400 "Old password is incorrect" when the old password does not match, and otherwise 200 with only that admin's hash replaced |
| UserController.UpdateRejectsBeforeLookup | HoReCa/src/main/java/mk/scan/horeca/controller/UserController.java:79-95 | a request refused for its content gets the same 400 whatever the store and the id |
| UserController.UpdateTakesEffect | HoReCa/src/main/java/mk/scan/horeca/controller/UserController.java:103-109 | after a successful change the account is found again holding the hash of the new password |
| UserController.NewPasswordUnlocksNextChange | HoReCa/src/main/java/mk/scan/horeca/controller/UserController.java:103-109 | when the matcher recognises its own hashes, the new password is accepted as the old one of a further change |
| UserController.SetPasswordFound | HoReCa/src/main/java/mk/scan/horeca/controller/UserController.java:95-109 | with unique ids the account found after the change is the one found before, with the new hash |
| UserController.DeleteUser | HoReCa/src/main/java/mk/scan/horeca/controller/UserController.java:115-123 | 404 with no body exactly when no admin has the id; otherwise exactly the admins with that id are removed and the store shrinks |
| UserController.DeleteUserKeepsUnique | HoReCa/src/main/java/mk/scan/horeca/controller/UserController.java:115-122 | deletion keeps usernames and ids unique |
| CallEntity.TypeName | HoReCa/src/main/java/mk/scan/horeca/service/CallService.java:42 | an enum constant's name is never empty |
| CallEntity.ParseCallType | HoReCa/src/main/java/mk/scan/horeca/controller/CallController.java:65-70 | a type parses exactly when its upper-case form is WAITER or BILL, to the constant of that name |
| CallEntity.ParseTypeNameRoundTrip | HoReCa/src/main/java/mk/scan/horeca/controller/CallController.java:67 | every constant's name parses back to it |
| CallEntity.ParseClientNames | HoReCa/src/main/java/mk/scan/horeca/controller/CallController.java:67 | "waiter" and "bill" parse to WAITER and BILL |
| CallEntity.ParseIgnoresCase | HoReCa/src/main/java/mk/scan/horeca/controller/CallController.java:67 | strings that differ only in letter case parse alike |
| CallOrder.SortNewestFirst | HoReCa/src/main/java/mk/scan/horeca/repository/CallRepository.java:13 | the result is newest first and a permutation of the input |
| CallOrder.SortSorted | frontend/src/pages/AdminDashboard.jsx:77 | a list already newest first is left as it is |
| CallOrder.SortIdempotent | frontend/src/pages/AdminDashboard.jsx:77 | sorting twice is sorting once |
| CallOrder.HeadIsNewest | HoReCa/src/main/java/mk/scan/horeca/repository/CallRepository.java:14-16 | the first of a newest-first list is at least as new as every element |
| CallRepository.FindById | HoReCa/src/main/java/mk/scan/horeca/service/CallService.java:71 | finds nothing exactly when no call has the id, otherwise a stored call with it |
| CallRepository.FindByResolvedFalseOrderByCreatedAtDesc | HoReCa/src/main/java/mk/scan/horeca/repository/CallRepository.java:13 | exactly the unresolved calls with their multiplicity, newest first |
| CallRepository.FindTopByTableAndTypeAndResolvedFalse | HoReCa/src/main/java/mk/scan/horeca/repository/CallRepository.java:14-16 | nothing exactly when the table has no open call of that kind; otherwise an open call of that table and kind at least as new as every other |
| CallRepository.FindByResolvedFalseAndCreatedAtAfter | HoReCa/src/main/java/mk/scan/horeca/repository/CallRepository.java:17 | exactly the unresolved calls made strictly after the cutoff, with their multiplicity, newest first |
| CallRepository.DeleteAllByTableId | HoReCa/src/main/java/mk/scan/horeca/repository/CallRepository.java:19 | exactly the calls of that table go; the others keep their multiplicity |
| CallRepository.SetResolved | HoReCa/src/main/java/mk/scan/horeca/service/CallService.java:71-73 | only the calls with that id change, and only in the resolved flag, which becomes true |
| CallRepository.SaveResolved | HoReCa/src/main/java/mk/scan/horeca/service/CallService.java:47-48 | only the rows holding the loaded call change, to that call marked resolved |
| CallRepository.SetResolvedIdempotent | HoReCa/src/main/java/mk/scan/horeca/service/CallService.java:70-73 | marking twice is marking once |
| CallRepository.ResolvedLeavesOpenQueries | HoReCa/src/main/java/mk/scan/horeca/repository/CallRepository.java:13-17 | after marking an id resolved neither open-call query returns a call with that id |
| CallService.CooldownMessage | HoReCa/src/main/java/mk/scan/horeca/service/CallService.java:42 | the exception text names the kind and the three minutes |
| CallService.AutoResolve | HoReCa/src/main/java/mk/scan/horeca/service/CallService.java:45-49 | nothing changes unless the newest open call of that table and kind is ten minutes old or more; then that call is replaced by its resolved copy, and only stale open calls of that table and kind are ever touched |
| CallService.CreateCall | HoReCa/src/main/java/mk/scan/horeca/service/CallService.java:29-64 | refused with the cooldown message exactly when an open call of that table and kind is younger than three minutes; otherwise the store is the auto-resolved store plus one open call with the given table and kind made at now |
| CallService.SecondCallWithinCooldownRefused | HoReCa/src/main/java/mk/scan/horeca/service/CallService.java:34-43 | a second call of the same table and kind within three minutes of an accepted one is refused |
| CallService.OtherCallsNeverBlock | HoReCa/src/main/java/mk/scan/horeca/service/CallService.java:34 | a call of another kind or another table never changes whether a call is refused |
| CallService.CallAfterCooldownAccepted | HoReCa/src/main/java/mk/scan/horeca/service/CallService.java:36-43 | once every open call of that table and kind is three minutes old, a call is accepted |
| CallService.StaleCallAutoResolved | HoReCa/src/main/java/mk/scan/horeca/service/CallService.java:41-49 | a newest open call ten minutes old or more ends up resolved; one between three and ten minutes old is left as it was |
| CallService.GetActiveCalls | HoReCa/src/main/java/mk/scan/horeca/service/CallService.java:66-68 | all unresolved calls with their multiplicity, newest first |
| CallService.Resolve | HoReCa/src/main/java/mk/scan/horeca/service/CallService.java:70-78 | fails with "No value present" exactly when no call has the id; otherwise returns that call resolved and marks only that id |
| CallService.ResolveIdempotent | HoReCa/src/main/java/mk/scan/horeca/service/CallService.java:70-73 | resolving again succeeds and changes nothing more |
| CallService.ResolvedNotActive | HoReCa/src/main/java/mk/scan/horeca/service/CallService.java:66-73 | a resolved call is no longer in the active list |
| CallService.GetRecentActiveCalls | HoReCa/src/main/java/mk/scan/horeca/service/CallService.java:80-83 | exactly the unresolved calls made strictly within the last ten minutes, newest first |
| CallService.RecentWithinActive | HoReCa/src/main/java/mk/scan/horeca/service/CallService.java:66-83 | the recent list is contained in the active list, counting repeats |
| TableEntity.FindByQrIdentifier | HoReCa/src/main/java/mk/scan/horeca/repository/TableRepository.java:8 | finds nothing exactly when no table has the identifier, otherwise a stored table with it |
| TableEntity.FindByQrIdentifierUnique | HoReCa/src/main/java/mk/scan/horeca/model/TableEntity.java:17 | with unique identifiers the lookup returns the one table holding the identifier |
| TableEntity.DeleteById | HoReCa/src/main/java/mk/scan/horeca/service/TableService.java:40 | exactly the tables with that id go; deleting a missing id changes nothing |
| TableService.GetByQrIdentifier | HoReCa/src/main/java/mk/scan/horeca/service/TableService.java:29-32 | throws "Table not found" exactly when no table has the identifier, and otherwise returns a stored table with it, never null |
| TableService.DeleteTable | HoReCa/src/main/java/mk/scan/horeca/service/TableService.java:34-41 | fails with the database's message exactly when the table exists and a session still references it; otherwise exactly the table's calls and the table go, sessions and every other table and call are kept, and a missing id removes nothing |
| TableService.DeleteTableKeepsReferences | HoReCa/src/main/java/mk/scan/horeca/service/TableService.java:35-41 | a committed deletion keeps every remaining call and session pointing at a stored table |
| TableService.DeleteTableIdempotent | HoReCa/src/main/java/mk/scan/horeca/service/TableService.java:34-41 | deleting the same table again cannot fail and leaves the same tables and the same calls |
| SessionCleanupTask.CleanupAsWritten | HoReCa/src/main/java/mk/scan/horeca/controller/SessionCleanupTask.java:19-23 | the task, which runs outside any transaction, throws exactly when some session expired before now, and otherwise removes nothing, agreeing with the derived delete |
| SessionCleanupTask.AfterRuns | HoReCa/src/main/java/mk/scan/horeca/controller/SessionCleanupTask.java:19-23 | at whatever instants the task as written runs, no session is ever deleted |
| SessionCleanupTask.ScannedTableNeverDeletable | HoReCa/src/main/java/mk/scan/horeca/controller/SessionCleanupTask.java:19-23 | as written, a table that a session references stays undeletable, whatever runs of the task come first |
| SessionCleanupTask.ExpiredSessionMakesRunThrow | HoReCa/src/main/java/mk/scan/horeca/repository/SessionRepository.java:18 | once a session has expired, every later run of the task as written throws |
| SessionCleanupTask.CleanupInTransaction | HoReCa/src/main/java/mk/scan/horeca/repository/SessionRepository.java:18 | inside a transaction, the delete keeps exactly the sessions not expired before now, and agrees with the task as written when nothing has expired |
| SessionCleanupTask.CleanupUnblocksDeletion | HoReCa/src/main/java/mk/scan/horeca/service/TableService.java:34-41 | once a transactional cleanup has removed a table's sessions, all expired, the table's deletion commits |
| SessionCleanupTask.LatestExpiry | HoReCa/src/main/java/mk/scan/horeca/model/Session.java:20 | an expiry instant no session's expiry exceeds, reached by one of them |
| SessionCleanupTask.TransactionalCleanupEventuallyUnblocks | HoReCa/src/main/java/mk/scan/horeca/controller/SessionCleanupTask.java:19-23 | a transactional cleanup after the latest expiry removes every session, and any table can then be deleted |
| CallController.RefusalText | HoReCa/src/main/java/mk/scan/horeca/controller/CallController.java:32-56 | every 403 carries a non-empty explanation |
| CallController.SessionGate | HoReCa/src/main/java/mk/scan/horeca/controller/CallController.java:31-56 | passes exactly when the token is present, validates, is still unexpired when looked at again, and the stored row of the session's table holds the path's identifier now; only an expired session changes the store, by switching it off |
| CallController.PlaceCall | HoReCa/src/main/java/mk/scan/horeca/controller/CallController.java:58-78 | an unknown table gives 500 "Error: Table not found", an unknown kind 400, the cooldown 500 with its message, and otherwise 200 with the created call; calls are stored only on 200 |
| CallController.CreateCallRequest | HoReCa/src/main/java/mk/scan/horeca/controller/CallController.java:25-79 | 403 exactly when the session checks refuse, comparing against the session's table as stored now, before the kind is looked at; the reply is one of 200, 400, 403 and 500, and no call is stored unless it is 200 |
| CallController.AcceptedCallHasValidSession | HoReCa/src/main/java/mk/scan/horeca/controller/CallController.java:32-73 | a placed call always comes from an active, unexpired session whose table's stored row holds the path's identifier, and is an open call of a stored table made at the service's clock; with identifiers unique, the call's table is the session's table, by id |
| CallController.GateFollowsReKeyedTable | HoReCa/src/main/java/mk/scan/horeca/controller/CallController.java:52-56 | after a merge re-keys a session's table, the same token is accepted on the new identifier and refused as foreign on the old one |
| CallController.InvalidTokenRefused | HoReCa/src/main/java/mk/scan/horeca/controller/CallController.java:32-35 | a missing or invalid token gets the same 403 whatever the table and kind, and nothing is stored |
| CallController.UnknownTokenUnreachable | HoReCa/src/main/java/mk/scan/horeca/controller/CallController.java:38-41 | the unknown-token refusal never happens, since a validated token is always found again |
| CallController.ExpiredBetweenChecks | HoReCa/src/main/java/mk/scan/horeca/controller/CallController.java:46-50 | a session that expires between the two checks is refused and switched off, and never validates again |
| TableController.QrUrl | HoReCa/src/main/java/mk/scan/horeca/controller/TableController.java:48 | the link ends in exactly the table's identifier after the domain and "/table/" |
| TableController.QrOfUrl | HoReCa/src/main/java/mk/scan/horeca/controller/TableController.java:48 | a link yields an identifier exactly when it starts with the table page's prefix, and it is then that prefix plus the identifier |
| TableController.QrUrlRoundTrip | HoReCa/src/main/java/mk/scan/horeca/controller/TableController.java:48 | reading a table's link back gives its identifier |
| TableController.QrUrlInjective | HoReCa/src/main/java/mk/scan/horeca/controller/TableController.java:48 | different identifiers give different links |
| TableController.QrIdentifierOf | HoReCa/src/main/java/mk/scan/horeca/controller/TableController.java:42 | a new identifier is exactly eight hex digits |
| TableController.CreateTable | HoReCa/src/main/java/mk/scan/horeca/controller/TableController.java:40-56 | 200 exactly when no other row holds the new identifier, with a link that reads back to it; a body carrying a stored id overwrites that row, identifier included, keeping the number of tables, and any other body is appended under the generated id; a clash is the framework's 500 with nothing stored |
| TableController.CreateTableKeepsUnique | HoReCa/src/main/java/mk/scan/horeca/model/TableEntity.java:17 | table creation keeps identifiers unique (a merge when ids are unique), and ids when the generated id is fresh |
| TableController.IdInBodyRetiresQr | HoReCa/src/main/java/mk/scan/horeca/controller/TableController.java:40-45 | posting a table with a stored id re-keys that table: it keeps its id, and its old identifier, printed in its QR code, no longer finds any table |
| TableEntity.ReplaceById | HoReCa/src/main/java/mk/scan/horeca/service/TableService.java:21-23 | a merge gives the row with the entity's id the entity's state, keeping the other rows and the order |
| TableEntity.ReplaceByIdRows | HoReCa/src/main/java/mk/scan/horeca/service/TableService.java:21-23 | after a merge the rows are the entity and the rows with other ids |
| TableController.MergedRowFound | HoReCa/src/main/java/mk/scan/horeca/service/TableService.java:21-23 | after a merge, the posted id finds the merged table |
| TableEntity.FindTableById | HoReCa/src/main/java/mk/scan/horeca/model/Session.java:13-14 | finds nothing exactly when no row has the id, otherwise a stored row with it, as the session's `@ManyToOne` table is loaded |
| TableEntity.FindTableByIdUnique | HoReCa/src/main/java/mk/scan/horeca/model/TableEntity.java:9-11 | with unique ids the lookup returns the row stored under the id |
| TableController.GetQr | HoReCa/src/main/java/mk/scan/horeca/controller/TableController.java:59-68 | 200 exactly when a table has the identifier, with a link that reads back to it; otherwise the framework's 500 page |
| TableController.ViewOf | HoReCa/src/main/java/mk/scan/horeca/controller/TableController.java:77-87 | a list entry carries the table's id, number, location and type and a link reading back to its identifier |
| TableController.GetAll | HoReCa/src/main/java/mk/scan/horeca/controller/TableController.java:72-92 | 200 exactly when every table has a number, location and type, with one entry per table in order; otherwise the framework's 500 page |
| TableController.ConfirmingAdmin | HoReCa/src/main/java/mk/scan/horeca/controller/TableController.java:118-123 | the confirming admin exists exactly when some admin is stored, and is the first one |
| TableController.DeleteTable | HoReCa/src/main/java/mk/scan/horeca/controller/TableController.java:100-140 | in source order: a missing header is 400, a non-bearer header 401 "Unauthorized", a missing or blank password 400 "Password required", no admin 401 "Admin not found", a password not matching the first admin 401 "Invalid password", an unknown table 404 "Table not found", and a table a session references 500 "Error deleting table: " with the database's message; 200 exactly when none of these applies, and then the table and its calls are gone; every refusal leaves the stores as they were |
| TableController.BearerTokenIgnored | HoReCa/src/main/java/mk/scan/horeca/controller/TableController.java:107-111 | any two bearer headers get the same answer: the token is never checked |
| TableController.OnlyFirstAdminConfirms | HoReCa/src/main/java/mk/scan/horeca/controller/TableController.java:118-127 | a password that does not match the first admin's hash never deletes anything, and with a bearer header and a non-blank password it is told "Invalid password" |
| TableController.ConfirmedDeletionCascades | HoReCa/src/main/java/mk/scan/horeca/controller/TableController.java:129-135 | a confirmed deletion removes the table and all its calls, keeps the sessions, and keeps every call and session pointing at a stored table |
| TableController.SessionBlocksDeletion | HoReCa/src/main/java/mk/scan/horeca/controller/TableController.java:133-139 | a table with a stored session is not deleted even with the right password: the answer is 500 with the database's message and the stores are unchanged |
| Translation.IndexFrom | frontend/src/contexts/TranslationContext.jsx:51 | the first occurrence of the pattern at or after a position, or none when there is none |
| Translation.IndexOf | frontend/src/contexts/TranslationContext.jsx:51 | the first occurrence of the pattern, or none exactly when it does not occur |
| Translation.ReplaceFirst | frontend/src/contexts/TranslationContext.jsx:51 | replacing with a string pattern changes only the first occurrence: the text before it and after it are kept |
| Translation.ReplaceFirstAfterPrefix | frontend/src/contexts/TranslationContext.jsx:51 | when the pattern first occurs right after a prefix, that occurrence is replaced and the rest is kept |
| Translation.Placeholder | frontend/src/contexts/TranslationContext.jsx:51 | a placeholder is the name with four braces around it |
| Translation.Substitute | frontend/src/contexts/TranslationContext.jsx:50-52 | no variables leave the text as it is; one variable replaces the first occurrence of its placeholder |
| Translation.T | frontend/src/contexts/TranslationContext.jsx:40-55 | a missing or empty translation returns the key itself; with no variables the stored text is returned unchanged |
| Translation.OneVariableFilled | frontend/src/contexts/TranslationContext.jsx:49-54 | one variable whose placeholder occurs replaces its first occurrence by the value and keeps the rest |
| Translation.RepeatedPlaceholderFilledOnce | frontend/src/contexts/TranslationContext.jsx:50-52 | a repeated placeholder is filled only the first time |
| Translation.UnusedVariablesIgnored | frontend/src/contexts/TranslationContext.jsx:50-52 | variables none of whose placeholders occur leave the text unchanged |
| Translation.PlaceholdersApart | frontend/src/contexts/TranslationContext.jsx:51 | a placeholder with a brace-free name never overlaps one that starts after it |
| Translation.PlaceholderSurvivesReplace | frontend/src/contexts/TranslationContext.jsx:51 | replacing the first placeholder of one brace-free name keeps a placeholder of any other brace-free name in the text |
| Translation.UnknownPlaceholderKept | frontend/src/contexts/TranslationContext.jsx:49-54 | a placeholder whose name is not among the variables is still in the text after every variable is filled in |
| Translation.LoadTranslations | frontend/src/contexts/TranslationContext.jsx:18-37 | the language's own strings, else the Macedonian ones, else no strings |
| Translation.UnknownLanguageFallsBack | frontend/src/contexts/TranslationContext.jsx:18-37 | a language without its own bundle reads exactly the Macedonian strings, key for key |
| Translation.InitialLanguage | frontend/src/contexts/TranslationContext.jsx:63-73 | a remembered non-empty preference is used; otherwise Macedonian is chosen and remembered; the remembered language is always the current one |
| Translation.SwitchLanguage | frontend/src/contexts/TranslationContext.jsx:57-73 | the language changes and is remembered, and a reload starts in exactly that state when the language is not empty |
| Translation.SwitchSurvivesReload | frontend/src/contexts/TranslationContext.jsx:57-73 | a non-empty language chosen by switching is the language after a reload |
| Translation.AvailableLanguagesSurviveReload | frontend/src/contexts/TranslationContext.jsx:79-82 | each offered language, Macedonian and English, survives a reload once chosen |
| CallNotifications.ShowNotification | frontend/src/hooks/useCallNotifications.js:9-11 | the notification shows the message, with kind "info" and duration 3000 unless given; the announced set is untouched |
| CallNotifications.HideNotification | frontend/src/hooks/useCallNotifications.js:13-15 | no notification is shown; the announced set is untouched |
| CallNotifications.MarkCallAsNotified | frontend/src/hooks/useCallNotifications.js:17-22 | the id is added and every earlier id is kept |
| CallNotifications.ClearNotifiedCalls | frontend/src/hooks/useCallNotifications.js:28-31 | the announced set is empty; the notification shown is kept |
| CallNotifications.MarkThenHas | frontend/src/hooks/useCallNotifications.js:17-26 | a marked id is announced, other ids keep their answer, and marking twice is marking once |
| CallNotifications.ClearForgetsAll | frontend/src/hooks/useCallNotifications.js:17-31 | after clearing, an id counts as announced exactly when it was marked since |
| CallNotifications.MarkAllAdds | frontend/src/hooks/useCallNotifications.js:17-22 | marking a run of ids adds exactly those ids and leaves the notification alone |
| CallNotifications.ShowThenHide | frontend/src/hooks/useCallNotifications.js:9-15 | showing then hiding a notification is the same as just hiding |
| AdminDashboard.Polled | frontend/src/pages/AdminDashboard.jsx:18-23 | a poll replaces the list, whatever it held, with the server's open calls of the last ten minutes, newest first, each drawn unresolved with its button |
| AdminDashboard.MarkResolved | frontend/src/pages/AdminDashboard.jsx:29-31 | only the calls with that id change, and only by becoming resolved |
| AdminDashboard.ResolveAnswered | frontend/src/pages/AdminDashboard.jsx:25-37 | a failed resolve request leaves the list unchanged; a parsed reply marks the id |
| AdminDashboard.RemoveCall | frontend/src/pages/AdminDashboard.jsx:32-34 | exactly the calls with that id leave; the others keep their multiplicity |
| AdminDashboard.RemoveAfterMark | frontend/src/pages/AdminDashboard.jsx:29-34 | the mark made before the removal does not change what remains |
| AdminDashboard.RemoveCallIdempotent | frontend/src/pages/AdminDashboard.jsx:32-34 | a second removal for the same id changes nothing |
| AdminDashboard.NextPollDropsResolved | frontend/src/pages/AdminDashboard.jsx:11-21 | once the server resolved a call, the next poll no longer lists it |
| AdminDashboard.DisplayOrder | frontend/src/pages/AdminDashboard.jsx:76-77 | the cards are drawn newest first, the same calls with the same multiplicity |
| AdminDashboard.CardClass | frontend/src/pages/AdminDashboard.jsx:83-94 | "resolved" for any resolved call, otherwise "waiter" for WAITER and "bill" for BILL |
| AdminDashboard.ShowResolveButton | frontend/src/pages/AdminDashboard.jsx:119-131 | the button is shown exactly on cards not styled resolved |
| AdminDashboard.LocationLabel | frontend/src/pages/AdminDashboard.jsx:112 | never empty; a non-empty location is shown as it is, anything else as "Main Hall" |
| AdminDashboard.MinutesAgo | frontend/src/pages/AdminDashboard.jsx:79-81 | the greatest whole number of minutes not exceeding the time since the call |
| AdminDashboard.MarkedCardShowsResolved | frontend/src/pages/AdminDashboard.jsx:85-131 | once marked, the call's card is styled resolved with no button, and the count of calls is unchanged |
| ClientPage.KindSegment | frontend/src/pages/ClientPage.jsx:163 | the path segment of a button is "waiter" or "bill" |
| ClientPage.KindSegmentParses | frontend/src/pages/ClientPage.jsx:163 | each button's segment is accepted by the server's parser and names the matching kind |
| ClientPage.Shown | frontend/src/pages/ClientPage.jsx:75 | a present value is shown as itself |
| ClientPage.Opened | frontend/src/pages/ClientPage.jsx:9-12 | the page opens inactive, with no rescan, no cooldown and no message, keeping the stored identifier |
| ClientPage.Locked | frontend/src/pages/ClientPage.jsx:50-52 | a locked page is inactive, asks for a rescan and shows the given key; nothing else changes |
| ClientPage.Enter | frontend/src/pages/ClientPage.jsx:36-99 | each run of the effect: a token in the route only sends a validation; otherwise a new identifier is stored and a session requested, the stored one again asks for a rescan, and no identifier asks to scan |
| ClientPage.EnterAgainBeforeReply | frontend/src/pages/ClientPage.jsx:63-99 | a second run of the effect while the creation request is in flight sends nothing and asks for a rescan, and the late reply still opens the session |
| ClientPage.EnterAgainAfterFailureRetries | frontend/src/pages/ClientPage.jsx:80-99 | after a failed creation every further run of the effect on the same route requests a session again |
| ClientPage.Validated | frontend/src/pages/ClientPage.jsx:43-59 | a valid answer makes the page active; an invalid one or an error asks for a rescan with its own message |
| ClientPage.CreationFailed | frontend/src/pages/ClientPage.jsx:80-86 | a failed creation forgets the stored identifier and asks for a rescan |
| ClientPage.SessionPath | frontend/src/pages/ClientPage.jsx:75 | the session route lies below "/table/" |
| ClientPage.Created | frontend/src/pages/ClientPage.jsx:72-86 | as written: any parsed reply makes the page active and navigates to the route with the body's token, shown as "undefined" when absent; only a failed fetch counts as a failure |
| ClientPage.CreatedChecked | frontend/src/pages/ClientPage.jsx:72-86 | corrected: the page becomes active exactly on a 2xx reply carrying a token, navigating to that token's route; anything else is a failed creation |
| ClientPage.Tick | frontend/src/pages/ClientPage.jsx:125-147 | a tick sends a validation exactly while the route has a token and the session is active |
| ClientPage.Revalidated | frontend/src/pages/ClientPage.jsx:133-146 | only a definite "valid" keeps the page as it is; an invalid answer or an error asks for a rescan |
| ClientPage.CallPath | frontend/src/pages/ClientPage.jsx:163 | the server's route reads back the page's identifier and the button's segment from the path, and the last segment parses to the pressed kind |
| ClientPage.MatchCallRoute | HoReCa/src/main/java/mk/scan/horeca/controller/CallController.java:24-27 | a path matches the call route only as the prefix followed by two non-empty segments without "/", which are returned |
| ClientPage.CallPathRoutes | HoReCa/src/main/java/mk/scan/horeca/controller/CallController.java:24-27 | a path built from an identifier and a segment, neither empty nor containing "/", matches the route with exactly those two |
| ClientPage.LastSegment | frontend/src/pages/ClientPage.jsx:163 | the part after the last "/", which contains no "/" and ends the string |
| ClientPage.PressCall | frontend/src/pages/ClientPage.jsx:153-166 | a call is sent exactly when the page is active, has a token and is not cooling down; otherwise the session or wait message is shown |
| ClientPage.ButtonsDisabled | frontend/src/pages/ClientPage.jsx:220 | an enabled button always sends its call when pressed, and on a consistent page a disabled one never would |
| ClientPage.CallAnswered | frontend/src/pages/ClientPage.jsx:167-185 | a 2xx starts the 180000 ms cooldown; another status shows the server's text or a fallback, and 401 or 403 also ends the session; a network error shows the server-error message |
| ClientPage.ConfirmationNamesButton | frontend/src/pages/ClientPage.jsx:168-169 | the two buttons' successful calls leave different confirmations |
| ClientPage.CooldownOver | frontend/src/pages/ClientPage.jsx:171 | the timer clears the cooldown and nothing else |
| ClientPage.CooldownBlocksPresses | frontend/src/pages/ClientPage.jsx:158-171 | after a placed call every press of either button sends nothing until the timer fires, and then goes through again |
| ClientPage.TokenRouteNeverCreates | frontend/src/pages/ClientPage.jsx:37-61 | a route with a token never requests a new session |
| ClientPage.ErrorReplyOpensBogusSession | frontend/src/pages/ClientPage.jsx:72-79 | as written, an error reply opens an active page at "/table/{qr}/undefined", and after the failed validation scanning the same code creates nothing |
| ClientPage.CheckedErrorReplyAllowsRetry | frontend/src/pages/ClientPage.jsx:80-86 | with the reply checked, the same error body asks for a rescan, and scanning again requests a new session |
| ClientPage.CheckedCreationCarriesToken | frontend/src/pages/ClientPage.jsx:72-79 | with the reply checked, an active page always navigated to the route of a token the server issued |

## Left out

- Argon2 hashing and verification are the abstract `Encoder` and `Matcher` parameters. Nothing is assumed about them except where a lemma states it.
- UUID generation, generated ids and the clocks are parameters. `TableController.CreateTable` requires the UUID to have the shape of `UUID.toString()`.
- JPA persistence, `@Transactional` and Spring wiring are left out, except where a missing transaction decides the behaviour (`SessionCleanupTask`). Each store is a sequence, and a transaction's rollback is the store left unchanged. `Admin.java` and `AdminRepository` are not part of this model; admins have an id, a name and a hash, and the username column is taken to carry no unique constraint, so two rows can share a name.
- The WebSocket pushes of `CallService` and `synchronized` are left out. The `ConcurrentHashMap`s of `AuthController` are ordinary maps, and everything runs sequentially.
- TableController.CreateTable: a body whose id no stored table has is inserted under the generated id, as Hibernate's merge did before version 6.6; from 6.6 on such a merge is refused with an optimistic-locking error, which the model does not follow.
- TableService.DeleteTable: the only database failure modelled is the foreign key from sessions to tables. Other failures at commit are not modelled.
- AuthController.Login: one clock reading serves both the lockout test (`AuthController.java:76`) and the lockout instant recorded at the fifth failure (line 92). The source reads the clock twice.
- AuthController.CheckPassword: the time a hash check takes is not modelled. An unknown name is refused without one, so it is answered faster than a wrong password.
- SessionService.CreateNewSession: one clock reading gives both the creation and the expiry instant (`SessionService.java:44-45`), so the lifetime is exactly one minute; the source's two readings can make it slightly longer.
- SessionEntity.NewSession: likewise, one reading stands for the constructor's two (`Session.java:29-30`).
- SessionService.CleanupExpiredSessions: one reading `now` stands for the one `isExpired` takes for each active session (`Session.java:34`, `SessionService.java:75-76`). The real sweep's readings grow as it goes, so a session that expires during the sweep may be switched off where the model keeps it active.
- CallController.SessionGate: a session whose table row is missing is refused as foreign. The foreign key from sessions to tables rules this out in the database.
- CallEntity.Call: a call keeps a copy of its table as it was when the call was made. The server serializes the current row, so after a merge re-keys a table the dashboard shows the new number and location, which the model does not follow. Calls are matched to tables by id everywhere, so no decision depends on the copy.
- Scheduling is left out: each scheduled method is a function of the instant it runs at, and a run of `SessionCleanupTask` is one call of `SessionCleanupTask.CleanupAsWritten` (see "## Findings").
- QR image generation is left out. The `qrCodeBase64` fields of the table replies are not modelled.
- These parts of the system are not modelled:
  - mail sending, CORS configuration and application bootstrap;
  - `AdminController`, which only delegates to `CallService`;
  - `SessionController`, which only delegates to `SessionService`;
  - the purely presentational pages and components.
- React rendering, hook lifecycles, `sessionStorage` and `localStorage` become explicit state fields and events. The mobile-only check of the guest page is left out.
- The framework's 400 for a missing request body or a missing required header is modelled only for the `Authorization` header of the table deletion.
- In `CallController.java:60-62`, the null-table branch is absent from `CallController.PlaceCall`, because `getByQrIdentifier` never returns null.
- Dynamic translation loading is `Translation.LoadTranslations` over a map of bundles.
- Translation.Substitute: JavaScript's `$` patterns in replacement values are not expanded, so values are assumed to contain no `$`. Non-string values are not modelled either.
- Translation.T: the variables are a sequence in the order `Object.keys` lists them.
- JavaString.UpperCase: only the characters whose upper case is an ASCII letter are mapped, and the rest are kept. That is exact for comparing against WAITER and BILL, but it is not full Unicode upper-casing. The default locale is assumed not to be Turkish or Azeri.
- CallRepository.FindTopByTableAndTypeAndResolvedFalse: when several open calls share the newest instant, the database may return any of them. The model says only that the result is one of the newest.
- CallOrder.SortNewestFirst: a stable sort; the order the database and the browser give to equal instants is not fixed.
- SessionService.ValidateSession: the if-and-only-if holds under the unique token column. Without that column, only the "valid implies some usable session" direction holds.
- AdminDashboard.MinutesAgo: parsing the call's `createdAt` text into a date, and time zones, are not modelled. The instant is an integer.
- AdminDashboard.ResolveAnswered: a reply that parses but reports an error status is treated as the page treats it, that is, as a success.
- ClientPage.Created: a JSON `null` token is treated like a missing one.

## Findings

| source | as written | input that shows it | evidently intended | confidence | as-written member | corrected member |
|---|---|---|---|---|---|---|
| HoReCa/src/main/java/mk/scan/horeca/controller/UserController.java:61-66 | the uniqueness check looks up the name as typed, but the name is stored trimmed | with an admin "bob" stored, create " bob" with a valid password: the check finds no " bob", and a second "bob" is stored; from then on every login as "bob" and every new attempt to create "bob" gets the framework's 500, so the original account is locked out | no two admins share a stored username, so the check should use the trimmed name | not executed | UserController.CreateUserDuplicatesTrimmedName | UserController.CreateUserTrimmedCheckKeepsUnique |
| frontend/src/pages/ClientPage.jsx:72-79 | the session-creation reply is used without checking `res.ok` or the token | scan a code whose creation fails with a 500 JSON error body: the page goes active at `/table/{qr}/undefined`, the validation of "undefined" fails, and because the identifier stays stored, scanning the same code again creates nothing | an error reply takes the failure branch (lines 80-86): the stored identifier is forgotten, and a rescan retries | not executed | ClientPage.ErrorReplyOpensBogusSession | ClientPage.CheckedErrorReplyAllowsRetry |
| HoReCa/src/main/java/mk/scan/horeca/controller/SessionCleanupTask.java:19-23 | the scheduled cleanup calls the derived delete with no transaction around it, and Spring Data gives declared query methods none of their own, so the first `remove` throws | scan a table once and let its session expire: every later run of the task throws and deletes nothing, the session stays, and deleting the table answers 500 from then on, with the right password | the task runs in a transaction, as `SessionService.cleanupExpiredSessions` does, removes the expired sessions, and the table can then be deleted | not executed; rests on Spring Data's documented transaction defaults | SessionCleanupTask.ScannedTableNeverDeletable | SessionCleanupTask.TransactionalCleanupEventuallyUnblocks |
