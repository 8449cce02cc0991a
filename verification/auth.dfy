/** `AuthController.login` and its in-memory brute-force protection: a failure
    counter and a lockout instant per username. The two maps are threaded
    through every call as an explicit state. */
module AuthController {
  import opened Common
  import opened AdminEntity
  import opened PasswordEncoder

  const MAX_FAILED_ATTEMPTS: int := 5
  const LOCKOUT_DURATION: int := 15 * MINUTE

  /** `failedAttempts` and `lockouts`, keyed by the username as typed. */
  datatype AuthState = AuthState(failedAttempts: map<string, int>, lockouts: map<string, int>)

  const NoAttempts: AuthState := AuthState(map[], map[])

  /** The body of a successful login. */
  datatype LoginSuccess = LoginSuccess(token: string, adminId: int, username: string)

  /** An HTTP reply and the state it leaves behind. */
  datatype Outcome = Outcome(response: Response<LoginSuccess>, state: AuthState)

  /** An answer and the state it leaves behind. */
  datatype Locked = Locked(answer: bool, state: AuthState)

  /** `failedAttempts.getOrDefault(username, 0)`. */
  function FailedCount(st: AuthState, username: string): int {
    if username in st.failedAttempts then st.failedAttempts[username] else 0
  }

  /** The lockout is in force while the clock is strictly before its instant
      plus fifteen minutes. */
  predicate LockoutInForce(st: AuthState, username: string, now: int) {
    username in st.lockouts && now < st.lockouts[username] + LOCKOUT_DURATION
  }

  /** The two maps minus one username's entries. */
  function Others(st: AuthState, username: string): AuthState {
    AuthState(st.failedAttempts - {username}, st.lockouts - {username})
  }

  /** `isAccountLocked(username)`: a lockout in force answers true; a lockout
      that has run out is removed together with the failure counter. */
  function IsAccountLocked(st: AuthState, username: string, now: int): (r: Locked)
    ensures r.answer <==> LockoutInForce(st, username, now)
    ensures r.answer || username !in st.lockouts ==> r.state == st
    ensures !r.answer && username in st.lockouts ==> r.state == Others(st, username)
  {
    if username in st.lockouts then
      if now < st.lockouts[username] + LOCKOUT_DURATION then Locked(true, st)
      else Locked(false, Others(st, username))
    else Locked(false, st)
  }

  /** `recordFailedAttempt(username)`: one more failure; from the fifth on the
      lockout instant becomes `now`. */
  function RecordFailedAttempt(st: AuthState, username: string, now: int): (r: AuthState)
    ensures r.failedAttempts == st.failedAttempts[username := FailedCount(st, username) + 1]
    ensures FailedCount(st, username) + 1 >= MAX_FAILED_ATTEMPTS ==> r.lockouts == st.lockouts[username := now]
    ensures FailedCount(st, username) + 1 < MAX_FAILED_ATTEMPTS ==> r.lockouts == st.lockouts
  {
    var attempts := FailedCount(st, username) + 1;
    var failed := st.failedAttempts[username := attempts];
    if attempts >= MAX_FAILED_ATTEMPTS then AuthState(failed, st.lockouts[username := now])
    else AuthState(failed, st.lockouts)
  }

  /** `resetFailedAttempts(username)`. */
  function ResetFailedAttempts(st: AuthState, username: string): (r: AuthState)
    ensures username !in r.failedAttempts && username !in r.lockouts
    ensures Others(r, username) == Others(st, username)
  {
    Others(st, username)
  }

  /** The stored account with that name exists and its hash matches. */
  predicate PasswordAccepted(admins: seq<Admin>, username: string, password: string, matches: Matcher) {
    match FindByUsername(admins, username)
    case OneRow(a) => matches(password, a.password)
    case _ => false
  }

  /** The lookup succeeds but the login is refused: no account has the name,
      or the hash of the one that does does not match. */
  predicate Refused(admins: seq<Admin>, username: string, password: string, matches: Matcher) {
    match FindByUsername(admins, username)
    case NoRow => true
    case OneRow(a) => !matches(password, a.password)
    case SeveralRows => false
  }

  /** The failure count a login starts from once `isAccountLocked` has
      removed a lockout that ran out, together with its counter. */
  function CountBefore(st: AuthState, username: string): int {
    if username in st.lockouts then 0 else FailedCount(st, username)
  }

  /** The part of `login` after the lockout check: the password decides
      between a cleared record with a token and a counted failure. When two
      accounts share the name the lookup throws, no handler catches it, and
      the framework answers 500 with nothing recorded. */
  function CheckPassword(st: AuthState, admins: seq<Admin>, username: string, password: string,
                         now: int, token: string, matches: Matcher): (r: Outcome)
    ensures r.response.status == OK <==> PasswordAccepted(admins, username, password, matches)
    ensures r.response.status == OK ==>
              && (match FindByUsername(admins, username)
                  case OneRow(a) => r.response.body == Payload(LoginSuccess(token, a.id, username))
                  case _ => false)
              && username !in r.state.failedAttempts && username !in r.state.lockouts
    ensures FindByUsername(admins, username).SeveralRows? ==>
              r == Outcome(Response(INTERNAL_SERVER_ERROR, ErrorPage), st)
    ensures Refused(admins, username, password, matches) ==>
              && r.response == Response(UNAUTHORIZED, Text("Invalid username or password"))
              && FailedCount(r.state, username) == FailedCount(st, username) + 1
              && (FailedCount(st, username) + 1 >= MAX_FAILED_ATTEMPTS ==> r.state.lockouts == st.lockouts[username := now])
              && (FailedCount(st, username) + 1 < MAX_FAILED_ATTEMPTS ==> r.state.lockouts == st.lockouts)
    ensures Others(r.state, username) == Others(st, username)
  {
    // Java's `&&` stops at an unknown name: no hash is checked for it.
    match FindByUsername(admins, username)
    case SeveralRows => Outcome(Response(INTERNAL_SERVER_ERROR, ErrorPage), st)
    case NoRow =>
      Outcome(Response(UNAUTHORIZED, Text("Invalid username or password")), RecordFailedAttempt(st, username, now))
    case OneRow(a) =>
      if !matches(password, a.password) then
        Outcome(Response(UNAUTHORIZED, Text("Invalid username or password")), RecordFailedAttempt(st, username, now))
      else
        Outcome(Response(OK, Payload(LoginSuccess(token, a.id, a.username))), ResetFailedAttempts(st, username))
  }

  /** `login` with the request's two fields (absent fields are null), the
      clock, the generated token and the hash matcher. */
  function Login(st: AuthState, admins: seq<Admin>, username: Option<string>, password: Option<string>,
                 now: int, token: string, matches: Matcher): (r: Outcome)
    // Missing credentials: 400 before anything else, nothing recorded.
    ensures username.None? || password.None? ==>
              r.response == Response(BAD_REQUEST, Text("Username and password are required")) && r.state == st
    // A lockout in force: 423 without looking at the password, nothing recorded.
    ensures username.Some? && password.Some? && LockoutInForce(st, username.value, now) ==>
              r.response == Response(LOCKED, Text("Account temporarily locked due to too many failed attempts"))
              && r.state == st
    // Otherwise the password decides, starting from the count left once a
    // lockout that ran out has been lifted.
    ensures username.Some? && password.Some? && !LockoutInForce(st, username.value, now) ==>
              r == CheckPassword(IsAccountLocked(st, username.value, now).state, admins, username.value,
                                 password.value, now, token, matches)
              && FailedCount(IsAccountLocked(st, username.value, now).state, username.value)
                 == CountBefore(st, username.value)
    // No other username's entries change.
    ensures username.Some? ==> Others(r.state, username.value) == Others(st, username.value)
    ensures username.None? ==> r.state == st
  {
    if username.None? || password.None? then
      Outcome(Response(BAD_REQUEST, Text("Username and password are required")), st)
    else
      var u := username.value;
      var locked := IsAccountLocked(st, u, now);
      if locked.answer then
        Outcome(Response(LOCKED, Text("Account temporarily locked due to too many failed attempts")), st)
      else
        CheckPassword(locked.state, admins, u, password.value, now, token, matches)
  }

  // ---------------------------------------------------------------------------
  // The state invariant.

  /** Counters run from 1 to 5, and a username is locked out exactly when its
      counter has reached 5. */
  predicate Consistent(st: AuthState) {
    && (forall u | u in st.failedAttempts :: 1 <= st.failedAttempts[u] <= MAX_FAILED_ATTEMPTS)
    && (forall u | u in st.lockouts :: u in st.failedAttempts && st.failedAttempts[u] == MAX_FAILED_ATTEMPTS)
    && (forall u | u in st.failedAttempts && st.failedAttempts[u] == MAX_FAILED_ATTEMPTS :: u in st.lockouts)
  }

  /** Every login keeps the state consistent: the counter can never pass 5,
      because a fifth failure locks the account and the lockout is only lifted
      together with the counter. */
  lemma LoginKeepsConsistent(st: AuthState, admins: seq<Admin>, username: Option<string>, password: Option<string>,
                             now: int, token: string, matches: Matcher)
    requires Consistent(st)
    ensures Consistent(Login(st, admins, username, password, now, token, matches).state)
  {
    if username.Some? && password.Some? && !LockoutInForce(st, username.value, now) {
      var st1 := IsAccountLocked(st, username.value, now).state;
      UnlockKeepsConsistent(st, username.value, now);
      CheckPasswordKeepsConsistent(st1, admins, username.value, password.value, now, token, matches);
    }
  }

  /** Lifting a lockout that ran out keeps the state consistent and leaves
      the username unlocked with fewer than 5 failures. */
  lemma UnlockKeepsConsistent(st: AuthState, username: string, now: int)
    requires Consistent(st) && !LockoutInForce(st, username, now)
    ensures Consistent(IsAccountLocked(st, username, now).state)
    ensures username !in IsAccountLocked(st, username, now).state.lockouts
    ensures FailedCount(IsAccountLocked(st, username, now).state, username) < MAX_FAILED_ATTEMPTS
  {
  }

  lemma CheckPasswordKeepsConsistent(st: AuthState, admins: seq<Admin>, username: string, password: string,
                                     now: int, token: string, matches: Matcher)
    requires Consistent(st) && username !in st.lockouts && FailedCount(st, username) < MAX_FAILED_ATTEMPTS
    ensures Consistent(CheckPassword(st, admins, username, password, now, token, matches).state)
  {
    var r := CheckPassword(st, admins, username, password, now, token, matches).state;
    assert Others(r, username) == Others(st, username);
    forall u | u != username
      ensures (u in r.failedAttempts <==> u in st.failedAttempts) && (u in r.lockouts <==> u in st.lockouts)
      ensures u in r.failedAttempts ==> r.failedAttempts[u] == st.failedAttempts[u]
    {
      assert u in r.failedAttempts - {username} <==> u in st.failedAttempts - {username};
      assert u in r.lockouts - {username} <==> u in st.lockouts - {username};
      if u in r.failedAttempts {
        assert (r.failedAttempts - {username})[u] == (st.failedAttempts - {username})[u];
      }
    }
  }

  /** A refused login for an unlocked name counts one failure on top of what
      was left after an expired lockout was lifted; the fifth such failure
      locks the name at the current instant. */
  lemma LoginFailureCounts(st: AuthState, admins: seq<Admin>, username: string, password: string,
                           now: int, token: string, matches: Matcher)
    requires !LockoutInForce(st, username, now) && Refused(admins, username, password, matches)
    ensures var r := Login(st, admins, Some(username), Some(password), now, token, matches);
            && r.response == Response(UNAUTHORIZED, Text("Invalid username or password"))
            && FailedCount(r.state, username) == CountBefore(st, username) + 1
            && (username in r.state.lockouts <==> CountBefore(st, username) + 1 >= MAX_FAILED_ATTEMPTS)
            && (username in r.state.lockouts ==> r.state.lockouts[username] == now)
  {
  }

  /** An accepted login for an unlocked name returns the stored account's id
      and name and clears its record. */
  lemma LoginSuccessClears(st: AuthState, admins: seq<Admin>, username: string, password: string,
                           now: int, token: string, matches: Matcher)
    requires !LockoutInForce(st, username, now) && PasswordAccepted(admins, username, password, matches)
    ensures var r := Login(st, admins, Some(username), Some(password), now, token, matches);
            && r.response.status == OK
            && r.response.body == Payload(LoginSuccess(token, FindByUsername(admins, username).admin.id, username))
            && username !in r.state.failedAttempts && username !in r.state.lockouts
  {
  }

  /** While two accounts share a name, no login with that name gets past the
      lookup: whatever the password, the reply is the framework's 500 page
      and no failure is counted. */
  lemma SharedNameAnswers500(st: AuthState, admins: seq<Admin>, username: string, password: string,
                             now: int, token: string, matches: Matcher)
    requires !LockoutInForce(st, username, now) && NamedTwice(admins, username)
    ensures var r := Login(st, admins, Some(username), Some(password), now, token, matches);
            && r.response == Response(INTERNAL_SERVER_ERROR, ErrorPage)
            && r.state == IsAccountLocked(st, username, now).state
  {
  }

  /** With unique usernames no login ends in the framework's 500 page. */
  lemma UniqueNamesNever500(st: AuthState, admins: seq<Admin>, username: Option<string>, password: Option<string>,
                            now: int, token: string, matches: Matcher)
    requires UniqueUsernames(admins)
    ensures Login(st, admins, username, password, now, token, matches).response.status != INTERNAL_SERVER_ERROR
  {
    if username.Some? {
      UniqueNamesNeverThrow(admins, username.value);
    }
  }

  // ---------------------------------------------------------------------------
  // Five failures in a row.

  /** Failed logins for one username at the given instants, one after the
      other. */
  function FailRepeatedly(st: AuthState, admins: seq<Admin>, username: string, password: string,
                          times: seq<int>, matches: Matcher): (r: AuthState)
    decreases |times|
  {
    if |times| == 0 then st
    else
      var before := FailRepeatedly(st, admins, username, password, times[..|times| - 1], matches);
      Login(before, admins, Some(username), Some(password), times[|times| - 1], "", matches).state
  }

  /** From a clean record, up to five wrong passwords count one each, and the
      fifth locks the account at the instant of the fifth attempt. */
  lemma {:induction false} FailuresCount(st: AuthState, admins: seq<Admin>, username: string, password: string,
                                         times: seq<int>, matches: Matcher)
    requires username !in st.failedAttempts && username !in st.lockouts
    requires Refused(admins, username, password, matches)
    requires |times| <= MAX_FAILED_ATTEMPTS
    ensures FailedCount(FailRepeatedly(st, admins, username, password, times, matches), username) == |times|
    ensures username in FailRepeatedly(st, admins, username, password, times, matches).lockouts
            <==> |times| == MAX_FAILED_ATTEMPTS
    ensures |times| == MAX_FAILED_ATTEMPTS ==>
              FailRepeatedly(st, admins, username, password, times, matches).lockouts[username] == times[|times| - 1]
  {
    if |times| > 0 {
      FailuresCount(st, admins, username, password, times[..|times| - 1], matches);
    }
  }

  /** Once locked at instant `t`, every login for that username, with the
      right password or not, answers 423 before `t` plus fifteen minutes;
      from then on the right password succeeds and clears the record. */
  lemma LockoutWindow(st: AuthState, admins: seq<Admin>, username: string, password: string,
                      t: int, now: int, token: string, matches: Matcher)
    requires username in st.lockouts && st.lockouts[username] == t
    ensures now < t + LOCKOUT_DURATION ==>
              Login(st, admins, Some(username), Some(password), now, token, matches).response.status == LOCKED
    ensures now >= t + LOCKOUT_DURATION && PasswordAccepted(admins, username, password, matches) ==>
              var r := Login(st, admins, Some(username), Some(password), now, token, matches);
              r.response.status == OK && username !in r.state.failedAttempts && username !in r.state.lockouts
  {
  }

  /** A lockout starts after exactly five failures and lasts exactly fifteen
      minutes from the fifth. */
  lemma FiveFailuresLock(st: AuthState, admins: seq<Admin>, username: string, password: string,
                         times: seq<int>, matches: Matcher, other: string, now: int)
    requires username !in st.failedAttempts && username !in st.lockouts
    requires Refused(admins, username, password, matches)
    requires |times| == MAX_FAILED_ATTEMPTS
    ensures var locked := FailRepeatedly(st, admins, username, password, times, matches);
            var r := Login(locked, admins, Some(username), Some(other), now, "", matches);
            r.response.status == LOCKED <==> now < times[4] + LOCKOUT_DURATION
  {
    FailuresCount(st, admins, username, password, times, matches);
  }
}
