/** `UserController`: listing, creating, re-keying and deleting
    administrator accounts. Each operation takes the stored admins and
    returns the reply together with the admins after the call. */
module UserController {
  import opened Common
  import opened JavaString
  import opened AdminEntity
  import opened PasswordEncoder
  import AuthController

  const MIN_USERNAME_LENGTH: int := 3
  const MAX_USERNAME_LENGTH: int := 50

  /** A listed account: the stored admin with its password left null. */
  datatype UserView = UserView(id: int, username: string)

  /** A reply whose body is plain text or empty, and the store afterwards. */
  datatype Outcome = Outcome(response: Response<()>, store: seq<Admin>)

  /** `getAllUsers`: one entry per stored admin, in order, without the hash. */
  function GetAllUsers(admins: seq<Admin>): (r: seq<UserView>)
    ensures |r| == |admins|
    ensures forall i | 0 <= i < |r| :: r[i].id == admins[i].id && r[i].username == admins[i].username
  {
    seq(|admins|, i requires 0 <= i < |admins| => UserView(admins[i].id, admins[i].username))
  }

  /** Listing hides nothing but the hash: distinct ids stay distinct. */
  lemma GetAllUsersKeepsIds(admins: seq<Admin>)
    requires UniqueIds(admins)
    ensures forall i, j | 0 <= i < j < |admins| :: GetAllUsers(admins)[i].id != GetAllUsers(admins)[j].id
  {
  }

  predicate UsernameLengthOk(username: string) {
    MIN_USERNAME_LENGTH <= Utf16Length(username) <= MAX_USERNAME_LENGTH
  }

  const PASSWORD_RULES: string :=
    "Password must be 8-128 characters with uppercase, lowercase, numbers, and special characters"

  /** The checks `createUser` makes on the request alone, in order: both
      fields present, the name 3 to 50 UTF-16 units long as typed, the
      password acceptable. The message of the first that fails, if any. */
  function CreateRequestError(username: Option<string>, password: Option<string>): (e: Option<string>)
    ensures e.None? <==> username.Some? && UsernameLengthOk(username.value) && IsPasswordValid(password)
    ensures username.None? || password.None? ==> e == Some("Username and password are required")
    ensures username.Some? && password.Some? && !UsernameLengthOk(username.value) ==>
              e == Some("Username must be between 3 and 50 characters")
  {
    if username.None? || password.None? then Some("Username and password are required")
    else if !UsernameLengthOk(username.value) then Some("Username must be between 3 and 50 characters")
    else if !IsPasswordValid(password) then Some(PASSWORD_RULES)
    else None
  }

  /** The account a successful `createUser` saves: the trimmed name and the
      hash of the password. */
  function NewAdmin(username: string, password: string, encode: Encoder, newId: int): Admin {
    Admin(newId, Trim(username), encode(password))
  }

  /** `createUser` as written: the length and uniqueness checks see the name
      as typed, the stored name is trimmed. `encode` is the hasher and
      `newId` the generated key. A name already stored twice makes the
      lookup throw, which the framework answers with 500. */
  function CreateUser(admins: seq<Admin>, username: Option<string>, password: Option<string>,
                      encode: Encoder, newId: int): (r: Outcome)
    ensures CreateRequestError(username, password).Some? ==>
              r == Outcome(Response(BAD_REQUEST, Text(CreateRequestError(username, password).value)), admins)
    ensures r.response.status == OK <==>
              && CreateRequestError(username, password).None?
              && forall a | a in admins :: a.username != username.value
    ensures CreateRequestError(username, password).None? && FindByUsername(admins, username.value).OneRow? ==>
              r == Outcome(Response(BAD_REQUEST, Text("Username already exists")), admins)
    ensures CreateRequestError(username, password).None? && NamedTwice(admins, username.value) ==>
              r == Outcome(Response(INTERNAL_SERVER_ERROR, ErrorPage), admins)
    ensures r.response.status != OK ==> r.store == admins
    ensures r.response.status == OK ==>
              && r.response.body == Text("User created successfully")
              && r.store == admins + [NewAdmin(username.value, password.value, encode, newId)]
  {
    match CreateRequestError(username, password)
    case Some(message) => Outcome(Response(BAD_REQUEST, Text(message)), admins)
    case None =>
      var found := FindByUsername(admins, username.value);
      match found
      case SeveralRows => Outcome(Response(INTERNAL_SERVER_ERROR, ErrorPage), admins)
      case OneRow(_) => Outcome(Response(BAD_REQUEST, Text("Username already exists")), admins)
      case NoRow =>
        Outcome(Response(OK, Text("User created successfully")),
                admins + [NewAdmin(username.value, password.value, encode, newId)])
  }

  /** As written, a name with a leading blank passes the uniqueness check
      against its trimmed twin and is stored trimmed: with "bob" stored,
      creating " bob" leaves two accounts called "bob". */
  lemma CreateUserDuplicatesTrimmedName(admins: seq<Admin>, existing: Admin, password: string,
                                         encode: Encoder, newId: int)
    requires existing in admins
    requires |existing.username| > 0 && existing.username[0] > ' ' && existing.username[|existing.username| - 1] > ' '
    requires 2 <= Utf16Length(existing.username) < MAX_USERNAME_LENGTH
    requires forall a | a in admins :: a.username != " " + existing.username
    requires IsPasswordValid(Some(password))
    ensures CreateUser(admins, Some(" " + existing.username), Some(password), encode, newId).response.status == OK
    ensures !UniqueUsernames(CreateUser(admins, Some(" " + existing.username), Some(password), encode, newId).store)
  {
    var name := " " + existing.username;
    var added := NewAdmin(name, password, encode, newId);
    BlankPrefixFacts(existing.username);
    assert CreateRequestError(Some(name), Some(password)).None?;
    CreateUserAppends(admins, name, password, encode, newId);
    AppendDuplicate(admins, existing, added);
  }

  /** The duplicate locks the original account out: from then on every
      login as that name, with the right password or not, is answered with
      the framework's 500 page, and so is every further attempt to create
      the name. */
  lemma DuplicateNameLocksOwnerOut(admins: seq<Admin>, existing: Admin, password: string,
                                   encode: Encoder, newId: int, st: AuthController.AuthState,
                                   attempt: string, now: int, token: string, matches: Matcher, again: string)
    requires existing in admins
    requires |existing.username| > 0 && existing.username[0] > ' ' && existing.username[|existing.username| - 1] > ' '
    requires MIN_USERNAME_LENGTH <= Utf16Length(existing.username) < MAX_USERNAME_LENGTH
    requires forall a | a in admins :: a.username != " " + existing.username
    requires IsPasswordValid(Some(password)) && IsPasswordValid(Some(again))
    requires !AuthController.LockoutInForce(st, existing.username, now)
    ensures var after := CreateUser(admins, Some(" " + existing.username), Some(password), encode, newId).store;
            && AuthController.Login(st, after, Some(existing.username), Some(attempt), now, token, matches).response
               == Response(INTERNAL_SERVER_ERROR, ErrorPage)
            && CreateUser(after, Some(existing.username), Some(again), encode, newId + 1).response
               == Response(INTERNAL_SERVER_ERROR, ErrorPage)
  {
    var name := " " + existing.username;
    BlankPrefixFacts(existing.username);
    assert CreateRequestError(Some(name), Some(password)).None?;
    CreateUserAppends(admins, name, password, encode, newId);
    var after := admins + [NewAdmin(name, password, encode, newId)];
    var i :| 0 <= i < |admins| && admins[i] == existing;
    assert after[i] == existing && after[|admins|].username == existing.username;
    assert NamedTwice(after, existing.username);
    AuthController.SharedNameAnswers500(st, after, existing.username, attempt, now, token, matches);
    assert UsernameLengthOk(existing.username);
    assert CreateRequestError(Some(existing.username), Some(again)).None?;
  }

  /** Appending an account named like a stored one breaks uniqueness. */
  lemma AppendDuplicate(admins: seq<Admin>, existing: Admin, added: Admin)
    requires existing in admins && added.username == existing.username
    ensures !UniqueUsernames(admins + [added])
  {
    var i :| 0 <= i < |admins| && admins[i] == existing;
    var s := admins + [added];
    assert s[i] == existing && s[|admins|] == added;
  }

  /** A request that passes every check of `createUser` appends exactly one
      account. */
  lemma CreateUserAppends(admins: seq<Admin>, username: string, password: string, encode: Encoder, newId: int)
    requires CreateRequestError(Some(username), Some(password)).None?
    requires forall a | a in admins :: a.username != username
    ensures CreateUser(admins, Some(username), Some(password), encode, newId)
            == Outcome(Response(OK, Text("User created successfully")),
                       admins + [NewAdmin(username, password, encode, newId)])
  {
  }

  /** One leading blank adds one unit to the length and is trimmed away. */
  lemma BlankPrefixFacts(u: string)
    requires |u| > 0 && u[0] > ' ' && u[|u| - 1] > ' '
    ensures Utf16Length(" " + u) == 1 + Utf16Length(u)
    ensures Trim(" " + u) == u
    ensures 2 <= Utf16Length(u) < MAX_USERNAME_LENGTH ==> UsernameLengthOk(" " + u)
  {
    var name := " " + u;
    assert name[1..] == u;
    assert Utf16Length(name) == 1 + Utf16Length(u);
    TrimBlankPrefix(u);
  }

  lemma TrimBlankPrefix(u: string)
    requires |u| > 0 && u[0] > ' ' && u[|u| - 1] > ' '
    ensures Trim(" " + u) == u
  {
    var name := " " + u;
    assert name[1..] == u;
    assert LeadingTrimmable(name) == 1 by {
      assert LeadingTrimmable(name[1..]) == 0;
    }
    assert TrailingTrimmable(u) == 0;
    assert name[1..|name| - 0] == u;
  }

  /** `createUser` with the uniqueness check made on the name that is
      stored, the trimmed one. */
  function CreateUserTrimmedCheck(admins: seq<Admin>, username: Option<string>, password: Option<string>,
                                  encode: Encoder, newId: int): (r: Outcome)
    ensures r.response.status == OK <==>
              && CreateRequestError(username, password).None?
              && forall a | a in admins :: a.username != Trim(username.value)
    ensures CreateRequestError(username, password).None? && FindByUsername(admins, Trim(username.value)).OneRow? ==>
              r == Outcome(Response(BAD_REQUEST, Text("Username already exists")), admins)
    ensures CreateRequestError(username, password).None? && NamedTwice(admins, Trim(username.value)) ==>
              r == Outcome(Response(INTERNAL_SERVER_ERROR, ErrorPage), admins)
    ensures r.response.status != OK ==> r.store == admins
    ensures r.response.status == OK ==>
              r.store == admins + [NewAdmin(username.value, password.value, encode, newId)]
  {
    match CreateRequestError(username, password)
    case Some(message) => Outcome(Response(BAD_REQUEST, Text(message)), admins)
    case None =>
      var found := FindByUsername(admins, Trim(username.value));
      match found
      case SeveralRows => Outcome(Response(INTERNAL_SERVER_ERROR, ErrorPage), admins)
      case OneRow(_) => Outcome(Response(BAD_REQUEST, Text("Username already exists")), admins)
      case NoRow =>
        Outcome(Response(OK, Text("User created successfully")),
                admins + [NewAdmin(username.value, password.value, encode, newId)])
  }

  /** With the corrected check, creating users on a store with unique
      names never meets the lookup's 500, keeps usernames unique, and keeps
      ids unique when the generated id is fresh. */
  lemma CreateUserTrimmedCheckKeepsUnique(admins: seq<Admin>, username: Option<string>, password: Option<string>,
                                          encode: Encoder, newId: int)
    requires UniqueUsernames(admins)
    ensures CreateUserTrimmedCheck(admins, username, password, encode, newId).response.status in {OK, BAD_REQUEST}
    ensures UniqueUsernames(CreateUserTrimmedCheck(admins, username, password, encode, newId).store)
    ensures UniqueIds(admins) && (forall a | a in admins :: a.id != newId) ==>
              UniqueIds(CreateUserTrimmedCheck(admins, username, password, encode, newId).store)
  {
    var r := CreateUserTrimmedCheck(admins, username, password, encode, newId);
    if CreateRequestError(username, password).None? {
      UniqueNamesNeverThrow(admins, Trim(username.value));
    }
    if r.response.status == OK {
      AppendKeepsUnique(admins, NewAdmin(username.value, password.value, encode, newId));
    }
  }

  /** Appending an admin whose name and id are new keeps both unique. */
  lemma AppendKeepsUnique(admins: seq<Admin>, admin: Admin)
    ensures UniqueUsernames(admins) && (forall a | a in admins :: a.username != admin.username) ==>
              UniqueUsernames(admins + [admin])
    ensures UniqueIds(admins) && (forall a | a in admins :: a.id != admin.id) ==>
              UniqueIds(admins + [admin])
  {
    var s := admins + [admin];
    forall i, j | 0 <= i < j < |s|
      ensures s[i] == admins[i] && s[i] in admins
      ensures j < |admins| ==> s[j] == admins[j]
      ensures j == |admins| ==> s[j] == admin
    {
    }
  }

  /** The store after a password change: the row with that id gets the new
      hash. */
  function SetPassword(admins: seq<Admin>, id: int, hash: string): (r: seq<Admin>)
    ensures |r| == |admins|
    ensures forall i | 0 <= i < |r| :: r[i] == if admins[i].id == id then admins[i].(password := hash) else admins[i]
  {
    seq(|admins|, i requires 0 <= i < |admins| =>
      if admins[i].id == id then admins[i].(password := hash) else admins[i])
  }

  const NEW_PASSWORD_RULES: string :=
    "New password must be 8-128 characters with uppercase, lowercase, numbers, and special characters"

  /** The checks `updateUserPassword` makes on the request alone, in order:
      both fields present, the new password acceptable, the two different.
      The message of the first that fails, if any. */
  function UpdateRequestError(oldPassword: Option<string>, newPassword: Option<string>): (e: Option<string>)
    ensures e.None? <==> oldPassword.Some? && IsPasswordValid(newPassword) && oldPassword != newPassword
    ensures oldPassword.None? || newPassword.None? ==> e == Some("Old password and new password are required")
  {
    if oldPassword.None? || newPassword.None? then Some("Old password and new password are required")
    else if !IsPasswordValid(newPassword) then Some(NEW_PASSWORD_RULES)
    else if oldPassword.value == newPassword.value then Some("New password must be different from old password")
    else None
  }

  /** `updateUserPassword(id)`: a request refused on its own content is
      answered 400 before the lookup; then a missing account gives 404 with
      no body, a wrong old password 400, and otherwise only that account's
      hash changes. */
  function UpdateUserPassword(admins: seq<Admin>, id: int, oldPassword: Option<string>, newPassword: Option<string>,
                              encode: Encoder, matches: Matcher): (r: Outcome)
    ensures r.response.status == OK <==>
              && UpdateRequestError(oldPassword, newPassword).None?
              && FindById(admins, id).Some?
              && matches(oldPassword.value, FindById(admins, id).value.password)
    ensures r.response.status == NOT_FOUND <==>
              UpdateRequestError(oldPassword, newPassword).None? && FindById(admins, id).None?
    ensures r.response.status == NOT_FOUND ==> r.response.body == NoBody
    ensures UpdateRequestError(oldPassword, newPassword).Some? ==>
              r.response == Response(BAD_REQUEST, Text(UpdateRequestError(oldPassword, newPassword).value))
    ensures UpdateRequestError(oldPassword, newPassword).None? && FindById(admins, id).Some?
            && !matches(oldPassword.value, FindById(admins, id).value.password) ==>
              r.response == Response(BAD_REQUEST, Text("Old password is incorrect"))
    ensures r.response.status != OK ==> r.store == admins
    ensures r.response.status == OK ==>
              && r.response.body == Text("Password updated successfully")
              && r.store == SetPassword(admins, id, encode(newPassword.value))
  {
    match UpdateRequestError(oldPassword, newPassword)
    case Some(message) => Outcome(Response(BAD_REQUEST, Text(message)), admins)
    case None =>
      match FindById(admins, id)
      case None => Outcome(Response(NOT_FOUND, NoBody), admins)
      case Some(user) =>
        if !matches(oldPassword.value, user.password) then
          Outcome(Response(BAD_REQUEST, Text("Old password is incorrect")), admins)
        else
          Outcome(Response(OK, Text("Password updated successfully")),
                  SetPassword(admins, id, encode(newPassword.value)))
  }

  /** A request refused for its own content gets the same 400 whatever is
      stored and whichever id it names: the account is never looked up. */
  lemma UpdateRejectsBeforeLookup(a: seq<Admin>, b: seq<Admin>, idA: int, idB: int,
                                  oldPassword: Option<string>, newPassword: Option<string>,
                                  encode: Encoder, matches: Matcher)
    requires oldPassword.None? || !IsPasswordValid(newPassword) || oldPassword == newPassword
    ensures UpdateUserPassword(a, idA, oldPassword, newPassword, encode, matches).response
            == UpdateUserPassword(b, idB, oldPassword, newPassword, encode, matches).response
    ensures UpdateUserPassword(a, idA, oldPassword, newPassword, encode, matches).response.status == BAD_REQUEST
  {
  }

  /** After a successful change, looking the account up again finds it with
      the new hash (every other account keeps its row, by `SetPassword`). */
  lemma UpdateTakesEffect(admins: seq<Admin>, id: int, oldPassword: string, newPassword: string,
                          encode: Encoder, matches: Matcher)
    requires UniqueIds(admins)
    requires UpdateUserPassword(admins, id, Some(oldPassword), Some(newPassword), encode, matches).response.status == OK
    ensures var s := UpdateUserPassword(admins, id, Some(oldPassword), Some(newPassword), encode, matches).store;
            match FindById(admins, id)
            case Some(user) =>
              FindById(s, id) == Some(user.(password := encode(newPassword)))
            case None => false
  {
    var r := UpdateUserPassword(admins, id, Some(oldPassword), Some(newPassword), encode, matches);
    assert r.store == SetPassword(admins, id, encode(newPassword));
    assert FindById(admins, id).Some?;
    SetPasswordFound(admins, id, encode(newPassword));
  }

  /** When the matcher recognises the hash the encoder made, the new password
      is the old password a further change must quote, and it is accepted. */
  lemma NewPasswordUnlocksNextChange(admins: seq<Admin>, id: int, oldPassword: string, newPassword: string,
                                     next: string, encode: Encoder, matches: Matcher)
    requires UniqueIds(admins)
    requires UpdateUserPassword(admins, id, Some(oldPassword), Some(newPassword), encode, matches).response.status == OK
    requires matches(newPassword, encode(newPassword))
    requires IsPasswordValid(Some(next)) && next != newPassword
    ensures var s := UpdateUserPassword(admins, id, Some(oldPassword), Some(newPassword), encode, matches).store;
            UpdateUserPassword(s, id, Some(newPassword), Some(next), encode, matches).response.status == OK
  {
    SetPasswordFound(admins, id, encode(newPassword));
    assert UpdateRequestError(Some(newPassword), Some(next)).None?;
  }

  /** With unique ids, the account found after setting a hash is the one
      found before, holding that hash. */
  lemma SetPasswordFound(admins: seq<Admin>, id: int, hash: string)
    requires UniqueIds(admins) && FindById(admins, id).Some?
    ensures FindById(SetPassword(admins, id, hash), id) == Some(FindById(admins, id).value.(password := hash))
  {
    var user := FindById(admins, id).value;
    var k :| 0 <= k < |admins| && admins[k] == user;
    FindByIdUnique(admins, k);
    var s := SetPassword(admins, id, hash);
    assert UniqueIds(s) by {
      forall i, j | 0 <= i < j < |s|
        ensures s[i].id != s[j].id
      {
        assert s[i].id == admins[i].id && s[j].id == admins[j].id;
      }
    }
    assert s[k] == user.(password := hash);
    FindByIdUnique(s, k);
  }

  /** `deleteUser(id)`: 404 with no body for an unknown id, otherwise that
      account is removed and every other one kept in order. */
  function DeleteUser(admins: seq<Admin>, id: int): (r: Outcome)
    ensures r.response.status == NOT_FOUND <==> forall a | a in admins :: a.id != id
    ensures r.response.status == NOT_FOUND ==> r.response.body == NoBody && r.store == admins
    ensures r.response.status != NOT_FOUND ==>
              && r.response == Response(OK, Text("User deleted successfully"))
              && (forall a :: a in r.store <==> a in admins && a.id != id)
              && |r.store| < |admins|
  {
    match FindById(admins, id)
    case None => Outcome(Response(NOT_FOUND, NoBody), admins)
    case Some(user) =>
      var rest := Filter(admins, (a: Admin) => a.id != user.id);
      assert multiset(rest)[user] == 0 < multiset(admins)[user];
      assert |rest| < |admins| by {
        FilterShorter(admins, (a: Admin) => a.id != user.id, user);
      }
      Outcome(Response(OK, Text("User deleted successfully")), rest)
  }

  /** Filtering out an element that is present shortens the sequence. */
  lemma FilterShorter<T(!new)>(s: seq<T>, keep: T -> bool, x: T)
    requires x in s && !keep(x)
    ensures |Filter(s, keep)| < |s|
  {
    var r := Filter(s, keep);
    assert multiset(r)[x] == 0;
    assert multiset(r) <= multiset(s) by {
      forall y
        ensures multiset(r)[y] <= multiset(s)[y]
      {
      }
    }
    assert multiset(r) != multiset(s);
    assert |multiset(r)| < |multiset(s)| by {
      MultisetStrictSubsetSmaller(multiset(r), multiset(s));
    }
  }

  lemma MultisetStrictSubsetSmaller<T>(a: multiset<T>, b: multiset<T>)
    requires a <= b && a != b
    ensures |a| < |b|
  {
    assert b == a + (b - a);
    assert |b - a| > 0 by {
      var y :| a[y] != b[y];
      assert (b - a)[y] > 0;
    }
  }

  /** Deleting keeps usernames and ids unique. */
  lemma DeleteUserKeepsUnique(admins: seq<Admin>, id: int)
    requires UniqueUsernames(admins) && UniqueIds(admins)
    ensures UniqueUsernames(DeleteUser(admins, id).store) && UniqueIds(DeleteUser(admins, id).store)
  {
    var r := DeleteUser(admins, id);
    if r.response.status != NOT_FOUND {
      var user := FindById(admins, id).value;
      var keep := (a: Admin) => a.id != user.id;
      assert DistinctBy(admins, UsernameOf) by {
        forall i, j | 0 <= i < j < |admins|
          ensures UsernameOf(admins[i]) != UsernameOf(admins[j])
        {
        }
      }
      assert DistinctBy(admins, IdOf);
      FilterDistinctBy(admins, keep, UsernameOf);
      FilterDistinctBy(admins, keep, IdOf);
      var s := Filter(admins, keep);
      assert s == r.store;
      forall i, j | 0 <= i < j < |s|
        ensures s[i].username != s[j].username && s[i].id != s[j].id
      {
        assert UsernameOf(s[i]) != UsernameOf(s[j]) && IdOf(s[i]) != IdOf(s[j]);
      }
    }
  }

  function UsernameOf(a: Admin): string {
    a.username
  }

  function IdOf(a: Admin): int {
    a.id
  }
}
