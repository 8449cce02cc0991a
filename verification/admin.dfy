/** The administrator accounts and the two lookups of `AdminRepository` the
    controllers use. The repository is the sequence of stored admins in
    `findAll` order. */
module AdminEntity {
  import opened Common

  /** An administrator: generated id, login name and Argon2 hash. */
  datatype Admin = Admin(id: int, username: string, password: string)

  /** Usernames never repeat in a well-formed store. */
  predicate UniqueUsernames(admins: seq<Admin>) {
    forall i, j | 0 <= i < j < |admins| :: admins[i].username != admins[j].username
  }

  /** Generated primary keys never repeat. */
  predicate UniqueIds(admins: seq<Admin>) {
    forall i, j | 0 <= i < j < |admins| :: admins[i].id != admins[j].id
  }

  /** What a derived query declared to return `Optional` gives: no row, the
      one row, or, when several rows match, the exception Spring Data throws
      because the result is not unique. */
  datatype Lookup = NoRow | OneRow(admin: Admin) | SeveralRows

  /** Two stored admins carry the name. */
  predicate NamedTwice(admins: seq<Admin>, username: string) {
    exists i, j | 0 <= i < j < |admins| :: admins[i].username == username && admins[j].username == username
  }

  /** `findByUsername`: the username column carries no uniqueness constraint
      here, so a name stored twice makes the query throw. */
  function FindByUsername(admins: seq<Admin>, username: string): (r: Lookup)
    ensures r.NoRow? <==> forall a | a in admins :: a.username != username
    ensures r.OneRow? ==> r.admin in admins && r.admin.username == username
    ensures r.SeveralRows? <==> NamedTwice(admins, username)
    decreases |admins|
  {
    if |admins| == 0 then NoRow
    else
      var rest := FindByUsername(admins[1..], username);
      NamedTwiceStep(admins, username);
      if admins[0].username != username then rest
      else if rest.NoRow? then OneRow(admins[0])
      else SeveralRows
  }

  /** A name is stored twice exactly when the head carries it and the tail
      does too, or the tail alone carries it twice. */
  lemma NamedTwiceStep(admins: seq<Admin>, username: string)
    requires |admins| > 0
    ensures NamedTwice(admins, username) <==>
              || (admins[0].username == username && exists a | a in admins[1..] :: a.username == username)
              || NamedTwice(admins[1..], username)
  {
    var tail := admins[1..];
    if NamedTwice(admins, username) {
      var i, j :| 0 <= i < j < |admins| && admins[i].username == username && admins[j].username == username;
      assert tail[j - 1] == admins[j];
      if i > 0 {
        assert tail[i - 1] == admins[i];
      }
    }
    if admins[0].username == username && exists a | a in tail :: a.username == username {
      var a :| a in tail && a.username == username;
      var k :| 0 <= k < |tail| && tail[k] == a;
      assert admins[k + 1] == a;
    }
    if NamedTwice(tail, username) {
      var i, j :| 0 <= i < j < |tail| && tail[i].username == username && tail[j].username == username;
      assert admins[i + 1] == tail[i] && admins[j + 1] == tail[j];
    }
  }

  /** With unique usernames `findByUsername` never throws, and returns the
      one admin holding the name. */
  lemma FindByUsernameUnique(admins: seq<Admin>, i: int)
    requires UniqueUsernames(admins)
    requires 0 <= i < |admins|
    ensures FindByUsername(admins, admins[i].username) == OneRow(admins[i])
  {
    var r := FindByUsername(admins, admins[i].username);
    assert !r.NoRow? by {
      assert admins[i] in admins;
    }
    var k :| 0 <= k < |admins| && admins[k] == r.admin;
    assert k == i;
  }

  /** Unique usernames rule the exception out for every name. */
  lemma UniqueNamesNeverThrow(admins: seq<Admin>, username: string)
    requires UniqueUsernames(admins)
    ensures !FindByUsername(admins, username).SeveralRows?
  {
  }

  /** `findById`. */
  function FindById(admins: seq<Admin>, id: int): (r: Option<Admin>)
    ensures r.None? <==> forall a | a in admins :: a.id != id
    ensures r.Some? ==> r.value in admins && r.value.id == id
  {
    Find(admins, (a: Admin) => a.id == id)
  }

  /** With unique ids `findById` returns the one admin holding the id. */
  lemma FindByIdUnique(admins: seq<Admin>, i: int)
    requires UniqueIds(admins)
    requires 0 <= i < |admins|
    ensures FindById(admins, admins[i].id) == Some(admins[i])
  {
    var r := FindById(admins, admins[i].id);
    var j :| 0 <= j < |admins| && admins[j] == r.value;
    assert j == i;
  }
}
