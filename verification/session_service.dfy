/** `SessionService`: issuing a session when a table's QR code is scanned,
    validating a token, expiring a session, and the periodic sweep that
    switches off expired sessions. The store is the repository's sequence of
    sessions. */
module SessionService {
  import opened Common
  import opened TableEntity
  import opened SessionEntity
  import opened SessionRepository

  /** A session just saved, and the store after the save. */
  datatype Created = Created(session: Session, store: seq<Session>)

  /** Some session with this token is active and not past its expiry. */
  ghost predicate HasValidSession(store: seq<Session>, token: string, now: int) {
    exists s | s in store :: s.token == token && s.active && now <= s.expiresAt
  }

  /** `createNewSession(qr)` at clock `now`, `token` being the generated UUID.
      The table's other sessions are left as they are, so a table may hold
      several active sessions at once. */
  function CreateNewSession(store: seq<Session>, tables: seq<Table>, qr: string, now: int, token: string)
    : (r: Result<Created>)
    ensures r.Err? <==> forall t | t in tables :: t.qrIdentifier != qr
    ensures r.Err? ==> r.message == "Table not found"
    ensures r.Ok? ==> && r.value.session.table in tables
                      && r.value.session.table.qrIdentifier == qr
                      && r.value.session.token == token
                      && r.value.session.active
                      && r.value.session.createdAt == now
                      && r.value.session.expiresAt == now + SESSION_LIFETIME
    ensures r.Ok? ==> |r.value.store| == |store| + 1
    ensures r.Ok? ==> r.value.store[..|store|] == store && r.value.store[|store|..] == [r.value.session]
  {
    match FindByQrIdentifier(tables, qr)
    case None => Err("Table not found")
    case Some(table) =>
      var session := Session(table, token, now, now + SESSION_LIFETIME, true);
      var saved := store + [session];
      assert saved[..|store|] == store;
      Ok(Created(session, saved))
  }

  /** `validateSession(token)`: the session found for the token is active and
      not expired. `isExpired` may switch the loaded entity off, but outside a
      transaction that change is not written back, so the store is not part
      of the result. */
  function ValidateSession(store: seq<Session>, token: string, now: int): (valid: bool)
    ensures valid ==> HasValidSession(store, token, now)
    ensures UniqueTokens(store) ==> (valid <==> HasValidSession(store, token, now))
  {
    match FindByToken(store, token)
    case None => false
    case Some(s) =>
      assert UniqueTokens(store) ==> forall x | x in store && x.token == token :: x == s by {
        if UniqueTokens(store) {
          forall x | x in store && x.token == token
            ensures x == s
          {
            var i :| 0 <= i < |store| && store[i] == x;
            var j :| 0 <= j < |store| && store[j] == s;
            assert TokenOf(store[i]) == TokenOf(store[j]);
          }
        }
      }
      s.active && !IsExpired(s, now).answer
  }

  /** `expireSession(session)`: the session with that token is switched off;
      nothing else changes. */
  function ExpireSession(store: seq<Session>, token: string): (r: seq<Session>)
    ensures |r| == |store|
    ensures forall i | 0 <= i < |r| :: r[i] == store[i].(active := store[i].active && store[i].token != token)
  {
    seq(|store|, i requires 0 <= i < |store| =>
      if store[i].token == token then store[i].(active := false) else store[i])
  }

  /** Two stores that agree, position by position, on tokens, and on which
      sessions holding `token` are usable at `now`, give `token` the same
      verdict. */
  lemma {:induction false} ValidateAgrees(a: seq<Session>, b: seq<Session>, token: string, now: int)
    requires |a| == |b|
    requires forall i | 0 <= i < |a| :: a[i].token == b[i].token
    requires forall i | 0 <= i < |a| && a[i].token == token ::
               (a[i].active && now <= a[i].expiresAt) == (b[i].active && now <= b[i].expiresAt)
    ensures ValidateSession(a, token, now) == ValidateSession(b, token, now)
  {
    if |a| > 0 {
      assert a[0].token == b[0].token;
      if a[0].token != token {
        ValidateAgrees(a[1..], b[1..], token, now);
        assert Find(a, (s: Session) => s.token == token) == Find(a[1..], (s: Session) => s.token == token);
        assert Find(b, (s: Session) => s.token == token) == Find(b[1..], (s: Session) => s.token == token);
      }
    }
  }

  /** After `expireSession` the token no longer validates, at any time, and
      every other token keeps its verdict. */
  lemma ExpireSessionEffect(store: seq<Session>, token: string, other: string, now: int)
    requires other != token
    ensures !ValidateSession(ExpireSession(store, token), token, now)
    ensures ValidateSession(ExpireSession(store, token), other, now) == ValidateSession(store, other, now)
  {
    var r := ExpireSession(store, token);
    ValidateAgrees(r, store, other, now);
  }

  /** `cleanupExpiredSessions()` at clock `now`: every active session that
      `isExpired` reports is saved switched off. Nothing is deleted, and
      which tokens validate at `now` does not change. */
  method CleanupExpiredSessions(store: seq<Session>, now: int) returns (r: seq<Session>)
    ensures |r| == |store|
    ensures forall i | 0 <= i < |r| :: r[i].active <==> store[i].active && now <= store[i].expiresAt
    ensures forall i | 0 <= i < |r| :: r[i] == store[i].(active := r[i].active)
    ensures forall token :: ValidateSession(r, token, now) == ValidateSession(store, token, now)
  {
    r := store;
    var i := 0;
    while i < |store|
      invariant 0 <= i <= |store| && |r| == |store|
      invariant forall k | 0 <= k < i :: r[k] == store[k].(active := store[k].active && now <= store[k].expiresAt)
      invariant forall k | i <= k < |store| :: r[k] == store[k]
    {
      if store[i].active {
        var checked := IsExpired(store[i], now);
        if checked.answer {
          r := r[i := checked.session];
        }
      }
      i := i + 1;
    }
    forall token
      ensures ValidateSession(r, token, now) == ValidateSession(store, token, now)
    {
      ValidateAgrees(r, store, token, now);
    }
  }

  /** A new session validates for its token from creation until one minute
      later, provided the generated token was fresh; the verdict for every
      other token is unchanged. */
  lemma CreatedSessionValidates(store: seq<Session>, tables: seq<Table>, qr: string, created: int, token: string, now: int)
    requires UniqueTokens(store) && !HasToken(store, token)
    requires CreateNewSession(store, tables, qr, created, token).Ok?
    ensures UniqueTokens(CreateNewSession(store, tables, qr, created, token).value.store)
    ensures ValidateSession(CreateNewSession(store, tables, qr, created, token).value.store, token, now)
            <==> now <= created + SESSION_LIFETIME
  {
    var c := CreateNewSession(store, tables, qr, created, token).value;
    assert c.store == store + [c.session];
    forall i, j | 0 <= i < j < |c.store|
      ensures TokenOf(c.store[i]) != TokenOf(c.store[j])
    {
      if j == |store| {
        assert c.store[i] == store[i];
        assert store[i] in store;
      } else {
        assert c.store[i] == store[i] && c.store[j] == store[j];
      }
    }
    assert c.store[|store|] == c.session;
    if now <= created + SESSION_LIFETIME {
      assert c.session in c.store;
    }
  }
}
