/** The `Session` entity: a token handed to one phone after it scanned a
    table's QR code, valid for one minute. `isExpired` and `isValid` read the
    clock and may deactivate the session as a side effect, so here they
    return the answer together with the session as it is afterwards. */
module SessionEntity {
  import opened Common
  import opened TableEntity

  /** How long a new session stays usable. */
  const SESSION_LIFETIME: int := MINUTE

  datatype Session = Session(
    table: Table,
    token: string,
    createdAt: int,
    expiresAt: int,
    active: bool)

  /** An answer of a session method and the session after the call. */
  datatype Checked = Checked(answer: bool, session: Session)

  /** `new Session(table)` at clock `now` with the generated token: the
      `active` field defaults to true and the expiry is one minute ahead. */
  function NewSession(table: Table, token: string, now: int): (s: Session)
    ensures s.table == table && s.token == token
    ensures s.active
    ensures s.createdAt == now && s.expiresAt == now + SESSION_LIFETIME
  {
    Session(table, token, now, now + SESSION_LIFETIME, true)
  }

  /** `isExpired()`: expired strictly after `expiresAt`; an expired active
      session is switched off. */
  function IsExpired(s: Session, now: int): (r: Checked)
    ensures r.answer <==> now > s.expiresAt
    ensures r.session == s.(active := s.active && !r.answer)
  {
    var expired := now > s.expiresAt;
    if expired && s.active then Checked(expired, s.(active := false)) else Checked(expired, s)
  }

  /** `isValid()`: `active && !isExpired()`, evaluated left to right, so the
      clock is only read for an active session. */
  function IsValid(s: Session, now: int): (r: Checked)
    ensures r.answer <==> s.active && now <= s.expiresAt
    ensures r.session == s.(active := r.answer)
  {
    if !s.active then Checked(false, s)
    else
      var e := IsExpired(s, now);
      Checked(!e.answer, e.session)
  }

  /** `isExpired` never switches a session on, and touches nothing but the
      flag. */
  lemma IsExpiredOnlyDeactivates(s: Session, now: int)
    ensures IsExpired(s, now).session.active ==> s.active
    ensures IsExpired(s, now).session.(active := s.active) == s
  {
  }

  /** The exact expiry instant is not yet expired. */
  lemma ExpiryInstantNotExpired(s: Session)
    ensures !IsExpired(s, s.expiresAt).answer
    ensures IsExpired(s, s.expiresAt).session == s
    ensures IsExpired(s, s.expiresAt + 1).answer
  {
  }

  /** A new session is valid from its creation up to and including one minute
      later, and at no later time. */
  lemma NewSessionValidity(table: Table, token: string, created: int, now: int)
    requires created <= now
    ensures IsValid(NewSession(table, token, created), now).answer <==> now <= created + SESSION_LIFETIME
  {
  }

  /** Asking `isValid` twice at the same clock gives the same answer, and the
      second call changes nothing. */
  lemma IsValidStable(s: Session, now: int)
    ensures IsValid(IsValid(s, now).session, now) == Checked(IsValid(s, now).answer, IsValid(s, now).session)
  {
  }
}
