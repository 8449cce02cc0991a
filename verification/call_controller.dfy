/** `CallController.createCall`: the endpoint a guest's phone posts to when the
    waiter or bill button is pressed. It checks the session token in the
    `X-Session-Token` header, that the session belongs to the scanned table,
    and the call kind, before handing over to `CallService.createCall`. The
    controller reads the clock three times (in `validateSession`, in
    `isExpired` and in `createCall`); each reading is a parameter. */
module CallController {
  import opened Common
  import opened TableEntity
  import opened SessionEntity
  import opened SessionRepository
  import opened SessionService
  import opened CallEntity
  import opened CallService
  import opened TableService
  import TableController

  /** The reply and both stores after the request. */
  datatype Outcome = Outcome(response: Response<Call>, sessions: seq<Session>, calls: seq<Call>)

  /** Why the session checks refused a request. */
  datatype Refusal = InvalidSession | UnknownToken | ExpiredSession | ForeignSession

  /** The 403 body for each refusal. */
  function RefusalText(why: Refusal): (text: string)
    ensures |text| > 0
  {
    match why
    case InvalidSession => "Session expired or invalid. Please rescan QR code."
    case UnknownToken => "Invalid session token."
    case ExpiredSession => "Session expired. Please rescan QR code."
    case ForeignSession => "Session token does not belong to this table."
  }

  /** The result of the session checks: the session to go on with, or the
      refusal and the session store after it. */
  datatype Gate = Pass(session: Session) | Refuse(why: Refusal, sessions: seq<Session>)

  /** The session belongs to the table with identifier `qr`: the session's
      `@ManyToOne` table is loaded from the store, so the identifier compared
      is the one the table's row holds now, not the one it had when the
      session was issued. */
  predicate BelongsTo(tables: seq<Table>, s: Session, qr: string) {
    var row := FindTableById(tables, s.table.id);
    row.Some? && row.value.qrIdentifier == qr
  }

  /** Steps one to four: a missing or invalid token, an unknown token, a
      session that is off or expired when looked at again (it is then
      switched off), and a session of another table are refused. Only the
      expired session changes the store. */
  function SessionGate(sessions: seq<Session>, tables: seq<Table>, qr: string, token: Option<string>, validatedAt: int, checkedAt: int)
    : (g: Gate)
    ensures g.Refuse? && g.why != ExpiredSession ==> g.sessions == sessions
    ensures g.Refuse? && g.why == ExpiredSession ==> token.Some? && g.sessions == ExpireSession(sessions, token.value)
    ensures g.Pass? <==> && token.Some? && ValidateSession(sessions, token.value, validatedAt)
                         && checkedAt <= FindByToken(sessions, token.value).value.expiresAt
                         && BelongsTo(tables, FindByToken(sessions, token.value).value, qr)
    ensures g.Pass? ==> && g.session in sessions && g.session.token == token.value && g.session.active
                        && validatedAt <= g.session.expiresAt && checkedAt <= g.session.expiresAt
                        && exists t | t in tables :: t.id == g.session.table.id && t.qrIdentifier == qr
  {
    if token.None? || !ValidateSession(sessions, token.value, validatedAt) then
      Refuse(InvalidSession, sessions)
    else
      match FindByToken(sessions, token.value)
      case None => Refuse(UnknownToken, sessions)
      case Some(s) =>
        if !s.active || IsExpired(s, checkedAt).answer then
          Refuse(ExpiredSession, ExpireSession(sessions, token.value))
        else if !BelongsTo(tables, s, qr) then
          Refuse(ForeignSession, sessions)
        else Pass(s)
  }

  /** Steps five to eight, for a request whose session passed: the table
      lookup and the call service's refusal surface as 500 with the
      exception text, an unknown kind as 400, and a placed call as 200. */
  function PlaceCall(calls: seq<Call>, tables: seq<Table>, qr: string, typeName: string, calledAt: int, newId: int)
    : (r: (Response<Call>, seq<Call>))
    ensures r.0.status == OK <==> && GetByQrIdentifier(tables, qr).Ok? && ParseCallType(typeName).Some?
                                  && !CoolingDown(calls, GetByQrIdentifier(tables, qr).value, ParseCallType(typeName).value, calledAt)
    ensures r.0.status != OK ==> r.1 == calls
    ensures GetByQrIdentifier(tables, qr).Err? ==> r.0 == Response(INTERNAL_SERVER_ERROR, Text("Error: Table not found"))
    ensures GetByQrIdentifier(tables, qr).Ok? && ParseCallType(typeName).None? ==>
              r.0 == Response(BAD_REQUEST, Text("Invalid call type: " + typeName))
    ensures r.0.status == OK ==>
              var placed := CreateCall(calls, GetByQrIdentifier(tables, qr).value, ParseCallType(typeName).value, calledAt, newId).value;
              r.0.body == Payload(placed.call) && r.1 == placed.calls
    ensures r.0.status in {OK, BAD_REQUEST, INTERNAL_SERVER_ERROR}
  {
    match GetByQrIdentifier(tables, qr)
    case Err(m) =>
      assert "Error: " + m == "Error: Table not found";
      (Response(INTERNAL_SERVER_ERROR, Text("Error: " + m)), calls)
    case Ok(table) =>
      match ParseCallType(typeName)
      case None => (Response(BAD_REQUEST, Text("Invalid call type: " + typeName)), calls)
      case Some(kind) =>
        match CreateCall(calls, table, kind, calledAt, newId)
        case Err(m) => (Response(INTERNAL_SERVER_ERROR, Text("Error: " + m)), calls)
        case Ok(placed) => (Response(OK, Payload(placed.call)), placed.calls)
  }

  /** `POST /api/calls/{qrIdentifier}/{type}`. */
  function CreateCallRequest(
    sessions: seq<Session>, tables: seq<Table>, calls: seq<Call>,
    qr: string, typeName: string, token: Option<string>,
    validatedAt: int, checkedAt: int, calledAt: int, newId: int)
    : (r: Outcome)
    ensures r.response.status in {OK, BAD_REQUEST, FORBIDDEN, INTERNAL_SERVER_ERROR}
    ensures r.response.status == FORBIDDEN <==> SessionGate(sessions, tables, qr, token, validatedAt, checkedAt).Refuse?
    ensures r.response.status != FORBIDDEN ==> r.sessions == sessions
    ensures r.response.status != OK ==> r.calls == calls
    ensures r.response.status != FORBIDDEN ==>
              (r.response, r.calls) == PlaceCall(calls, tables, qr, typeName, calledAt, newId)
  {
    match SessionGate(sessions, tables, qr, token, validatedAt, checkedAt)
    case Refuse(why, after) => Outcome(Response(FORBIDDEN, Text(RefusalText(why))), after, calls)
    case Pass(_) =>
      var placed := PlaceCall(calls, tables, qr, typeName, calledAt, newId);
      Outcome(placed.0, sessions, placed.1)
  }

  /** A placed call always comes from an active, unexpired session whose
      table holds the path's identifier now, and the call is an open call of
      a stored table made at the service's clock. With identifiers unique,
      as the column is, that table is the session's own. */
  lemma AcceptedCallHasValidSession(
    sessions: seq<Session>, tables: seq<Table>, calls: seq<Call>,
    qr: string, typeName: string, token: Option<string>,
    validatedAt: int, checkedAt: int, calledAt: int, newId: int)
    requires CreateCallRequest(sessions, tables, calls, qr, typeName, token, validatedAt, checkedAt, calledAt, newId).response.status == OK
    ensures token.Some?
    ensures exists s | s in sessions :: && s.token == token.value && s.active && checkedAt <= s.expiresAt
                                         && BelongsTo(tables, s, qr)
    ensures var body := CreateCallRequest(sessions, tables, calls, qr, typeName, token, validatedAt, checkedAt, calledAt, newId).response.body;
            && body.Payload? && body.value.table.qrIdentifier == qr && !body.value.resolved
            && body.value.createdAt == calledAt && body.value.table in tables
    ensures UniqueQrIdentifiers(tables) ==>
              CreateCallRequest(sessions, tables, calls, qr, typeName, token, validatedAt, checkedAt, calledAt, newId).response.body.value.table.id
              == FindByToken(sessions, token.value).value.table.id
  {
    var g := SessionGate(sessions, tables, qr, token, validatedAt, checkedAt);
    assert g.session in sessions;
    if UniqueQrIdentifiers(tables) {
      var row := FindTableById(tables, g.session.table.id).value;
      var i :| 0 <= i < |tables| && tables[i] == row;
      FindByQrIdentifierUnique(tables, i);
    }
  }

  /** A merge that re-keys a session's table moves the session with it: the
      same token is accepted on the table's new identifier and refused as
      foreign on the old one, the one the guest scanned. */
  lemma GateFollowsReKeyedTable(
    sessions: seq<Session>, tables: seq<Table>, qr: string, token: string, validatedAt: int, checkedAt: int,
    request: TableController.TableRequest, uuid: string, newId: int)
    requires TableController.IsUuidText(uuid)
    requires UniqueIds(tables)
    requires SessionGate(sessions, tables, qr, Some(token), validatedAt, checkedAt).Pass?
    requires request.id == Some(FindByToken(sessions, token).value.table.id)
    requires TableController.QrIdentifierOf(uuid) != qr
    requires TableController.CreateTable(tables, request, uuid, newId).0.status == OK
    ensures SessionGate(sessions, TableController.CreateTable(tables, request, uuid, newId).1, TableController.QrIdentifierOf(uuid), Some(token), validatedAt, checkedAt).Pass?
    ensures SessionGate(sessions, TableController.CreateTable(tables, request, uuid, newId).1, qr, Some(token), validatedAt, checkedAt)
            == Refuse(ForeignSession, sessions)
  {
    var s := FindByToken(sessions, token).value;
    assert TableController.MergesInto(tables, request) by {
      assert FindTableById(tables, s.table.id).value in tables;
    }
    TableController.MergedRowFound(tables, request, uuid, newId);
  }

  /** Without a valid token the answer is the same 403 whatever the table
      and the kind, and nothing is stored. */
  lemma InvalidTokenRefused(
    sessions: seq<Session>, tables: seq<Table>, calls: seq<Call>,
    qr: string, typeName: string, token: Option<string>,
    validatedAt: int, checkedAt: int, calledAt: int, newId: int)
    requires token.None? || !ValidateSession(sessions, token.value, validatedAt)
    ensures CreateCallRequest(sessions, tables, calls, qr, typeName, token, validatedAt, checkedAt, calledAt, newId)
            == Outcome(Response(FORBIDDEN, Text(RefusalText(InvalidSession))), sessions, calls)
  {
  }

  /** The unknown-token refusal of step two never happens: a token that
      validated is always found again. */
  lemma UnknownTokenUnreachable(sessions: seq<Session>, tables: seq<Table>, qr: string, token: Option<string>, validatedAt: int, checkedAt: int)
    ensures SessionGate(sessions, tables, qr, token, validatedAt, checkedAt).Refuse? ==>
              SessionGate(sessions, tables, qr, token, validatedAt, checkedAt).why != UnknownToken
  {
  }

  /** A session that validated but expired before it was looked at again is
      switched off in the store, so the next request with it is refused at
      the first step. */
  lemma ExpiredBetweenChecks(
    sessions: seq<Session>, tables: seq<Table>, calls: seq<Call>,
    qr: string, typeName: string, token: string,
    validatedAt: int, checkedAt: int, calledAt: int, newId: int, later: int)
    requires ValidateSession(sessions, token, validatedAt)
    requires checkedAt > FindByToken(sessions, token).value.expiresAt
    ensures var r := CreateCallRequest(sessions, tables, calls, qr, typeName, Some(token), validatedAt, checkedAt, calledAt, newId);
            && r.response == Response(FORBIDDEN, Text(RefusalText(ExpiredSession)))
            && r.sessions == ExpireSession(sessions, token)
            && !ValidateSession(r.sessions, token, later)
  {
    assert SessionGate(sessions, tables, qr, Some(token), validatedAt, checkedAt) == Refuse(ExpiredSession, ExpireSession(sessions, token));
    ExpireSessionEffect(sessions, token, token + "x", later);
  }
}
