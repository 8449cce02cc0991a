/** `TableController`: creating tables with a fresh QR identifier, the QR
    link of a table, the table list for the dashboard, and the
    password-confirmed deletion of a table. Rendering the QR code image is
    not part of this model; the random UUID is a parameter. */
module TableController {
  import opened Common
  import opened JavaString
  import AdminEntity
  import opened PasswordEncoder
  import opened TableEntity
  import opened CallEntity
  import opened TableService
  import SessionEntity

  /** The address the printed QR codes point to. */
  const DOMAIN := "http://app1.scan.mk"
  const TABLE_PATH := "/table/"

  /** The link encoded in a table's QR code: the guest page for the table. */
  function QrUrl(qr: string): (url: string)
    ensures |url| == |DOMAIN| + |TABLE_PATH| + |qr|
    ensures url[|DOMAIN| + |TABLE_PATH|..] == qr
  {
    DOMAIN + TABLE_PATH + qr
  }

  /** The identifier a QR link carries, if the link has the table page's
      shape; the inverse of `QrUrl`. */
  function QrOfUrl(url: string): (qr: Option<string>)
    ensures qr.Some? <==> StartsWith(url, DOMAIN + TABLE_PATH)
    ensures qr.Some? ==> url == DOMAIN + TABLE_PATH + qr.value
  {
    var prefix := DOMAIN + TABLE_PATH;
    if StartsWith(url, prefix) then
      assert url == url[..|prefix|] + url[|prefix|..];
      Some(url[|prefix|..])
    else None
  }

  /** Reading the identifier back from a table's link gives the identifier. */
  lemma QrUrlRoundTrip(qr: string)
    ensures QrOfUrl(QrUrl(qr)) == Some(qr)
  {
    assert QrUrl(qr)[..|DOMAIN + TABLE_PATH|] == DOMAIN + TABLE_PATH;
  }

  /** Two tables have the same link only if they have the same identifier. */
  lemma QrUrlInjective(a: string, b: string)
    requires QrUrl(a) == QrUrl(b)
    ensures a == b
  {
    assert a == QrUrl(a)[|DOMAIN| + |TABLE_PATH|..];
  }

  predicate IsHexDigit(c: char) {
    '0' <= c <= '9' || 'a' <= c <= 'f'
  }

  /** The text of `UUID.randomUUID().toString()`: 36 characters, lower-case
      hex digits in groups of 8, 4, 4, 4 and 12 joined by dashes. */
  predicate IsUuidText(u: string) {
    && |u| == 36
    && forall k | 0 <= k < 36 :: if k in {8, 13, 18, 23} then u[k] == '-' else IsHexDigit(u[k])
  }

  /** The identifier given to a new table: the UUID's first eight characters,
      always eight hex digits. */
  function QrIdentifierOf(uuid: string): (qr: string)
    requires IsUuidText(uuid)
    ensures |qr| == 8
    ensures forall k | 0 <= k < 8 :: IsHexDigit(qr[k])
  {
    uuid[..8]
  }

  /** The fields of the request body. Jackson fills the private `id` too,
      through its visible getter, so a body may carry an id; the identifier
      is always overwritten. */
  datatype TableRequest = TableRequest(id: Option<int>, tableNumber: Option<string>, location: Option<string>, kind: Option<string>)

  /** The reply to a created table: the saved entity and its link. */
  datatype CreatedTable = CreatedTable(table: Table, qrUrl: string)

  /** `save` merges an entity whose id is not null; when a table with that id
      is stored, the merge overwrites that table's row. */
  predicate MergesInto(tables: seq<Table>, request: TableRequest) {
    request.id.Some? && ExistsById(tables, request.id.value)
  }

  /** `createTable(table)`: the saved table gets the first eight characters
      of a random UUID as identifier. A body carrying the id of a stored
      table overwrites that table, identifier included; any other body is
      inserted under a generated id. An identifier held by another row
      violates the unique constraint and the request fails with the
      framework's 500 error page. */
  function CreateTable(tables: seq<Table>, request: TableRequest, uuid: string, newId: int)
    : (r: (Response<CreatedTable>, seq<Table>))
    requires IsUuidText(uuid)
    ensures r.0.status == OK <==>
              forall t | t in tables :: t.qrIdentifier != QrIdentifierOf(uuid) || (MergesInto(tables, request) && t.id == request.id.value)
    ensures r.0.status != OK ==> r.0 == Response(INTERNAL_SERVER_ERROR, ErrorPage) && r.1 == tables
    ensures r.0.status == OK ==>
              && r.0.body.Payload?
              && r.0.body.value.table.qrIdentifier == QrIdentifierOf(uuid)
              && r.0.body.value.table.id == (if MergesInto(tables, request) then request.id.value else newId)
              && r.0.body.value.table == Table(r.0.body.value.table.id, request.tableNumber, request.location, request.kind, QrIdentifierOf(uuid))
              && QrOfUrl(r.0.body.value.qrUrl) == Some(QrIdentifierOf(uuid))
    ensures r.0.status == OK && !MergesInto(tables, request) ==> r.1 == tables + [r.0.body.value.table]
    ensures r.0.status == OK && MergesInto(tables, request) ==>
              && |r.1| == |tables|
              && forall t :: t in r.1 <==> t == r.0.body.value.table || (t in tables && t.id != request.id.value)
  {
    var qr := QrIdentifierOf(uuid);
    var merges := MergesInto(tables, request);
    var id := if merges then request.id.value else newId;
    if exists t | t in tables :: t.qrIdentifier == qr && !(merges && t.id == id) then
      (Response(INTERNAL_SERVER_ERROR, ErrorPage), tables)
    else
      var table := Table(id, request.tableNumber, request.location, request.kind, qr);
      QrUrlRoundTrip(qr);
      if merges then
        ReplaceByIdRows(tables, table);
        (Response(OK, Payload(CreatedTable(table, QrUrl(qr)))), ReplaceById(tables, table))
      else
        (Response(OK, Payload(CreatedTable(table, QrUrl(qr)))), tables + [table])
  }

  /** Creating tables keeps identifiers unique (a merge replaces one row when
      ids are unique, as primary keys are), and keeps ids unique when the
      generated id is fresh. */
  lemma CreateTableKeepsUnique(tables: seq<Table>, request: TableRequest, uuid: string, newId: int)
    requires IsUuidText(uuid)
    requires UniqueQrIdentifiers(tables)
    ensures UniqueIds(tables) || !MergesInto(tables, request) ==> UniqueQrIdentifiers(CreateTable(tables, request, uuid, newId).1)
    ensures UniqueIds(tables) && !ExistsById(tables, newId) ==> UniqueIds(CreateTable(tables, request, uuid, newId).1)
  {
    var c := CreateTable(tables, request, uuid, newId);
    var r := c.1;
    if c.0.status == OK && MergesInto(tables, request) {
      var table := c.0.body.value.table;
      forall i, j | 0 <= i < j < |r|
        ensures UniqueIds(tables) ==> r[i].qrIdentifier != r[j].qrIdentifier && r[i].id != r[j].id
      {
        if UniqueIds(tables) {
          assert r[i] == (if tables[i].id == table.id then table else tables[i]);
          assert r[j] == (if tables[j].id == table.id then table else tables[j]);
          assert tables[i] in tables && tables[j] in tables;
        }
      }
    } else if c.0.status == OK {
      forall i, j | 0 <= i < j < |r|
        ensures r[i].qrIdentifier != r[j].qrIdentifier
        ensures UniqueIds(tables) && !ExistsById(tables, newId) ==> r[i].id != r[j].id
      {
        if j < |tables| {
          assert r[i] == tables[i] && r[j] == tables[j];
        } else {
          assert r[i] == tables[i] && tables[i] in tables;
        }
      }
    }
  }

  /** A body carrying the id of a stored table re-keys it: the row keeps its
      id and answers to the new identifier, and its old identifier, the one
      printed in the table's QR code, no longer finds any table. */
  lemma IdInBodyRetiresQr(tables: seq<Table>, request: TableRequest, uuid: string, newId: int, k: int)
    requires IsUuidText(uuid)
    requires UniqueIds(tables) && UniqueQrIdentifiers(tables)
    requires 0 <= k < |tables| && request.id == Some(tables[k].id)
    requires QrIdentifierOf(uuid) != tables[k].qrIdentifier
    requires CreateTable(tables, request, uuid, newId).0.status == OK
    ensures |CreateTable(tables, request, uuid, newId).1| == |tables|
    ensures FindByQrIdentifier(CreateTable(tables, request, uuid, newId).1, tables[k].qrIdentifier).None?
    ensures GetQr(CreateTable(tables, request, uuid, newId).1, tables[k].qrIdentifier) == Response(INTERNAL_SERVER_ERROR, ErrorPage)
    ensures CreateTable(tables, request, uuid, newId).1[k] == CreateTable(tables, request, uuid, newId).0.body.value.table
    ensures CreateTable(tables, request, uuid, newId).1[k].id == tables[k].id
  {
    assert MergesInto(tables, request) by {
      assert tables[k] in tables;
    }
    var r := CreateTable(tables, request, uuid, newId).1;
    forall t | t in r
      ensures t.qrIdentifier != tables[k].qrIdentifier
    {
      var i :| 0 <= i < |r| && r[i] == t;
      if tables[i].id != tables[k].id {
        assert i != k && r[i] == tables[i];
      }
    }
  }

  /** After a merge, looking the posted id up finds the merged table: the
      row answers to its new identifier from then on. */
  lemma MergedRowFound(tables: seq<Table>, request: TableRequest, uuid: string, newId: int)
    requires IsUuidText(uuid)
    requires UniqueIds(tables) && MergesInto(tables, request)
    requires CreateTable(tables, request, uuid, newId).0.status == OK
    ensures FindTableById(CreateTable(tables, request, uuid, newId).1, request.id.value)
            == Some(CreateTable(tables, request, uuid, newId).0.body.value.table)
  {
    var created := CreateTable(tables, request, uuid, newId);
    assert created.0.body.value.table in created.1;
  }

  /** `getQr(qr)`: the table's link, or the framework's 500 page for the
      uncaught "Table not found". */
  function GetQr(tables: seq<Table>, qr: string): (r: Response<()>)
    ensures r.status == OK <==> exists t | t in tables :: t.qrIdentifier == qr
    ensures r.status == OK ==> r.body.Text? && QrOfUrl(r.body.text) == Some(qr)
    ensures r.status != OK ==> r == Response(INTERNAL_SERVER_ERROR, ErrorPage)
  {
    match GetByQrIdentifier(tables, qr)
    case Err(_) => Response(INTERNAL_SERVER_ERROR, ErrorPage)
    case Ok(t) =>
      QrUrlRoundTrip(t.qrIdentifier);
      Response(OK, Text(QrUrl(t.qrIdentifier)))
  }

  /** One entry of the table list. */
  datatype TableView = TableView(id: int, tableNumber: string, location: string, kind: string, qrUrl: string)

  /** `Map.of` refuses null values, so a table can only be listed when all
      its optional columns are filled. */
  predicate Listable(t: Table) {
    t.tableNumber.Some? && t.location.Some? && t.kind.Some?
  }

  function ViewOf(t: Table): (v: TableView)
    requires Listable(t)
    ensures v.id == t.id && Some(v.tableNumber) == t.tableNumber
    ensures Some(v.location) == t.location && Some(v.kind) == t.kind
    ensures QrOfUrl(v.qrUrl) == Some(t.qrIdentifier)
  {
    QrUrlRoundTrip(t.qrIdentifier);
    TableView(t.id, t.tableNumber.value, t.location.value, t.kind.value, QrUrl(t.qrIdentifier))
  }

  /** `getAll()`: one entry per stored table, in order; a single table with a
      missing number, location or type makes the whole request fail with the
      framework's 500 page. */
  function GetAll(tables: seq<Table>): (r: Response<seq<TableView>>)
    ensures r.status == OK <==> forall t | t in tables :: Listable(t)
    ensures r.status != OK ==> r == Response(INTERNAL_SERVER_ERROR, ErrorPage)
    ensures r.status == OK ==> && r.body.Payload? && |r.body.value| == |tables|
                               && forall i | 0 <= i < |tables| ::
                                    && r.body.value[i].id == tables[i].id
                                    && Some(r.body.value[i].tableNumber) == tables[i].tableNumber
                                    && Some(r.body.value[i].location) == tables[i].location
                                    && Some(r.body.value[i].kind) == tables[i].kind
                                    && QrOfUrl(r.body.value[i].qrUrl) == Some(tables[i].qrIdentifier)
  {
    if forall t | t in tables :: Listable(t) then
      Response(OK, Payload(seq(|tables|, i requires 0 <= i < |tables| => ViewOf(tables[i]))))
    else Response(INTERNAL_SERVER_ERROR, ErrorPage)
  }

  /** The reply to a deletion and both stores afterwards. */
  datatype Outcome = Outcome(response: Response<()>, stores: Stores)

  /** The administrator whose password confirms a deletion: the first one
      stored, whoever sends the request. */
  function ConfirmingAdmin(admins: seq<AdminEntity.Admin>): (a: Option<AdminEntity.Admin>)
    ensures a.Some? <==> |admins| > 0
    ensures a.Some? ==> a.value == admins[0]
  {
    if |admins| == 0 then None else Some(admins[0])
  }

  /** `DELETE /api/tables/{id}`. A missing `Authorization` header is refused
      by the framework with 400; a header that is not a bearer token gives
      401. The token itself is never checked. The password must be present,
      not blank and match the first stored administrator's; the table must
      exist; then the service deletes it, and a deletion that fails (a
      session still references the table, `violation` being the database's
      message) is answered 500 with both stores as they were. */
  function DeleteTable(header: Option<string>, password: Option<string>, admins: seq<AdminEntity.Admin>, s: Stores, id: int,
                       matches: Matcher, violation: string)
    : (r: Outcome)
    ensures header.None? ==> r.response == Response(BAD_REQUEST, ErrorPage)
    ensures header.Some? && !StartsWith(header.value, "Bearer ") ==> r.response == Response(UNAUTHORIZED, Text("Unauthorized"))
    ensures Bearer(header) && (password.None? || IsBlank(password.value)) ==>
              r.response == Response(BAD_REQUEST, Text("Password required"))
    ensures Bearer(header) && password.Some? && !IsBlank(password.value) && |admins| == 0 ==>
              r.response == Response(UNAUTHORIZED, Text("Admin not found"))
    ensures Bearer(header) && password.Some? && !IsBlank(password.value) && |admins| > 0
            && !matches(password.value, admins[0].password) ==>
              r.response == Response(UNAUTHORIZED, Text("Invalid password"))
    ensures Confirmed(header, password, admins, matches) && !ExistsById(s.tables, id) ==>
              r.response == Response(NOT_FOUND, Text("Table not found"))
    ensures Confirmed(header, password, admins, matches) && ExistsById(s.tables, id) && ReferencedBySession(s, id) ==>
              r.response == Response(INTERNAL_SERVER_ERROR, Text("Error deleting table: " + violation))
    ensures r.response.status == OK <==>
              && Confirmed(header, password, admins, matches)
              && ExistsById(s.tables, id) && !ReferencedBySession(s, id)
    ensures r.response.status != OK ==> r.stores == s
    ensures r.response.status == OK ==> r.response.body == Text("Table deleted successfully")
                                        && Ok(r.stores) == TableService.DeleteTable(s, id, violation)
  {
    if header.None? then Outcome(Response(BAD_REQUEST, ErrorPage), s)
    else if !StartsWith(header.value, "Bearer ") then Outcome(Response(UNAUTHORIZED, Text("Unauthorized")), s)
    else if password.None? || IsBlank(password.value) then Outcome(Response(BAD_REQUEST, Text("Password required")), s)
    else
      match ConfirmingAdmin(admins)
      case None => Outcome(Response(UNAUTHORIZED, Text("Admin not found")), s)
      case Some(admin) =>
        if !matches(password.value, admin.password) then Outcome(Response(UNAUTHORIZED, Text("Invalid password")), s)
        else if !ExistsById(s.tables, id) then Outcome(Response(NOT_FOUND, Text("Table not found")), s)
        else match TableService.DeleteTable(s, id, violation)
          case Err(m) => Outcome(Response(INTERNAL_SERVER_ERROR, Text("Error deleting table: " + m)), s)
          case Ok(after) => Outcome(Response(OK, Text("Table deleted successfully")), after)
  }

  /** A header that passes the first check of `deleteTable`. */
  predicate Bearer(header: Option<string>) {
    header.Some? && StartsWith(header.value, "Bearer ")
  }

  /** The request gets past every check that does not look at the table:
      bearer header, a password that is not blank, and a first stored
      administrator whose hash it matches. */
  predicate Confirmed(header: Option<string>, password: Option<string>, admins: seq<AdminEntity.Admin>, matches: Matcher) {
    && Bearer(header)
    && password.Some? && !IsBlank(password.value)
    && |admins| > 0 && matches(password.value, admins[0].password)
  }

  /** Only the bearer prefix matters: any two bearer headers get the same
      answer. */
  lemma BearerTokenIgnored(tokenA: string, tokenB: string, password: Option<string>, admins: seq<AdminEntity.Admin>, s: Stores, id: int,
                           matches: Matcher, violation: string)
    ensures DeleteTable(Some("Bearer " + tokenA), password, admins, s, id, matches, violation)
            == DeleteTable(Some("Bearer " + tokenB), password, admins, s, id, matches, violation)
  {
    assert StartsWith("Bearer " + tokenA, "Bearer ");
    assert StartsWith("Bearer " + tokenB, "Bearer ");
  }

  /** An administrator other than the first cannot delete a table with their
      own password unless it also matches the first administrator's hash:
      a bearer request with such a password is told "Invalid password", and
      nothing changes. */
  lemma OnlyFirstAdminConfirms(header: Option<string>, password: Option<string>, admins: seq<AdminEntity.Admin>, s: Stores, id: int,
                               matches: Matcher, violation: string)
    requires |admins| > 0 && password.Some? && !matches(password.value, admins[0].password)
    ensures DeleteTable(header, password, admins, s, id, matches, violation).response.status != OK
    ensures DeleteTable(header, password, admins, s, id, matches, violation).stores == s
    ensures Bearer(header) && !IsBlank(password.value) ==>
              DeleteTable(header, password, admins, s, id, matches, violation).response
              == Response(UNAUTHORIZED, Text("Invalid password"))
  {
  }

  /** A confirmed deletion removes the table and its calls and keeps every
      remaining call and session pointing at a stored table. */
  lemma ConfirmedDeletionCascades(header: Option<string>, password: Option<string>, admins: seq<AdminEntity.Admin>, s: Stores, id: int,
                                  matches: Matcher, violation: string)
    requires CallsReferenceTables(s) && SessionsReferenceTables(s)
    requires DeleteTable(header, password, admins, s, id, matches, violation).response.status == OK
    ensures var after := DeleteTable(header, password, admins, s, id, matches, violation).stores;
            && !ExistsById(after.tables, id)
            && (forall c | c in after.calls :: c.table.id != id)
            && after.sessions == s.sessions
            && CallsReferenceTables(after) && SessionsReferenceTables(after)
  {
    DeleteTableKeepsReferences(s, id, violation);
  }

  /** A table someone has scanned cannot be deleted while the session row
      exists, however correct the password: the administrator gets a 500
      and the table and its calls stay. */
  lemma SessionBlocksDeletion(header: Option<string>, password: Option<string>, admins: seq<AdminEntity.Admin>, s: Stores, id: int,
                              matches: Matcher, violation: string, session: SessionEntity.Session)
    requires Confirmed(header, password, admins, matches)
    requires session in s.sessions && ExistsById(s.tables, session.table.id) && session.table.id == id
    ensures DeleteTable(header, password, admins, s, id, matches, violation)
            == Outcome(Response(INTERNAL_SERVER_ERROR, Text("Error deleting table: " + violation)), s)
  {
  }
}
