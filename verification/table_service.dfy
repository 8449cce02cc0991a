/** `TableService`: looking a table up by its QR identifier and deleting a
    table together with its calls. Sessions reference tables too, and a
    deletion does not remove them. */
module TableService {
  import opened Common
  import opened TableEntity
  import opened CallEntity
  import opened CallRepository
  import SessionEntity

  /** `getByQrIdentifier(qr)`: the table, or the exception "Table not found". */
  function GetByQrIdentifier(tables: seq<Table>, qr: string): (r: Result<Table>)
    ensures r.Err? <==> forall t | t in tables :: t.qrIdentifier != qr
    ensures r.Err? ==> r.message == "Table not found"
    ensures r.Ok? ==> r.value in tables && r.value.qrIdentifier == qr
  {
    match FindByQrIdentifier(tables, qr)
    case None => Err("Table not found")
    case Some(t) => Ok(t)
  }

  /** The stores a table deletion reads or touches. */
  datatype Stores = Stores(tables: seq<Table>, calls: seq<Call>, sessions: seq<SessionEntity.Session>)

  /** Every call references a stored table: the foreign key from calls to
      tables. */
  predicate CallsReferenceTables(s: Stores) {
    forall c | c in s.calls :: ExistsById(s.tables, c.table.id)
  }

  /** Every session references a stored table: the foreign key from
      sessions to tables. */
  predicate SessionsReferenceTables(s: Stores) {
    forall x | x in s.sessions :: ExistsById(s.tables, x.table.id)
  }

  /** Some stored session, expired or not, still points at table `id`. */
  predicate ReferencedBySession(s: Stores, id: int) {
    exists x | x in s.sessions :: x.table.id == id
  }

  /** `deleteTable(id)`, one transaction: the table's calls go first, then the
      table. Sessions are left alone, so when one still references the table
      the foreign key from sessions to tables fails the transaction at
      commit; it rolls back and the exception carries the database's
      message, `violation` here. Deleting an id that is not stored removes
      nothing and cannot fail. */
  function DeleteTable(s: Stores, id: int, violation: string): (r: Result<Stores>)
    ensures r.Err? <==> ExistsById(s.tables, id) && ReferencedBySession(s, id)
    ensures r.Err? ==> r.message == violation
    ensures r.Ok? ==>
              && (forall c :: c in r.value.calls <==> c in s.calls && c.table.id != id)
              && (forall t :: t in r.value.tables <==> t in s.tables && t.id != id)
              && !ExistsById(r.value.tables, id)
              && r.value.sessions == s.sessions
    ensures !ExistsById(s.tables, id) ==> r.Ok? && r.value.tables == s.tables
  {
    var after := Stores(DeleteById(s.tables, id), DeleteAllByTableId(s.calls, id), s.sessions);
    if ExistsById(s.tables, id) && ReferencedBySession(s, id) then Err(violation) else Ok(after)
  }

  /** A deletion that commits keeps both foreign keys intact: no call is
      left pointing at the removed table (they went first), and no session
      was pointing at it (or the commit would have failed). */
  lemma DeleteTableKeepsReferences(s: Stores, id: int, violation: string)
    requires CallsReferenceTables(s) && SessionsReferenceTables(s)
    requires DeleteTable(s, id, violation).Ok?
    ensures CallsReferenceTables(DeleteTable(s, id, violation).value)
    ensures SessionsReferenceTables(DeleteTable(s, id, violation).value)
  {
    var r := DeleteTable(s, id, violation).value;
    forall c | c in r.calls
      ensures ExistsById(r.tables, c.table.id)
    {
      var t :| t in s.tables && t.id == c.table.id;
      assert t in r.tables;
    }
    forall x | x in r.sessions
      ensures ExistsById(r.tables, x.table.id)
    {
      assert x in s.sessions;
      var t :| t in s.tables && t.id == x.table.id;
      assert t.id != id;
      assert t in r.tables;
    }
  }

  /** Deleting the same table twice is deleting it once: the second call
      finds no table and cannot fail. */
  lemma DeleteTableIdempotent(s: Stores, id: int, violation: string, again: string)
    requires DeleteTable(s, id, violation).Ok?
    ensures DeleteTable(DeleteTable(s, id, violation).value, id, again).Ok?
    ensures DeleteTable(DeleteTable(s, id, violation).value, id, again).value.tables == DeleteTable(s, id, violation).value.tables
    ensures forall c :: c in DeleteTable(DeleteTable(s, id, violation).value, id, again).value.calls
                        <==> c in DeleteTable(s, id, violation).value.calls
  {
  }
}
