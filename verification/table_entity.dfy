/** `TableEntity` and the queries of `TableRepository` the core uses. The
    repository is the sequence of stored tables in `findAll` order. */
module TableEntity {
  import opened Common

  /** A restaurant table. `tableNumber`, `location` and `kind` (the entity's
      `type`, "High" or "Low") are nullable columns; `qrIdentifier` is the
      non-null, unique code printed in the table's QR code. */
  datatype Table = Table(
    id: int,
    tableNumber: Option<string>,
    location: Option<string>,
    kind: Option<string>,
    qrIdentifier: string)

  /** The `unique = true` constraint on `qrIdentifier`. */
  predicate UniqueQrIdentifiers(tables: seq<Table>) {
    forall i, j | 0 <= i < j < |tables| :: tables[i].qrIdentifier != tables[j].qrIdentifier
  }

  /** Generated primary keys never repeat. */
  predicate UniqueIds(tables: seq<Table>) {
    forall i, j | 0 <= i < j < |tables| :: tables[i].id != tables[j].id
  }

  /** `findByQrIdentifier`: the table with that identifier, or none. */
  function FindByQrIdentifier(tables: seq<Table>, qr: string): (r: Option<Table>)
    ensures r.None? <==> forall t | t in tables :: t.qrIdentifier != qr
    ensures r.Some? ==> r.value in tables && r.value.qrIdentifier == qr
  {
    Find(tables, (t: Table) => t.qrIdentifier == qr)
  }

  /** With unique identifiers the lookup is determined: it returns the one
      table that carries the identifier. */
  lemma FindByQrIdentifierUnique(tables: seq<Table>, i: int)
    requires UniqueQrIdentifiers(tables)
    requires 0 <= i < |tables|
    ensures FindByQrIdentifier(tables, tables[i].qrIdentifier) == Some(tables[i])
  {
    var r := FindByQrIdentifier(tables, tables[i].qrIdentifier);
    var j :| 0 <= j < |tables| && tables[j] == r.value;
    assert j == i;
  }

  /** `findById`: the stored row with that id as it is now, which is also
      what an eager `@ManyToOne` reference to the table loads. */
  function FindTableById(tables: seq<Table>, id: int): (r: Option<Table>)
    ensures r.None? <==> forall t | t in tables :: t.id != id
    ensures r.Some? ==> r.value in tables && r.value.id == id
  {
    Find(tables, (t: Table) => t.id == id)
  }

  /** With unique ids the row found is the one stored under the id. */
  lemma FindTableByIdUnique(tables: seq<Table>, t: Table)
    requires UniqueIds(tables)
    requires t in tables
    ensures FindTableById(tables, t.id) == Some(t)
  {
    var r := FindTableById(tables, t.id);
    var i :| 0 <= i < |tables| && tables[i] == t;
    var j :| 0 <= j < |tables| && tables[j] == r.value;
    assert i == j;
  }

  /** `existsById`. */
  predicate ExistsById(tables: seq<Table>, id: int) {
    exists t | t in tables :: t.id == id
  }

  /** `deleteById`: every table with that id goes, the rest keep their order. */
  function DeleteById(tables: seq<Table>, id: int): (r: seq<Table>)
    ensures forall t :: t in r <==> t in tables && t.id != id
    ensures !ExistsById(r, id)
    ensures !ExistsById(tables, id) ==> r == tables
  {
    var r := Filter(tables, (t: Table) => t.id != id);
    assert !ExistsById(tables, id) ==> r == tables by {
      if !ExistsById(tables, id) {
        FilterKeepsAll(tables, (t: Table) => t.id != id);
      }
    }
    r
  }

  /** `merge` of an entity whose id is stored: the row with that id takes the
      entity's state, every other row and the order stay. */
  function ReplaceById(tables: seq<Table>, table: Table): (r: seq<Table>)
    ensures |r| == |tables|
    ensures forall i | 0 <= i < |r| :: r[i] == if tables[i].id == table.id then table else tables[i]
  {
    seq(|tables|, i requires 0 <= i < |tables| => if tables[i].id == table.id then table else tables[i])
  }

  /** After a merge, the rows are the merged entity and the rows with other
      ids; no row keeps the old state of the merged id. */
  lemma ReplaceByIdRows(tables: seq<Table>, table: Table)
    requires ExistsById(tables, table.id)
    ensures forall t :: t in ReplaceById(tables, table) <==> t == table || (t in tables && t.id != table.id)
  {
    var r := ReplaceById(tables, table);
    var k :| 0 <= k < |tables| && tables[k].id == table.id;
    assert r[k] == table;
    forall t | t in tables && t.id != table.id
      ensures t in r
    {
      var i :| 0 <= i < |tables| && tables[i] == t;
      assert r[i] == t;
    }
  }
}
