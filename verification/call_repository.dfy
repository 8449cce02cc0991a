/** The derived queries of `CallRepository` over the stored calls, in
    `findAll` order. A call belongs to a table when it references that
    table's id. The order the database gives to calls made at the same
    instant is not fixed; the model keeps their stored order. */
module CallRepository {
  import opened Common
  import opened TableEntity
  import opened CallEntity
  import opened CallOrder

  /** `findById`. */
  function FindById(calls: seq<Call>, id: int): (r: Option<Call>)
    ensures r.None? <==> forall c | c in calls :: c.id != id
    ensures r.Some? ==> r.value in calls && r.value.id == id
  {
    Find(calls, (c: Call) => c.id == id)
  }

  /** `findByResolvedFalseOrderByCreatedAtDesc`. */
  function FindByResolvedFalseOrderByCreatedAtDesc(calls: seq<Call>): (r: seq<Call>)
    ensures NewestFirst(r)
    ensures forall c :: c in r <==> c in calls && !c.resolved
    ensures forall c :: multiset(r)[c] == if c.resolved then 0 else multiset(calls)[c]
  {
    SortNewestFirst(Filter(calls, (c: Call) => !c.resolved))
  }

  /** An unresolved call of that table and kind. */
  predicate OpenCallOf(c: Call, table: Table, kind: CallType) {
    !c.resolved && c.table.id == table.id && c.kind == kind
  }

  /** `findTopByTableAndTypeAndResolvedFalseOrderByCreatedAtDesc`: the newest
      unresolved call of that table and kind, if there is one. */
  function FindTopByTableAndTypeAndResolvedFalse(calls: seq<Call>, table: Table, kind: CallType): (r: Option<Call>)
    ensures r.None? <==> forall c | c in calls :: !OpenCallOf(c, table, kind)
    ensures r.Some? ==> r.value in calls && OpenCallOf(r.value, table, kind)
    ensures r.Some? ==> forall c | c in calls && OpenCallOf(c, table, kind) :: c.createdAt <= r.value.createdAt
  {
    var open := SortNewestFirst(Filter(calls, (c: Call) => OpenCallOf(c, table, kind)));
    if |open| == 0 then None
    else
      HeadIsNewest(open);
      Some(open[0])
  }

  /** `findByResolvedFalseAndCreatedAtAfterOrderByCreatedAtDesc(cutoff)`:
      "after" is strict. */
  function FindByResolvedFalseAndCreatedAtAfter(calls: seq<Call>, cutoff: int): (r: seq<Call>)
    ensures NewestFirst(r)
    ensures forall c :: c in r <==> c in calls && !c.resolved && c.createdAt > cutoff
    ensures forall c :: multiset(r)[c] == if !c.resolved && c.createdAt > cutoff then multiset(calls)[c] else 0
  {
    SortNewestFirst(Filter(calls, (c: Call) => !c.resolved && c.createdAt > cutoff))
  }

  /** `deleteAllByTableId`: exactly the calls of that table go, the others
      keep their order and multiplicity. */
  function DeleteAllByTableId(calls: seq<Call>, tableId: int): (r: seq<Call>)
    ensures forall c :: c in r <==> c in calls && c.table.id != tableId
    ensures forall c :: multiset(r)[c] == if c.table.id == tableId then 0 else multiset(calls)[c]
  {
    Filter(calls, (c: Call) => c.table.id != tableId)
  }

  /** Marking a call resolved and saving it: the row with that id gets the
      flag, every other row is unchanged. */
  function SetResolved(calls: seq<Call>, id: int): (r: seq<Call>)
    ensures |r| == |calls|
    ensures forall i | 0 <= i < |r| :: r[i] == if calls[i].id == id then calls[i].(resolved := true) else calls[i]
  {
    seq(|calls|, i requires 0 <= i < |calls| =>
      if calls[i].id == id then calls[i].(resolved := true) else calls[i])
  }

  /** Saving a loaded call back with the flag set: the rows holding that
      call get the flag, every other row is unchanged. */
  function SaveResolved(calls: seq<Call>, c: Call): (r: seq<Call>)
    ensures |r| == |calls|
    ensures forall i | 0 <= i < |r| :: r[i] == if calls[i] == c then c.(resolved := true) else calls[i]
  {
    seq(|calls|, i requires 0 <= i < |calls| =>
      if calls[i] == c then c.(resolved := true) else calls[i])
  }

  /** Marking twice is marking once. */
  lemma SetResolvedIdempotent(calls: seq<Call>, id: int)
    ensures SetResolved(SetResolved(calls, id), id) == SetResolved(calls, id)
  {
  }

  /** Once a call is resolved no query for open calls returns it. */
  lemma ResolvedLeavesOpenQueries(calls: seq<Call>, id: int, cutoff: int)
    ensures forall c | c in FindByResolvedFalseOrderByCreatedAtDesc(SetResolved(calls, id)) :: c.id != id
    ensures forall c | c in FindByResolvedFalseAndCreatedAtAfter(SetResolved(calls, id), cutoff) :: c.id != id
  {
    var s := SetResolved(calls, id);
    forall c | c in s && c.id == id
      ensures c.resolved
    {
      var i :| 0 <= i < |s| && s[i] == c;
    }
  }
}
