/** `CallService`: placing a waiter or bill call for a table with a
    three-minute cooldown per table and kind, resolving calls, and listing
    the open ones. The store is the call repository's sequence of calls;
    `now` is the clock reading the service takes. The real-time notification
    to the dashboards is not part of this model. */
module CallService {
  import opened Common
  import opened TableEntity
  import opened CallEntity
  import opened CallOrder
  import opened CallRepository

  /** Minimum gap between two calls of one kind from one table. */
  const COOLDOWN: int := 3 * MINUTE
  /** Age at which an open call is considered abandoned. */
  const SESSION_DURATION: int := 10 * MINUTE

  /** The exception text of a call made during the cooldown. */
  function CooldownMessage(kind: CallType): (m: string)
    ensures m == "You can only call " + TypeName(kind) + " once every 3 minutes."
  {
    "You can only call " + TypeName(kind) + " once every 3 minutes."
  }

  /** A call just saved, and the store afterwards. */
  datatype CallCreated = CallCreated(call: Call, calls: seq<Call>)

  /** Some open call of this table and kind is younger than the cooldown. */
  predicate CoolingDown(calls: seq<Call>, table: Table, kind: CallType, now: int) {
    exists c | c in calls :: OpenCallOf(c, table, kind) && now - c.createdAt < COOLDOWN
  }

  /** The newest open call of this table and kind is at least
      `SESSION_DURATION` old. */
  predicate TopIsStale(calls: seq<Call>, table: Table, kind: CallType, now: int) {
    var top := FindTopByTableAndTypeAndResolvedFalse(calls, table, kind);
    top.Some? && now - top.value.createdAt >= SESSION_DURATION
  }

  /** The store after the stale-call check of `createCall`: when the newest
      open call of this table and kind is `SESSION_DURATION` old or more,
      that loaded call is saved resolved; otherwise nothing changes. Only
      stale open calls of this table and kind can be touched. */
  function AutoResolve(calls: seq<Call>, table: Table, kind: CallType, now: int): (kept: seq<Call>)
    ensures |kept| == |calls|
    ensures forall i | 0 <= i < |calls| ::
              || kept[i] == calls[i]
              || (&& kept[i] == calls[i].(resolved := true)
                  && OpenCallOf(calls[i], table, kind)
                  && now - calls[i].createdAt >= SESSION_DURATION)
    ensures !TopIsStale(calls, table, kind, now) ==> kept == calls
    ensures TopIsStale(calls, table, kind, now) ==>
              var top := FindTopByTableAndTypeAndResolvedFalse(calls, table, kind).value;
              top !in kept && top.(resolved := true) in kept
  {
    var top := FindTopByTableAndTypeAndResolvedFalse(calls, table, kind);
    if top.Some? && now - top.value.createdAt >= SESSION_DURATION then
      var kept := SaveResolved(calls, top.value);
      assert top.value.(resolved := true) in kept by {
        var i :| 0 <= i < |calls| && calls[i] == top.value;
        assert kept[i] == top.value.(resolved := true);
      }
      kept
    else calls
  }

  /** `createCall(table, type)` at clock `now`, `newId` being the generated
      key. A call is refused while the newest open call of the same table and
      kind is younger than the cooldown; otherwise stale calls are settled by
      `AutoResolve` and the new open call is appended. */
  function CreateCall(calls: seq<Call>, table: Table, kind: CallType, now: int, newId: int)
    : (r: Result<CallCreated>)
    ensures r.Err? <==> CoolingDown(calls, table, kind, now)
    ensures r.Err? ==> r.message == CooldownMessage(kind)
    ensures r.Ok? ==> && r.value.call.id == newId && r.value.call.table == table
                      && r.value.call.kind == kind && !r.value.call.resolved
                      && r.value.call.createdAt == now
    ensures r.Ok? ==> r.value.calls == AutoResolve(calls, table, kind, now) + [r.value.call]
  {
    var top := FindTopByTableAndTypeAndResolvedFalse(calls, table, kind);
    if top.Some? && now - top.value.createdAt < COOLDOWN then
      Err(CooldownMessage(kind))
    else
      var call := Call(newId, table, kind, false, now);
      Ok(CallCreated(call, AutoResolve(calls, table, kind, now) + [call]))
  }

  /** A second call of the same kind from the same table within the cooldown
      is refused, whatever happened before the first one. */
  lemma SecondCallWithinCooldownRefused(calls: seq<Call>, table: Table, kind: CallType, first: int, newId: int, second: int, otherId: int)
    requires CreateCall(calls, table, kind, first, newId).Ok?
    requires second - first < COOLDOWN
    ensures CreateCall(CreateCall(calls, table, kind, first, newId).value.calls, table, kind, second, otherId)
            == Err(CooldownMessage(kind))
  {
    var c := CreateCall(calls, table, kind, first, newId).value;
    assert c.call in c.calls;
    assert OpenCallOf(c.call, table, kind);
  }

  /** A call of another kind, or from a table with another id, never holds a
      call back. */
  lemma OtherCallsNeverBlock(calls: seq<Call>, extra: Call, table: Table, kind: CallType, now: int, newId: int)
    requires extra.table.id != table.id || extra.kind != kind
    ensures CreateCall(calls + [extra], table, kind, now, newId).Err? == CreateCall(calls, table, kind, now, newId).Err?
  {
    assert forall c | c in calls + [extra] :: c in calls || c == extra;
  }

  /** Once every open call of that table and kind is at least three minutes
      old, a new call goes through. */
  lemma CallAfterCooldownAccepted(calls: seq<Call>, table: Table, kind: CallType, now: int, newId: int)
    requires forall c | c in calls && OpenCallOf(c, table, kind) :: now - c.createdAt >= COOLDOWN
    ensures CreateCall(calls, table, kind, now, newId).Ok?
  {
  }

  /** When the newest open call of that table and kind is ten minutes old or
      more, the new call is accepted and that call ends up resolved; an open
      call between three and ten minutes old is left open. */
  lemma StaleCallAutoResolved(calls: seq<Call>, table: Table, kind: CallType, now: int, newId: int)
    requires FindTopByTableAndTypeAndResolvedFalse(calls, table, kind).Some?
    ensures var top := FindTopByTableAndTypeAndResolvedFalse(calls, table, kind).value;
            var r := CreateCall(calls, table, kind, now, newId);
            && (now - top.createdAt >= SESSION_DURATION ==>
                  r.Ok? && top.(resolved := true) in r.value.calls && top !in r.value.calls[..|calls|])
            && (COOLDOWN <= now - top.createdAt < SESSION_DURATION ==>
                  r.Ok? && r.value.calls[..|calls|] == calls)
  {
    var top := FindTopByTableAndTypeAndResolvedFalse(calls, table, kind).value;
    var r := CreateCall(calls, table, kind, now, newId);
    if now - top.createdAt >= COOLDOWN {
      var kept := AutoResolve(calls, table, kind, now);
      assert r.value.calls[..|calls|] == kept;
    }
  }

  /** `getActiveCalls()`: every open call, newest first. */
  function GetActiveCalls(calls: seq<Call>): (r: seq<Call>)
    ensures NewestFirst(r)
    ensures forall c :: multiset(r)[c] == if c.resolved then 0 else multiset(calls)[c]
  {
    FindByResolvedFalseOrderByCreatedAtDesc(calls)
  }

  /** A resolved call, and the store after saving it. */
  datatype Resolved = Resolved(call: Call, calls: seq<Call>)

  /** `resolve(id)`: the call with that id is saved resolved; a missing id
      ends in the `NoSuchElementException` of `orElseThrow`. */
  function Resolve(calls: seq<Call>, id: int): (r: Result<Resolved>)
    ensures r.Err? <==> forall c | c in calls :: c.id != id
    ensures r.Err? ==> r.message == "No value present"
    ensures r.Ok? ==> r.value.call.id == id && r.value.call.resolved
    ensures r.Ok? ==> exists c | c in calls :: c.(resolved := true) == r.value.call
    ensures r.Ok? ==> r.value.calls == SetResolved(calls, id)
  {
    match FindById(calls, id)
    case None => Err("No value present")
    case Some(c) =>
      var saved := SetResolved(calls, id);
      Ok(Resolved(c.(resolved := true), saved))
  }

  /** Resolving a call a second time succeeds and changes nothing more. */
  lemma ResolveIdempotent(calls: seq<Call>, id: int)
    requires Resolve(calls, id).Ok?
    ensures Resolve(Resolve(calls, id).value.calls, id).Ok?
    ensures Resolve(Resolve(calls, id).value.calls, id).value.calls == Resolve(calls, id).value.calls
  {
    var once := SetResolved(calls, id);
    var c :| c in calls && c.id == id;
    var i :| 0 <= i < |calls| && calls[i] == c;
    assert once[i].id == id && once[i] in once;
    SetResolvedIdempotent(calls, id);
  }

  /** A resolved call is gone from the active list. */
  lemma ResolvedNotActive(calls: seq<Call>, id: int)
    requires Resolve(calls, id).Ok?
    ensures forall c | c in GetActiveCalls(Resolve(calls, id).value.calls) :: c.id != id
  {
    ResolvedLeavesOpenQueries(calls, id, 0);
  }

  /** `getRecentActiveCalls()` at clock `now`: the open calls made strictly
      within the last ten minutes, newest first. */
  function GetRecentActiveCalls(calls: seq<Call>, now: int): (r: seq<Call>)
    ensures NewestFirst(r)
    ensures forall c :: c in r <==> c in calls && !c.resolved && now - c.createdAt < SESSION_DURATION
  {
    FindByResolvedFalseAndCreatedAtAfter(calls, now - SESSION_DURATION)
  }

  /** The recent list is part of the active list, counting repeats. */
  lemma RecentWithinActive(calls: seq<Call>, now: int)
    ensures multiset(GetRecentActiveCalls(calls, now)) <= multiset(GetActiveCalls(calls))
  {
    var cutoff := now - SESSION_DURATION;
    assert GetRecentActiveCalls(calls, now) == FindByResolvedFalseAndCreatedAtAfter(calls, cutoff);
    forall c
      ensures multiset(GetRecentActiveCalls(calls, now))[c] <= multiset(GetActiveCalls(calls))[c]
    {
    }
  }
}
