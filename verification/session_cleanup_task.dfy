/** `SessionCleanupTask`: the job scheduled every five minutes to delete the
    sessions that have expired. Its method carries no `@Transactional`, and
    the derived delete it calls is a query method declared on the
    repository, which Spring Data runs without a transaction of its own: it
    reads the matching rows and removes them one at a time, and the shared
    entity manager refuses a `remove` outside a transaction. */
module SessionCleanupTask {
  import opened Common
  import opened TableEntity
  import opened SessionEntity
  import SessionRepository
  import TableService

  /** The refusal the first `remove` throws. */
  const NO_TRANSACTION := "No EntityManager with actual transaction available for current thread - cannot reliably process 'remove' call"

  /** `cleanupExpiredSessions()` as written, run at clock `now`. With no
      session expired before `now` the query finds nothing and nothing is
      removed; otherwise the first `remove` throws before any row is gone,
      and the scheduler only logs the exception. */
  function CleanupAsWritten(sessions: seq<Session>, now: int): (r: Result<seq<Session>>)
    ensures r.Err? <==> exists x | x in sessions :: x.expiresAt < now
    ensures r.Err? ==> r.message == NO_TRANSACTION
    ensures r.Ok? ==> r.value == sessions && r.value == SessionRepository.DeleteByExpiresAtBefore(sessions, now)
  {
    if exists x | x in sessions :: x.expiresAt < now then
      Err(NO_TRANSACTION)
    else
      FilterKeepsAll(sessions, (x: Session) => !(x.expiresAt < now));
      Ok(sessions)
  }

  /** The sessions after the task has run at each instant of `runs`, in
      turn: a run that throws leaves the store as it was. Whatever the
      instants, no session is ever deleted. */
  function AfterRuns(sessions: seq<Session>, runs: seq<int>): (r: seq<Session>)
    ensures r == sessions
    decreases |runs|
  {
    if runs == [] then sessions
    else
      var next := match CleanupAsWritten(sessions, runs[0])
        case Ok(kept) => kept
        case Err(_) => sessions;
      AfterRuns(next, runs[1..])
  }

  /** As written, a table that some session references can never be
      deleted: at whatever instants the task runs, the session stays, and
      the deletion fails on the foreign key from sessions to tables every
      time. */
  lemma ScannedTableNeverDeletable(s: TableService.Stores, id: int, runs: seq<int>, violation: string)
    requires ExistsById(s.tables, id) && TableService.ReferencedBySession(s, id)
    ensures TableService.DeleteTable(s.(sessions := AfterRuns(s.sessions, runs)), id, violation) == Err(violation)
  {
  }

  /** An expired session makes every later run throw: the task as written
      removes nothing exactly when there is something to remove. */
  lemma ExpiredSessionMakesRunThrow(sessions: seq<Session>, i: int, now: int)
    requires 0 <= i < |sessions| && sessions[i].expiresAt < now
    ensures CleanupAsWritten(sessions, now) == Err(NO_TRANSACTION)
    ensures forall later | later >= now :: CleanupAsWritten(sessions, later) == Err(NO_TRANSACTION)
  {
    assert sessions[i] in sessions;
  }

  /** The task run inside a transaction, as `SessionService`'s own cleanup
      is: the derived delete removes every session expired before `now` and
      keeps the others. */
  function CleanupInTransaction(sessions: seq<Session>, now: int): (r: seq<Session>)
    ensures forall x :: x in r <==> x in sessions && now <= x.expiresAt
    ensures (forall x | x in sessions :: now <= x.expiresAt) ==> CleanupAsWritten(sessions, now) == Ok(r)
  {
    SessionRepository.DeleteByExpiresAtBefore(sessions, now)
  }

  /** Once a transactional run has removed every session of a table (all of
      them expired before `now`), the table's deletion commits. */
  lemma CleanupUnblocksDeletion(s: TableService.Stores, id: int, now: int, violation: string)
    requires forall x | x in s.sessions && x.table.id == id :: x.expiresAt < now
    ensures TableService.DeleteTable(s.(sessions := CleanupInTransaction(s.sessions, now)), id, violation).Ok?
  {
    var c := s.(sessions := CleanupInTransaction(s.sessions, now));
    assert !TableService.ReferencedBySession(c, id);
  }

  /** The latest expiry instant among the sessions. */
  function LatestExpiry(sessions: seq<Session>): (m: int)
    ensures forall x | x in sessions :: x.expiresAt <= m
    ensures sessions != [] ==> exists x | x in sessions :: x.expiresAt == m
  {
    if sessions == [] then 0
    else if |sessions| == 1 then sessions[0].expiresAt
    else
      var rest := LatestExpiry(sessions[1..]);
      assert forall x | x in sessions[1..] :: x in sessions;
      if sessions[0].expiresAt >= rest then sessions[0].expiresAt else rest
  }

  /** With a transactional cleanup every table becomes deletable: a run
      after the latest expiry leaves no session behind. */
  lemma TransactionalCleanupEventuallyUnblocks(s: TableService.Stores, id: int, now: int, violation: string)
    requires now > LatestExpiry(s.sessions)
    ensures CleanupInTransaction(s.sessions, now) == []
    ensures TableService.DeleteTable(s.(sessions := CleanupInTransaction(s.sessions, now)), id, violation).Ok?
  {
    CleanupUnblocksDeletion(s, id, now, violation);
  }
}
