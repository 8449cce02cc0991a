/** The derived queries of `SessionRepository` over the stored sessions, in
    `findAll` order. */
module SessionRepository {
  import opened Common
  import opened SessionEntity

  /** The `unique = true` constraint on the token column. */
  ghost predicate UniqueTokens(store: seq<Session>) {
    DistinctBy(store, TokenOf)
  }

  function TokenOf(s: Session): string {
    s.token
  }

  predicate HasToken(store: seq<Session>, token: string) {
    exists s | s in store :: s.token == token
  }

  /** `findByToken`. */
  function FindByToken(store: seq<Session>, token: string): (r: Option<Session>)
    ensures r.None? <==> !HasToken(store, token)
    ensures r.Some? ==> r.value in store && r.value.token == token
  {
    Find(store, (s: Session) => s.token == token)
  }

  /** Tokens are unique, so `findByToken` returns the one session that has
      the token. */
  lemma FindByTokenUnique(store: seq<Session>, i: int)
    requires UniqueTokens(store)
    requires 0 <= i < |store|
    ensures FindByToken(store, store[i].token) == Some(store[i])
  {
    var r := FindByToken(store, store[i].token);
    var j :| 0 <= j < |store| && store[j] == r.value;
    assert j == i;
  }

  /** `deleteByExpiresAtBefore(now)`: removes the sessions that expired
      strictly before `now`, active or not; keeps the others in order. */
  function DeleteByExpiresAtBefore(store: seq<Session>, now: int): (r: seq<Session>)
    ensures forall s :: s in r <==> s in store && s.expiresAt >= now
    ensures forall s :: multiset(r)[s] == if s.expiresAt < now then 0 else multiset(store)[s]
  {
    Filter(store, (s: Session) => !(s.expiresAt < now))
  }

  /** `findAllByActiveTrue`. */
  function FindAllByActiveTrue(store: seq<Session>): (r: seq<Session>)
    ensures forall s :: s in r <==> s in store && s.active
    ensures forall s :: multiset(r)[s] == if s.active then multiset(store)[s] else 0
  {
    Filter(store, (s: Session) => s.active)
  }

  /** Deleting expired rows keeps tokens unique. */
  lemma DeletePreservesUniqueTokens(store: seq<Session>, now: int)
    requires UniqueTokens(store)
    ensures UniqueTokens(DeleteByExpiresAtBefore(store, now))
  {
    FilterDistinctBy(store, (s: Session) => !(s.expiresAt < now), TokenOf);
  }
}
