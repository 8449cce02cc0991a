/** The state logic of the admin dashboard: the list of calls it shows, as
    replaced by each poll of the recent-calls endpoint, the optimistic
    "resolved" mark after a resolve request, its removal thirty seconds
    later, and how each call card is drawn. Timers and fetches are events;
    `now` is the browser clock. */
module AdminDashboard {
  import opened Common
  import opened TableEntity
  import opened CallEntity
  import opened CallOrder
  import opened CallRepository
  import opened CallService

  /** Milliseconds between two polls. */
  const POLL_INTERVAL := 10 * SECOND
  /** Milliseconds a call marked resolved stays on screen. */
  const RESOLVED_LINGER := 30 * SECOND

  /** A poll: the list becomes the recent-calls endpoint's answer at the
      server's clock `now`, whatever was shown before (marks made here are
      not kept): the open calls of the last ten minutes, newest first. */
  function Polled(calls: seq<Call>, now: int): (r: seq<Call>)
    ensures NewestFirst(r)
    ensures forall c | c in r :: !c.resolved && CardClass(c) != "resolved" && ShowResolveButton(c)
    ensures forall c :: c in r <==> c in calls && !c.resolved && now - c.createdAt < SESSION_DURATION
  {
    GetRecentActiveCalls(calls, now)
  }

  /** The reply to a resolve request arrived and parsed: every shown call
      with that id is marked resolved, nothing else changes. */
  function MarkResolved(shown: seq<Call>, id: int): (r: seq<Call>)
    ensures |r| == |shown|
    ensures forall i | 0 <= i < |r| :: r[i].id == shown[i].id
    ensures forall i | 0 <= i < |r| :: r[i].resolved <==> shown[i].resolved || shown[i].id == id
    ensures forall i | 0 <= i < |r| :: r[i] == shown[i].(resolved := r[i].resolved)
  {
    SetResolved(shown, id)
  }

  /** The outcome of a resolve request: a reply whose body parsed marks the
      call, whatever its status; a failed fetch leaves the list alone. */
  function ResolveAnswered(shown: seq<Call>, id: int, parsed: bool): (r: seq<Call>)
    ensures !parsed ==> r == shown
    ensures parsed ==> r == MarkResolved(shown, id)
  {
    if parsed then MarkResolved(shown, id) else shown
  }

  /** The timer set after a resolve fired: the calls with that id leave the
      list, the others keep their order. */
  function RemoveCall(shown: seq<Call>, id: int): (r: seq<Call>)
    ensures forall c :: c in r <==> c in shown && c.id != id
    ensures forall c :: multiset(r)[c] == if c.id == id then 0 else multiset(shown)[c]
  {
    Filter(shown, (c: Call) => c.id != id)
  }

  /** The mark made in between does not change what the timer leaves. */
  lemma RemoveAfterMark(shown: seq<Call>, id: int)
    ensures RemoveCall(MarkResolved(shown, id), id) == RemoveCall(shown, id)
  {
    FilterAgrees(MarkResolved(shown, id), shown, (c: Call) => c.id != id);
  }

  /** A second removal timer for the same call, or one firing after the
      call already left, changes nothing. */
  lemma RemoveCallIdempotent(shown: seq<Call>, id: int)
    ensures RemoveCall(RemoveCall(shown, id), id) == RemoveCall(shown, id)
  {
    FilterKeepsAll(RemoveCall(shown, id), (c: Call) => c.id != id);
  }

  /** The poll after the server resolved a call no longer lists it, so the
      resolved card disappears at the next poll, before the thirty-second
      timer. */
  lemma NextPollDropsResolved(calls: seq<Call>, id: int, now: int)
    requires Resolve(calls, id).Ok?
    ensures forall c | c in Polled(Resolve(calls, id).value.calls, now) :: c.id != id
  {
    ResolvedLeavesOpenQueries(calls, id, now - SESSION_DURATION);
  }

  /** The order the cards are drawn in: newest first, the same calls. */
  function DisplayOrder(shown: seq<Call>): (r: seq<Call>)
    ensures NewestFirst(r)
    ensures multiset(r) == multiset(shown)
  {
    SortNewestFirst(shown)
  }

  /** The card's style: resolved calls look alike whatever their kind. */
  function CardClass(c: Call): (name: string)
    ensures c.resolved ==> name == "resolved"
    ensures !c.resolved ==> name == (if c.kind == WAITER then "waiter" else "bill")
  {
    if c.resolved then "resolved" else if c.kind == WAITER then "waiter" else "bill"
  }

  /** The resolve button is offered only on calls not yet resolved. */
  function ShowResolveButton(c: Call): (b: bool)
    ensures b <==> CardClass(c) != "resolved"
  {
    !c.resolved
  }

  /** The location line: a missing or empty location reads "Main Hall". */
  function LocationLabel(t: Table): (text: string)
    ensures text != ""
    ensures t.location.Some? && t.location.value != "" ==> text == t.location.value
  {
    if t.location.Some? && t.location.value != "" then t.location.value else "Main Hall"
  }

  /** Whole minutes since the call, rounded down; negative when the call's
      time is ahead of the browser clock. */
  function MinutesAgo(c: Call, now: int): (m: int)
    ensures m * MINUTE <= now - c.createdAt < (m + 1) * MINUTE
  {
    (now - c.createdAt) / MINUTE
  }

  /** Once marked, a call's card shows as resolved with no button, and the
      headline count still includes it until it is removed. */
  lemma MarkedCardShowsResolved(shown: seq<Call>, id: int)
    ensures forall c | c in MarkResolved(shown, id) && c.id == id :: CardClass(c) == "resolved" && !ShowResolveButton(c)
    ensures |MarkResolved(shown, id)| == |shown|
  {
    forall c | c in MarkResolved(shown, id) && c.id == id
      ensures c.resolved
    {
      var i :| 0 <= i < |shown| && MarkResolved(shown, id)[i] == c;
    }
  }
}
