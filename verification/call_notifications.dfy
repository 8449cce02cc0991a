/** The `useCallNotifications` hook of the dashboard: the notification on
    screen, and the set of call ids already announced so that a call
    arriving again (by the socket and by a poll) is announced once. */
module CallNotifications {
  import opened Common

  const DEFAULT_KIND := "info"
  /** Milliseconds a notification stays up unless told otherwise. */
  const DEFAULT_DURATION := 3000

  datatype Notification = Notification(message: string, kind: string, duration: int)

  /** What the hook holds: the notification shown, if any, and the ids of
      the calls already announced. */
  datatype Notifications = Notifications(shown: Option<Notification>, notified: set<int>)

  const Initial := Notifications(None, {})

  /** `showNotification(message, type, duration)`: an argument left out takes
      its default. The announced ids are not touched. */
  function ShowNotification(st: Notifications, message: string, kind: Option<string>, duration: Option<int>)
    : (r: Notifications)
    ensures r.shown.Some? && r.shown.value.message == message
    ensures r.shown.value.kind == kind.GetOr(DEFAULT_KIND)
    ensures r.shown.value.duration == duration.GetOr(DEFAULT_DURATION)
    ensures r.notified == st.notified
  {
    Notifications(Some(Notification(message, kind.GetOr(DEFAULT_KIND), duration.GetOr(DEFAULT_DURATION))), st.notified)
  }

  /** `hideNotification()`. */
  function HideNotification(st: Notifications): (r: Notifications)
    ensures r.shown.None? && r.notified == st.notified
  {
    st.(shown := None)
  }

  /** `markCallAsNotified(id)`. */
  function MarkCallAsNotified(st: Notifications, id: int): (r: Notifications)
    ensures r.notified == st.notified + {id} && r.shown == st.shown
  {
    st.(notified := st.notified + {id})
  }

  /** `hasCallBeenNotified(id)`. */
  function HasCallBeenNotified(st: Notifications, id: int): (b: bool)
    ensures b <==> id in st.notified
  {
    id in st.notified
  }

  /** `clearNotifiedCalls()`. */
  function ClearNotifiedCalls(st: Notifications): (r: Notifications)
    ensures r.notified == {} && r.shown == st.shown
  {
    st.(notified := {})
  }

  /** A marked call is reported as announced; marking one call does not
      change the answer for any other; marking twice is marking once. */
  lemma MarkThenHas(st: Notifications, id: int, other: int)
    requires other != id
    ensures HasCallBeenNotified(MarkCallAsNotified(st, id), id)
    ensures HasCallBeenNotified(MarkCallAsNotified(st, id), other) == HasCallBeenNotified(st, other)
    ensures MarkCallAsNotified(MarkCallAsNotified(st, id), id) == MarkCallAsNotified(st, id)
  {
  }

  /** Marking a run of calls in order. */
  function MarkAll(st: Notifications, ids: seq<int>): (r: Notifications)
    decreases |ids|
  {
    if ids == [] then st else MarkAll(MarkCallAsNotified(st, ids[0]), ids[1..])
  }

  /** After clearing, no call counts as announced, and the ones marked since
      are exactly the announced ones. */
  lemma ClearForgetsAll(st: Notifications, marked: seq<int>, id: int)
    ensures HasCallBeenNotified(MarkAll(ClearNotifiedCalls(st), marked), id) <==> id in marked
  {
    MarkAllAdds(ClearNotifiedCalls(st), marked);
  }

  /** Marking a run adds exactly its ids and leaves the notification alone. */
  lemma {:induction false} MarkAllAdds(st: Notifications, ids: seq<int>)
    ensures MarkAll(st, ids).notified == st.notified + set i | i in ids
    ensures MarkAll(st, ids).shown == st.shown
    decreases |ids|
  {
    if ids != [] {
      MarkAllAdds(MarkCallAsNotified(st, ids[0]), ids[1..]);
      assert (set i | i in ids) == {ids[0]} + set i | i in ids[1..];
    }
  }

  /** Showing a notification and hiding it leaves the hook as it was apart
      from a notification that had been on screen. */
  lemma ShowThenHide(st: Notifications, message: string, kind: Option<string>, duration: Option<int>)
    ensures HideNotification(ShowNotification(st, message, kind, duration)) == HideNotification(st)
  {
  }
}
