/** The guest page a phone opens from a table's QR code, as a state machine.
    The route (`/table/{qr}` or `/table/{qr}/{token}`), the tab's stored QR
    identifier and the page's flags are the state; the route change, the
    replies to the page's requests, the validation interval and the
    cooldown timer are events; the requests the page sends, the navigation
    and the timer it starts are effects. Messages are translation keys or
    server text; rendering them is not part of this model. */
module ClientPage {
  import opened Common
  import CallEntity

  /** Milliseconds the call buttons stay locked after a placed call. */
  const CALL_COOLDOWN := 3 * MINUTE
  /** Milliseconds between two validations of an active session. */
  const VALIDATION_INTERVAL := 5 * SECOND

  /** The two call buttons; the path segment is the lower-case name. */
  datatype CallKind = Waiter | Bill

  function KindSegment(k: CallKind): (segment: string)
    ensures segment == "waiter" || segment == "bill"
  {
    match k
    case Waiter => "waiter"
    case Bill => "bill"
  }

  /** The segment each button posts is one the server's call-type parser
      accepts, and it names the matching kind. */
  lemma KindSegmentParses(k: CallKind)
    ensures CallEntity.ParseCallType(KindSegment(k))
            == Some(if k == Waiter then CallEntity.WAITER else CallEntity.BILL)
  {
    CallEntity.ParseClientNames();
  }

  /** The line under the title: nothing, a translation key, or text sent by
      the server. */
  datatype Message = NoMessage | Key(key: string) | Raw(text: string)

  datatype Page = Page(
    qr: Option<string>,
    token: Option<string>,
    storedQR: Option<string>,
    active: bool,
    rescan: bool,
    cooldown: bool,
    message: Message)

  /** An active page never asks for a rescan at the same time. */
  predicate Consistent(p: Page) {
    p.active ==> !p.rescan
  }

  datatype Effect =
    | SendValidate(token: string)
    | SendCreate(qr: string)
    | SendCall(path: string, token: string)
    | Navigate(path: string)
    | StartCooldownTimer(delay: int)

  /** The page after an event, and what it set in motion. */
  datatype Step = Step(page: Page, effects: seq<Effect>)

  /** A fetch whose body was read, or one that failed (network error or a
      body that is not JSON). */
  datatype Reply<T> = Replied(value: T) | Failed

  /** The body of a session-creation reply, whatever its status: the
      `token` field, if the body has one. */
  datatype CreateBody = CreateBody(status: int, token: Option<string>)

  /** A call request's answer: the status and body text, or a network
      failure. */
  datatype CallReply = CallResponse(status: int, text: string) | CallNetworkError

  /** A route parameter counts only when it is a non-empty string. */
  predicate Present(o: Option<string>) {
    o.Some? && o.value != ""
  }

  /** A template string shows a missing value as "undefined". */
  function Shown(o: Option<string>): (s: string)
    ensures o.Some? ==> s == o.value
  {
    match o
    case Some(v) => v
    case None => "undefined"
  }

  /** The page when it first opens, given what the tab has stored. */
  function Opened(storedQR: Option<string>): (p: Page)
    ensures !p.active && !p.rescan && !p.cooldown && p.message == NoMessage && p.storedQR == storedQR
  {
    Page(None, None, storedQR, false, false, false, NoMessage)
  }

  /** The page has to be rescanned, saying why. */
  function Locked(p: Page, key: string): (r: Page)
    ensures !r.active && r.rescan && r.message == Key(key)
    ensures r.(active := p.active, rescan := p.rescan, message := p.message) == p
  {
    p.(active := false, rescan := true, message := Key(key))
  }

  /** The session effect. It runs when the route changes, and again every
      time the translation provider renders (a language switch, the
      translations finishing loading), because `t` is one of its
      dependencies and is a new function on each of those renders. A token
      in the route is validated and nothing is created. Without one, a QR
      identifier the tab has not stored yet is stored and a session
      requested; the stored one again, or no identifier at all, requires a
      rescan. */
  function Enter(p: Page, qr: Option<string>, token: Option<string>): (r: Step)
    ensures Consistent(p) ==> Consistent(r.page)
    ensures r.page.qr == qr && r.page.token == token && r.page.cooldown == p.cooldown
    ensures Present(token) ==> r == Step(p.(qr := qr, token := token), [SendValidate(token.value)])
    ensures !Present(token) && Present(qr) && p.storedQR != qr ==>
              r.effects == [SendCreate(qr.value)] && r.page.storedQR == qr
              && r.page.active == p.active && r.page.rescan == p.rescan
    ensures !Present(token) && Present(qr) && p.storedQR == qr ==>
              r.effects == [] && r.page == Locked(p, "sessionExpired").(qr := qr, token := token)
    ensures !Present(token) && !Present(qr) ==>
              r.effects == [] && r.page == Locked(p, "scanQR").(qr := qr, token := token)
  {
    var routed := p.(qr := qr, token := token);
    if Present(token) then Step(routed, [SendValidate(token.value)])
    else if Present(qr) then
      if p.storedQR != qr then Step(routed.(storedQR := qr), [SendCreate(qr.value)])
      else Step(Locked(routed, "sessionExpired"), [])
    else Step(Locked(routed, "scanQR"), [])
  }

  /** The reply to the validation sent when the page opened with a token. */
  function Validated(p: Page, reply: Reply<bool>): (r: Page)
    ensures Consistent(r)
    ensures reply == Replied(true) ==> r.active && !r.rescan && r.message == NoMessage
    ensures reply == Replied(false) ==> r == Locked(p, "sessionExpired")
    ensures reply.Failed? ==> r == Locked(p, "errorValidatingSession")
    ensures r.storedQR == p.storedQR && r.cooldown == p.cooldown && r.token == p.token
  {
    match reply
    case Replied(true) => p.(active := true, rescan := false, message := NoMessage)
    case Replied(false) => Locked(p, "sessionExpired")
    case Failed => Locked(p, "errorValidatingSession")
  }

  /** The page with the creation request failed: the stored identifier is
      forgotten so that scanning again retries. */
  function CreationFailed(p: Page): (r: Page)
    ensures r.storedQR.None? && r == Locked(p, "errorCreatingSession").(storedQR := None)
  {
    Locked(p, "errorCreatingSession").(storedQR := None)
  }

  /** The path of the guest page with a session. */
  function SessionPath(qr: Option<string>, token: string): (path: string)
    ensures |path| > |"/table/"|
  {
    "/table/" + Shown(qr) + "/" + token
  }

  /** The reply to the creation request, as the page handles it: any body
      that parses is taken as a new session, whatever its status, and the
      page moves to the route with the body's `token`. */
  function Created(p: Page, reply: Reply<CreateBody>): (r: Step)
    ensures Consistent(r.page)
    ensures reply.Failed? ==> r == Step(CreationFailed(p), [])
    ensures reply.Replied? ==> r.page.active && !r.page.rescan && r.page.storedQR == p.storedQR
    ensures reply.Replied? ==> r.effects == [Navigate(SessionPath(p.qr, Shown(reply.value.token)))]
  {
    match reply
    case Failed => Step(CreationFailed(p), [])
    case Replied(body) =>
      Step(p.(active := true, rescan := false, message := NoMessage), [Navigate(SessionPath(p.qr, Shown(body.token)))])
  }

  /** A 2xx status, as `res.ok` tests it. */
  predicate IsOk(status: int) {
    200 <= status <= 299
  }

  /** The creation reply handled as the failure branch intends: only a 2xx
      reply that carries a token opens a session; anything else is a failed
      creation. */
  function CreatedChecked(p: Page, reply: Reply<CreateBody>): (r: Step)
    ensures Consistent(r.page)
    ensures r.page.active <==> reply.Replied? && IsOk(reply.value.status) && Present(reply.value.token)
    ensures r.page.active ==> r.effects == [Navigate(SessionPath(p.qr, reply.value.token.value))]
    ensures !r.page.active ==> r == Step(CreationFailed(p), [])
  {
    if reply.Replied? && IsOk(reply.value.status) && Present(reply.value.token) then
      Step(p.(active := true, rescan := false, message := NoMessage),
           [Navigate(SessionPath(p.qr, reply.value.token.value))])
    else Step(CreationFailed(p), [])
  }

  /** A tick of the validation interval, which only runs while the route has
      a token and the session is active. */
  function Tick(p: Page): (effects: seq<Effect>)
    ensures effects != [] <==> Present(p.token) && p.active
    ensures effects != [] ==> effects == [SendValidate(p.token.value)]
  {
    if Present(p.token) && p.active then [SendValidate(p.token.value)] else []
  }

  /** The reply to a periodic validation: only a definite "valid" keeps the
      page as it is. */
  function Revalidated(p: Page, reply: Reply<bool>): (r: Page)
    ensures Consistent(p) ==> Consistent(r)
    ensures reply == Replied(true) ==> r == p
    ensures reply != Replied(true) ==> r == Locked(p, "sessionExpired")
  {
    if reply == Replied(true) then p else Locked(p, "sessionExpired")
  }

  /** The path a call button posts to, below the API root. For an
      identifier the route could carry (not empty, no `/`), the server's
      mapping reads back that identifier and the button's segment, which
      its parser turns into the pressed kind. */
  function CallPath(qr: Option<string>, kind: CallKind): (path: string)
    ensures Shown(qr) != "" && '/' !in Shown(qr) ==>
              MatchCallRoute(path) == Some(CallRoute(Shown(qr), KindSegment(kind)))
    ensures CallEntity.ParseCallType(LastSegment(path))
            == Some(if kind == Waiter then CallEntity.WAITER else CallEntity.BILL)
  {
    var path := CALLS_PREFIX + Shown(qr) + "/" + KindSegment(kind);
    KindSegmentParses(kind);
    SegmentAfterLastSlash(CALLS_PREFIX + Shown(qr), KindSegment(kind));
    if Shown(qr) != "" && '/' !in Shown(qr) then CallPathRoutes(Shown(qr), KindSegment(kind)); path
    else path
  }

  const CALLS_PREFIX: string := "/calls/"

  /** The position of the first `/` in `s`, or `|s|` when there is none. */
  function FirstSlash(s: string): (i: nat)
    ensures i <= |s|
    ensures forall k | 0 <= k < i :: s[k] != '/'
    ensures i < |s| ==> s[i] == '/'
  {
    if |s| == 0 || s[0] == '/' then 0 else 1 + FirstSlash(s[1..])
  }

  /** What follows the last `/` of `s` (all of `s` when it has none). */
  function LastSegment(s: string): (r: string)
    ensures '/' !in r
    ensures |r| <= |s| && r == s[|s| - |r|..]
    ensures |r| < |s| ==> s[|s| - |r| - 1] == '/'
  {
    if |s| == 0 then ""
    else if s[|s| - 1] == '/' then ""
    else LastSegment(s[..|s| - 1]) + [s[|s| - 1]]
  }

  /** The two path variables of the server's `/calls/{qrIdentifier}/{type}`. */
  datatype CallRoute = CallRoute(qr: string, segment: string)

  /** How the server's mapping reads a path below the API root: the prefix,
      then two non-empty segments without `/`; anything else is not this
      route. */
  function MatchCallRoute(path: string): (r: Option<CallRoute>)
    ensures r.Some? ==> path == CALLS_PREFIX + r.value.qr + "/" + r.value.segment
    ensures r.Some? ==> r.value.qr != "" && r.value.segment != ""
    ensures r.Some? ==> '/' !in r.value.qr && '/' !in r.value.segment
  {
    if |path| < |CALLS_PREFIX| || path[..|CALLS_PREFIX|] != CALLS_PREFIX then None
    else
      var rest := path[|CALLS_PREFIX|..];
      var i := FirstSlash(rest);
      if i == 0 || i + 1 >= |rest| || '/' in rest[i + 1..] then None
      else
        assert '/' !in rest[..i] by {
          forall k | 0 <= k < i ensures rest[..i][k] != '/' { }
        }
        assert path == CALLS_PREFIX + rest[..i] + "/" + rest[i + 1..] by {
          assert rest == rest[..i] + "/" + rest[i + 1..];
        }
        Some(CallRoute(rest[..i], rest[i + 1..]))
  }

  /** A path ending in `/` and a segment without `/` has that segment
      last. */
  lemma {:induction false} SegmentAfterLastSlash(front: string, segment: string)
    requires '/' !in segment
    ensures LastSegment(front + "/" + segment) == segment
    decreases |segment|
  {
    var path := front + "/" + segment;
    if segment != [] {
      var shorter := segment[..|segment| - 1];
      assert path[..|path| - 1] == front + "/" + shorter;
      assert '/' !in shorter by {
        forall k | 0 <= k < |shorter| ensures shorter[k] != '/' { assert shorter[k] == segment[k]; }
      }
      SegmentAfterLastSlash(front, shorter);
      assert segment == shorter + [segment[|segment| - 1]];
    }
  }

  /** The server's mapping reads back the identifier and the segment a
      path was built from, when neither is empty nor contains `/`. */
  lemma CallPathRoutes(front: string, segment: string)
    requires front != "" && '/' !in front && segment != "" && '/' !in segment
    ensures MatchCallRoute(CALLS_PREFIX + front + "/" + segment) == Some(CallRoute(front, segment))
  {
    var path := CALLS_PREFIX + front + "/" + segment;
    var rest := front + "/" + segment;
    assert path[..|CALLS_PREFIX|] == CALLS_PREFIX && path[|CALLS_PREFIX|..] == rest;
    var i := FirstSlash(rest);
    assert rest[|front|] == '/';
    assert forall k | 0 <= k < |front| :: rest[k] == front[k];
    assert i == |front|;
    assert rest[..i] == front && rest[i + 1..] == segment;
  }

  /** The call buttons' `disabled` attribute. An enabled button always
      sends its call; on a consistent page a disabled one never would. */
  function ButtonsDisabled(p: Page): (disabled: bool)
    ensures !disabled ==> PressCall(p, Waiter).effects != [] && PressCall(p, Bill).effects != []
    ensures disabled && Consistent(p) ==> PressCall(p, Waiter).effects == [] && PressCall(p, Bill).effects == []
  {
    !p.active || p.cooldown || p.rescan || !Present(p.token)
  }

  /** `handleCall(kind)`: nothing is sent without an active session and a
      token, or during the cooldown. */
  function PressCall(p: Page, kind: CallKind): (r: Step)
    ensures Consistent(p) ==> Consistent(r.page)
    ensures r.effects != [] <==> p.active && Present(p.token) && !p.cooldown
    ensures r.effects != [] ==> r == Step(p, [SendCall(CallPath(p.qr, kind), p.token.value)])
    ensures (!p.active || !Present(p.token)) ==> r == Step(p.(message := Key("sessionExpired")), [])
    ensures p.active && Present(p.token) && p.cooldown ==> r == Step(p.(message := Key("pleaseWaitCall")), [])
  {
    if !p.active || !Present(p.token) then Step(p.(message := Key("sessionExpired")), [])
    else if p.cooldown then Step(p.(message := Key("pleaseWaitCall")), [])
    else Step(p, [SendCall(CallPath(p.qr, kind), p.token.value)])
  }

  /** The answer to a call request. A 2xx starts the three-minute cooldown.
      Any other status shows the server's text (or a fallback), and a 401 or
      403 also ends the session on the page. */
  function CallAnswered(p: Page, kind: CallKind, reply: CallReply): (r: Step)
    ensures Consistent(p) ==> Consistent(r.page)
    ensures reply.CallResponse? && IsOk(reply.status) ==>
              r == Step(p.(message := Key(if kind == Waiter then "waiterCalled" else "billCalled"), cooldown := true),
                        [StartCooldownTimer(CALL_COOLDOWN)])
    ensures reply.CallResponse? && !IsOk(reply.status) ==>
              && r.effects == []
              && r.page.message == (if reply.text != "" then Raw(reply.text) else Key("errorMakingCall"))
              && (reply.status == UNAUTHORIZED || reply.status == FORBIDDEN ==> !r.page.active && r.page.rescan)
              && (reply.status != UNAUTHORIZED && reply.status != FORBIDDEN ==> r.page == p.(message := r.page.message))
    ensures reply.CallNetworkError? ==> r == Step(p.(message := Key("serverError")), [])
    ensures r.page.storedQR == p.storedQR && r.page.token == p.token
  {
    match reply
    case CallNetworkError => Step(p.(message := Key("serverError")), [])
    case CallResponse(status, text) =>
      if IsOk(status) then
        Step(p.(message := Key(if kind == Waiter then "waiterCalled" else "billCalled"), cooldown := true),
             [StartCooldownTimer(CALL_COOLDOWN)])
      else
        var q := if status == UNAUTHORIZED || status == FORBIDDEN then Locked(p, "sessionExpired") else p;
        Step(q.(message := if text != "" then Raw(text) else Key("errorMakingCall")), [])
  }

  /** The cooldown timer fired. */
  function CooldownOver(p: Page): (r: Page)
    ensures Consistent(p) ==> Consistent(r)
    ensures !r.cooldown && r.(cooldown := p.cooldown) == p
  {
    p.(cooldown := false)
  }

  /** The confirmation names the button that was pressed: the two buttons'
      successful calls leave different messages. */
  lemma ConfirmationNamesButton(p: Page, status: int, text: string)
    requires IsOk(status)
    ensures CallAnswered(p, Waiter, CallResponse(status, text)).page.message
            != CallAnswered(p, Bill, CallResponse(status, text)).page.message
  {
  }

  /** After a placed call, every press until the timer fires sends nothing
      and asks the guest to wait; once it fires, a press goes through again. */
  lemma CooldownBlocksPresses(p: Page, kind: CallKind, status: int, text: string, again: CallKind)
    requires p.active && Present(p.token) && !p.cooldown && IsOk(status)
    ensures var after := CallAnswered(PressCall(p, kind).page, kind, CallResponse(status, text)).page;
            && PressCall(after, again) == Step(after.(message := Key("pleaseWaitCall")), [])
            && PressCall(CooldownOver(after), again).effects == [SendCall(CallPath(p.qr, again), p.token.value)]
  {
  }

  /** The effect running again (a translation render) while the creation
      request is in flight finds the identifier already stored: it asks for
      a rescan and sends nothing, and the reply, when it comes, still opens
      the session. */
  lemma EnterAgainBeforeReply(storedQR: Option<string>, qr: string, body: CreateBody)
    requires qr != "" && storedQR != Some(qr)
    ensures var entered := Enter(Opened(storedQR), Some(qr), None);
            var again := Enter(entered.page, Some(qr), None);
            && entered.effects == [SendCreate(qr)]
            && again.effects == [] && again.page.rescan && again.page.message == Key("sessionExpired")
            && Created(again.page, Replied(body)).page.active
  {
  }

  /** After a failed creation, every further run of the effect on the same
      route (each language switch, say) requests a session again. */
  lemma EnterAgainAfterFailureRetries(p: Page, qr: string)
    requires qr != ""
    ensures Enter(CreationFailed(p), Some(qr), None).effects == [SendCreate(qr)]
  {
  }

  /** A route with a token never asks for a new session. */
  lemma TokenRouteNeverCreates(p: Page, qr: Option<string>, token: Option<string>)
    requires Present(token)
    ensures forall e | e in Enter(p, qr, token).effects :: !e.SendCreate?
  {
  }

  /** As the page is written: a creation reply that is an error body (the
      server's 500 page for an unknown or failing table) still sends the page
      to `/table/{qr}/undefined` as an active session, and the tab keeps the
      identifier, so that validating the bogus token fails and scanning the
      same code again creates nothing. */
  lemma ErrorReplyOpensBogusSession(storedQR: Option<string>, qr: string, status: int)
    requires qr != "" && storedQR != Some(qr) && !IsOk(status)
    ensures var entered := Enter(Opened(storedQR), Some(qr), None);
            var created := Created(entered.page, Replied(CreateBody(status, None)));
            var followed := Enter(created.page, Some(qr), Some("undefined"));
            var refused := Validated(followed.page, Replied(false));
            && entered.effects == [SendCreate(qr)]
            && created.page.active
            && created.effects == [Navigate("/table/" + qr + "/undefined")]
            && followed.effects == [SendValidate("undefined")]
            && refused.storedQR == Some(qr)
            && Enter(refused, Some(qr), None).effects == []
            && Enter(refused, Some(qr), None).page.message == Key("sessionExpired")
  {
    assert "/table/" + qr + "/" + "undefined" == "/table/" + qr + "/undefined";
  }

  /** With the reply checked, the same error body is a failed creation: the
      page asks for a rescan with the creation error, and scanning the code
      again requests a new session. */
  lemma CheckedErrorReplyAllowsRetry(storedQR: Option<string>, qr: string, body: CreateBody)
    requires qr != "" && storedQR != Some(qr)
    requires !IsOk(body.status) || !Present(body.token)
    ensures var entered := Enter(Opened(storedQR), Some(qr), None);
            var created := CreatedChecked(entered.page, Replied(body));
            && !created.page.active && created.page.rescan
            && created.page.message == Key("errorCreatingSession")
            && created.effects == []
            && Enter(created.page, Some(qr), None).effects == [SendCreate(qr)]
  {
  }

  /** With the reply checked, an active page always navigated to a route that
      carries the token the server issued. */
  lemma CheckedCreationCarriesToken(p: Page, reply: Reply<CreateBody>)
    requires CreatedChecked(p, reply).page.active
    ensures reply.Replied? && Present(reply.value.token)
    ensures CreatedChecked(p, reply).effects == [Navigate(SessionPath(p.qr, reply.value.token.value))]
  {
  }
}
