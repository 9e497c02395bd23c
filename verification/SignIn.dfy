/**
 The authorization-code sign-in routes on one session (sections 4.1.1 and 4.1.2 of
 RFC 6749). What the provider, the resolver, the session store and the clock answer is
 part of each request; one request's work on the session is one step.
 */
module SignIn {
  import opened FormUrl
  import opened Options
  import opened PendingLogins
  import opened Redirect

  type User = string

  const CANCELLED: Refusal := Refusal("cancelled", None)
  const EXPIRED: Refusal := Refusal("expired", None)
  const PROVIDER_FAILED: Refusal := Refusal("provider_failed", None)
  const UNAVAILABLE: Refusal := Refusal("unavailable", None)
  const SIGNED_OUT: Refusal := Refusal("signed_out", None)
  const FAILED: Refusal := Refusal("failed", None)

  datatype Flow = Flow(providers: set<string>, paths: Paths)

  /** Where the provider is asked, and the secrets of this attempt. */
  datatype Authorization = Authorization(url: string, state: string, pkceVerifier: Option<string>, nonce: Option<string>)

  datatype StartRequest = StartRequest(
    provider: string, next: Option<string>, link: Option<string>,
    authorization: Option<Authorization>, createdAt: nat, now: nat, readable: bool, writable: bool)

  datatype Resolution = Resolved(user: User, query: seq<Pair>) | Denied(refusal: Refusal)

  datatype CallbackRequest = CallbackRequest(
    provider: string, code: Option<string>, state: Option<string>, error: Option<string>,
    now: nat, readable: bool, writable: bool, identified: bool, resolution: Resolution, loginOk: bool)

  /** Where the browser is redirected: to the provider, back with a refusal, or on to `next`. */
  datatype Response =
    | ToProvider(url: string)
    | SendBack(refusal: Refusal, back: Option<Return>)
    | GoOn(next: string, query: seq<Pair>)

  /** The redirect's target. */
  function Target(paths: Paths, response: Response): string {
    match response
    case ToProvider(url) => url
    case SendBack(refusal, back) => Refuse(paths, refusal, back)
    case GoOn(next, query) => Appended(next, query)
  }

  method Render(paths: Paths, response: Response) returns (target: string)
    ensures target == Target(paths, response)
  {
    match response {
      case ToProvider(url) =>
        target := url;
      case SendBack(refusal, back) =>
        var param := if refusal.param.Some? then refusal.param.value else paths.errorParam;
        match back {
          case Some(Return(next, true)) => target := WithQuery(next, [(param, refusal.code)]);
          case Some(Return(next, false)) => target := WithQuery(paths.signIn, [(param, refusal.code), ("next", next)]);
          case None => target := WithQuery(paths.signIn, [(param, refusal.code)]);
        }
      case GoOn(next, query) =>
        target := WithQuery(next, query);
    }
  }

  /** Which path of the app the redirect is made from, and what is appended to it. */
  function Aim(paths: Paths, response: Response): string {
    match response
    case GoOn(next, _) => next
    case SendBack(_, Some(Return(next, true))) => next
    case _ => paths.signIn
  }

  function Luggage(paths: Paths, response: Response): seq<Pair> {
    match response
    case ToProvider(_) => []
    case GoOn(_, query) => query
    case SendBack(refusal, back) =>
      [(if refusal.param.Some? then refusal.param.value else paths.errorParam, refusal.code)]
      + (if back.Some? && !back.value.link then [("next", back.value.next)] else [])
  }

  lemma TargetIsAppended(paths: Paths, response: Response)
    requires !response.ToProvider?
    ensures Target(paths, response) == Appended(Aim(paths, response), Luggage(paths, response))
  {
    match response
    case SendBack(refusal, Some(Return(next, false))) =>
      var param := if refusal.param.Some? then refusal.param.value else paths.errorParam;
      assert [(param, refusal.code)] + [("next", next)] == [(param, refusal.code), ("next", next)];
    case SendBack(refusal, _) =>
      assert [(if refusal.param.Some? then refusal.param.value else paths.errorParam, refusal.code)] + []
          == [(if refusal.param.Some? then refusal.param.value else paths.errorParam, refusal.code)];
    case GoOn(_, _) =>
  }

  /**
   A redirect within the app leads to the place it is made from, adds its parameters behind
   those that are there, and leaves the site only if that place is elsewhere.
   */
  lemma TargetCarries(paths: Paths, response: Response)
    requires !response.ToProvider?
    ensures var target, aim := Target(paths, response), Aim(paths, response);
            && Params(target) == Params(aim) + EncodePairs(Luggage(paths, response))
            && Location(target) == Location(aim) && Fragment(target) == Fragment(aim)
            && (OnSite(target) <==> OnSite(aim))
  {
    TargetIsAppended(paths, response);
    AppendedCarries(Aim(paths, response), Luggage(paths, response));
  }

  lemma AppendedCarries(aim: string, luggage: seq<Pair>)
    ensures var target := Appended(aim, luggage);
            && Params(target) == Params(aim) + EncodePairs(luggage)
            && Location(target) == Location(aim) && Fragment(target) == Fragment(aim)
            && (OnSite(target) <==> OnSite(aim))
  {
    AppendsParams(aim, luggage);
    OnSiteClosed(aim, luggage);
  }

  /** What the session holds between requests. */
  datatype Sess = Sess(pending: Option<PendingMap>, user: Option<User>)

  /** What the resolver is shown. */
  datatype Context = Context(currentUser: Option<User>, link: bool)

  /** `seen` is the context the resolver was called with, `login` the attempt that ended in a login. */
  datatype CallbackResult = CallbackResult(after: Sess, response: Response, seen: Option<Context>, login: Option<PendingLogin>)

  // ---- start ----

  datatype Decision = Refused(refusal: Refusal, back: Return) | Began(attempt: PendingLogin, url: string)

  function DecideStart(flow: Flow, user: Option<User>, req: StartRequest): Decision {
    var next := SafeNext(req.next, flow.paths.defaultNext);
    var link := req.link == Some("1") || req.link == Some("true");
    if req.provider !in flow.providers then Refused(UNAVAILABLE, Return(next, link))
    else if link && user.None? then Refused(SIGNED_OUT, Return(next, false))
    else match req.authorization
         case None => Refused(PROVIDER_FAILED, Return(next, link))
         case Some(a) =>
           Began(PendingLogin(req.provider, a.state, a.pkceVerifier, a.nonce, next, link, req.createdAt), a.url)
  }

  ghost predicate StartStep(flow: Flow, s: Sess, req: StartRequest, t: Sess, response: Response) {
    match DecideStart(flow, s.user, req)
    case Refused(refusal, back) => t == s && response == SendBack(refusal, Some(back))
    case Began(p, url) =>
      if req.readable && req.writable then
        && response == ToProvider(url) && t.user == s.user && t.pending.Some?
        && exists evicted :: Remembered(Entries(s.pending), p, req.now, evicted, t.pending.value)
      else
        t == s && response == SendBack(FAILED, Some(Return(p.next, p.link)))
  }

  // ---- callback ----

  function CallbackTake(s: Sess, req: CallbackRequest): Outcome<Option<PendingLogin>> {
    if req.state.None? then Ok(None)
    else if req.readable && (s.pending.None? || req.writable) then Ok(Taken(s.pending, req.state.value, req.now))
    else Err
  }

  function CallbackLeaves(s: Sess, req: CallbackRequest): Sess {
    if req.state.Some? && CallbackTake(s, req).Ok? then s.(pending := AfterTake(s.pending, req.state.value)) else s
  }

  /** How a callback ends: where a refusal is sent back to, or who is signed in with what. */
  datatype Verdict =
    | Refusing(refusal: Refusal, back: Option<Return>, seen: Option<Context>)
    | SigningIn(attempt: PendingLogin, user: User, query: seq<Pair>, ctx: Context)

  function Judge(flow: Flow, user: Option<User>, taken: Outcome<Option<PendingLogin>>, req: CallbackRequest): Verdict {
    match taken
    case Err => Refusing(FAILED, None, None)
    case Ok(found) =>
      if found.None? || found.value.provider != req.provider then Refusing(EXPIRED, None, None)
      else
        var p := found.value;
        var back := Some(Return(p.next, p.link));
        var ctx := Context(user, p.link);
        if req.error.Some? then
          Refusing(if req.error.value == "access_denied" then CANCELLED else PROVIDER_FAILED, back, None)
        else if req.code.None? || req.provider !in flow.providers || !req.identified then
          Refusing(PROVIDER_FAILED, back, None)
        else if p.link && user.None? then Refusing(SIGNED_OUT, Some(Return(p.next, false)), None)
        else if req.resolution.Denied? then Refusing(req.resolution.refusal, back, Some(ctx))
        else if !req.loginOk then Refusing(FAILED, back, Some(ctx))
        else SigningIn(p, req.resolution.user, req.resolution.query, ctx)
  }

  function DoCallback(flow: Flow, s: Sess, req: CallbackRequest): CallbackResult {
    var t := CallbackLeaves(s, req);
    match Judge(flow, s.user, CallbackTake(s, req), req)
    case Refusing(refusal, back, seen) => CallbackResult(t, SendBack(refusal, back), seen, None)
    case SigningIn(p, user, query, ctx) => CallbackResult(t.(user := Some(user)), GoOn(p.next, query), Some(ctx), Some(p))
  }

  /** A request's view of its session: the pending attempts, and who is signed in. */
  class AuthSession {
    const session: Session
    var user: Option<User>

    constructor (session: Session)
      ensures this.session == session && user == None
    {
      this.session := session;
      user := None;
    }

    ghost function Holding(): Sess
      reads this, session
    {
      Sess(session.pending, user)
    }

    method Start(flow: Flow, req: StartRequest) returns (response: Response)
      modifies this, session
      ensures StartStep(flow, old(Holding()), req, Holding(), response)
    {
      var next := SafeNext(req.next, flow.paths.defaultNext);
      var link := req.link == Some("1") || req.link == Some("true");
      var back := Some(Return(next, link));
      if req.provider !in flow.providers {
        return SendBack(UNAVAILABLE, back);
      }
      if link && user.None? {
        return SendBack(SIGNED_OUT, Some(Return(next, false)));
      }
      if req.authorization.None? {
        return SendBack(PROVIDER_FAILED, back);
      }
      var a := req.authorization.value;
      assert DecideStart(flow, user, req).Began?;
      var attempt := PendingLogin(req.provider, a.state, a.pkceVerifier, a.nonce, next, link, req.createdAt);
      var stored, evicted := session.Remember(attempt, req.now, req.readable, req.writable);
      if !stored {
        return SendBack(FAILED, back);
      }
      assert Remembered(Entries(old(session.pending)), attempt, req.now, evicted, session.pending.value);
      response := ToProvider(a.url);
    }

    method Callback(flow: Flow, req: CallbackRequest)
      returns (response: Response, seen: Option<Context>, login: Option<PendingLogin>)
      modifies this, session
      ensures CallbackResult(Holding(), response, seen, login) == DoCallback(flow, old(Holding()), req)
    {
      seen, login := None, None;
      var pending := Ok(None);
      if req.state.Some? {
        pending := session.Take(req.state.value, req.now, req.readable, req.writable);
      }
      if pending.Err? {
        response := SendBack(FAILED, None);
        return;
      }
      if pending.value.None? || pending.value.value.provider != req.provider {
        response := SendBack(EXPIRED, None);
        return;
      }
      var p := pending.value.value;
      var back := Some(Return(p.next, p.link));
      if req.error.Some? {
        var refusal := if req.error.value == "access_denied" then CANCELLED else PROVIDER_FAILED;
        response := SendBack(refusal, back);
        return;
      }
      if req.code.None? || req.provider !in flow.providers || !req.identified {
        response := SendBack(PROVIDER_FAILED, back);
        return;
      }
      if p.link && user.None? {
        response := SendBack(SIGNED_OUT, Some(Return(p.next, false)));
        return;
      }
      seen := Some(Context(user, p.link));
      if req.resolution.Denied? {
        response := SendBack(req.resolution.refusal, back);
        return;
      }
      if !req.loginOk {
        response := SendBack(FAILED, back);
        return;
      }
      user, login := Some(req.resolution.user), Some(p);
      response := GoOn(p.next, req.resolution.query);
    }
  }

  // ---- runs of one session ----

  /** `SetUser` is any other sign-in of the app, by password say; it leaves the attempts alone. */
  datatype Event =
    | Started(start: StartRequest, response: Response)
    | CalledBack(callback: CallbackRequest, result: CallbackResult)
    | SignedOut(now: nat)
    | SetUser(now: nat, user: Option<User>)

  ghost predicate EventStep(flow: Flow, s: Sess, e: Event, t: Sess) {
    match e
    case Started(req, response) => StartStep(flow, s, req, t, response)
    case CalledBack(req, result) => result == DoCallback(flow, s, req) && t == result.after
    case SignedOut(_) => t == Sess(None, None)
    case SetUser(_, user) => t == s.(user := user)
  }

  ghost predicate History(flow: Flow, events: seq<Event>, states: seq<Sess>) {
    && |states| == |events| + 1 && states[0].pending == None
    && forall i | 0 <= i < |events| :: EventStep(flow, states[i], events[i], states[i + 1])
  }

  /** What an event does to the pending attempts. */
  ghost function OpOf(flow: Flow, s: Sess, e: Event): Op {
    match e
    case Started(req, _) =>
      (match DecideStart(flow, s.user, req)
       case Refused(_, _) => Other(req.now)
       case Began(p, _) => if req.readable && req.writable then Remember(p, req.now) else Other(req.now))
    case CalledBack(req, _) =>
      if req.state.Some? && CallbackTake(s, req).Ok? then
        Take(req.state.value, req.now, CallbackTake(s, req).value)
      else Other(req.now)
    case SignedOut(now) => Clear(now)
    case SetUser(now, _) => Other(now)
  }

  ghost function Ops(flow: Flow, events: seq<Event>, states: seq<Sess>): (ops: seq<Op>)
    requires |states| == |events| + 1
    ensures |ops| == |events| && forall i | 0 <= i < |events| :: ops[i] == OpOf(flow, states[i], events[i])
  {
    seq(|events|, i requires 0 <= i < |events| => OpOf(flow, states[i], events[i]))
  }

  ghost function PendingOf(states: seq<Sess>): seq<Option<PendingMap>> {
    seq(|states|, i requires 0 <= i < |states| => states[i].pending)
  }

  lemma EventIsOp(flow: Flow, s: Sess, e: Event, t: Sess)
    requires EventStep(flow, s, e, t)
    ensures Step(s.pending, OpOf(flow, s, e), t.pending)
  {
  }

  lemma HistoryIsExecution(flow: Flow, events: seq<Event>, states: seq<Sess>)
    requires History(flow, events, states)
    ensures Execution(Ops(flow, events, states), PendingOf(states))
  {
    forall i | 0 <= i < |events|
      ensures Step(PendingOf(states)[i], Ops(flow, events, states)[i], PendingOf(states)[i + 1])
    {
      EventIsOp(flow, states[i], events[i], states[i + 1]);
    }
  }

  /** `events[i]` is the start whose attempt the callback `events[n]` signs in with. */
  ghost predicate StartOf(flow: Flow, events: seq<Event>, states: seq<Sess>, i: nat, n: nat) {
    && |states| == |events| + 1 && i < n < |events| && events[i].Started? && events[n].CalledBack? && events[n].result.login.Some?
    && DecideStart(flow, states[i].user, events[i].start).Began?
    && DecideStart(flow, states[i].user, events[i].start).attempt == events[n].result.login.value
    && Pending(Ops(flow, events, states), i, n, events[n].result.login.value)
  }

  /**
   Every login goes back to exactly one earlier start on this session, with the callback's
   provider and state token, made less than ten minutes before; no operation came between
   the two that concerned the token.
   */
  lemma LoginHasOneStart(flow: Flow, events: seq<Event>, states: seq<Sess>, n: nat)
    requires History(flow, events, states) && n < |events| && events[n].CalledBack? && events[n].result.login.Some?
    ensures exists i :: StartOf(flow, events, states, i, n)
    ensures forall i, j | StartOf(flow, events, states, i, n) && StartOf(flow, events, states, j, n) :: i == j
    ensures forall i: nat | StartOf(flow, events, states, i, n) ::
              var start, req := events[i].start, events[n].callback;
              && start.provider == req.provider && start.authorization.Some? && req.state == Some(start.authorization.value.state)
              && req.now < start.createdAt + 600
    ensures var p, req := events[n].result.login.value, events[n].callback;
            p.provider == req.provider && req.state == Some(p.state) && req.now < p.createdAt + 600
  {
    HistoryIsExecution(flow, events, states);
    assert EventStep(flow, states[n], events[n], states[n + 1]);
    var ops := Ops(flow, events, states);
    assert ops[n] == OpOf(flow, states[n], events[n]);
    var i := TakenWasRemembered(ops, PendingOf(states), n);
    assert ops[i] == OpOf(flow, states[i], events[i]);
    assert StartOf(flow, events, states, i, n);
    forall i, j | StartOf(flow, events, states, i, n) && StartOf(flow, events, states, j, n)
      ensures i == j
    {
      PendingUnique(ops, i, j, n, events[n].result.login.value, events[n].result.login.value);
    }
  }

  // ---- what a start and a callback need ----

  /** The start is answered with the provider's page: everything is there, and a link has somebody to link to. */
  ghost predicate StartSucceeds(flow: Flow, s: Sess, req: StartRequest) {
    && req.provider in flow.providers
    && (req.link == Some("1") || req.link == Some("true") ==> s.user.Some?)
    && req.authorization.Some? && req.readable && req.writable
  }

  /** The attempt holds what the request and the provider gave. */
  ghost predicate AttemptOf(flow: Flow, req: StartRequest, p: PendingLogin)
    requires req.authorization.Some?
  {
    var a := req.authorization.value;
    && p.provider == req.provider && p.createdAt == req.createdAt && p.next == SafeNext(req.next, flow.paths.defaultNext)
    && p.state == a.state && p.pkceVerifier == a.pkceVerifier && p.nonce == a.nonce
    && (p.link <==> req.link == Some("1") || req.link == Some("true"))
  }

  /** In every history, a start goes to the provider exactly then, and its attempt is kept under the provider's token. */
  lemma StartSucceedsIff(flow: Flow, events: seq<Event>, states: seq<Sess>, n: nat)
    requires History(flow, events, states) && n < |events| && events[n].Started?
    ensures var req, response := events[n].start, events[n].response;
            && (response.ToProvider? <==> StartSucceeds(flow, states[n], req))
            && states[n + 1].user == states[n].user
            && (response.ToProvider? ==>
                  && response.url == req.authorization.value.url && states[n + 1].pending.Some?
                  && req.authorization.value.state in states[n + 1].pending.value
                  && AttemptOf(flow, req, states[n + 1].pending.value[req.authorization.value.state]))
            && (!response.ToProvider? ==> states[n + 1] == states[n] && response.SendBack? && response.back.Some?)
  {
    assert EventStep(flow, states[n], events[n], states[n + 1]);
  }

  /** Which code a refused start sends back, and where to. */
  lemma StartRefusal(flow: Flow, s: Sess, req: StartRequest, t: Sess, response: Response)
    requires StartStep(flow, s, req, t, response) && !response.ToProvider?
    ensures response.SendBack? && response.back.Some?
    ensures var links := req.link == Some("1") || req.link == Some("true");
            var code := if req.provider !in flow.providers then "unavailable"
                        else if links && s.user.None? then "signed_out"
                        else if req.authorization.None? then "provider_failed" else "failed";
            && response.refusal == Refusal(code, None)
            && response.back == Some(Return(SafeNext(req.next, flow.paths.defaultNext), links && code != "signed_out"))
  {
    assert |UNAVAILABLE.code| != |SIGNED_OUT.code| && |PROVIDER_FAILED.code| != |SIGNED_OUT.code| && |FAILED.code| != |SIGNED_OUT.code|;
  }

  /** The session could be read and, if there was anything to take from, written. */
  ghost predicate StoreAnswers(s: Sess, req: CallbackRequest) {
    req.state.None? || (req.readable && (s.pending.None? || req.writable))
  }

  /** The callback's token names the attempt `p`, of this provider and less than ten minutes old. */
  ghost predicate Finds(s: Sess, req: CallbackRequest, p: PendingLogin) {
    && StoreAnswers(s, req)
    && req.state.Some? && s.pending.Some? && req.state.value in s.pending.value && s.pending.value[req.state.value] == p
    && req.now < p.createdAt + 600 && p.provider == req.provider
  }

  /** The provider vouches for a person: no error, a code, and an identity for it. */
  ghost predicate Vouched(flow: Flow, req: CallbackRequest) {
    req.error.None? && req.code.Some? && req.provider in flow.providers && req.identified
  }

  /** The resolver is asked: there is a person, and for a link somebody to link to. */
  ghost predicate Asked(flow: Flow, s: Sess, req: CallbackRequest, p: PendingLogin) {
    Finds(s, req, p) && Vouched(flow, req) && (p.link ==> s.user.Some?)
  }

  lemma CallbackLogsInIff(flow: Flow, s: Sess, req: CallbackRequest, p: PendingLogin)
    ensures var r := DoCallback(flow, s, req);
            && (r.login == Some(p) <==> Asked(flow, s, req, p) && req.resolution.Resolved? && req.loginOk)
            && (r.seen.Some? && CallbackTake(s, req) == Ok(Some(p)) <==> Asked(flow, s, req, p))
            && (r.login.Some? ==> r.after.user == Some(req.resolution.user) && r.response.GoOn?)
            && (r.login.None? ==> r.after.user == s.user && r.response.SendBack?)
            && (r.seen.Some? ==> r.seen == Some(Context(s.user, CallbackTake(s, req).value.value.link)))
            && (r.seen.Some? || r.login.Some? ==> CallbackTake(s, req).Ok? && CallbackTake(s, req).value.Some?)
  {
  }

  /**
   In every history, a callback signs somebody in exactly when its token finds a fresh
   attempt of its provider, the provider vouches, a link has a current user, and resolver
   and login succeed; otherwise whoever was signed in stays.
   */
  lemma LoginIff(flow: Flow, events: seq<Event>, states: seq<Sess>, n: nat)
    requires History(flow, events, states) && n < |events| && events[n].CalledBack?
    ensures var s, req, r := states[n], events[n].callback, events[n].result;
            && (r.login.Some? <==> exists p :: Asked(flow, s, req, p) && req.resolution.Resolved? && req.loginOk)
            && (r.seen.Some? <==> exists p :: Asked(flow, s, req, p))
            && states[n + 1].user == (if r.login.Some? then Some(req.resolution.user) else s.user)
            && (r.login.Some? <==> r.response.GoOn?)
  {
    var s, req, r := states[n], events[n].callback, events[n].result;
    assert EventStep(flow, s, events[n], states[n + 1]);
    if r.login.Some? {
      CallbackLogsInIff(flow, s, req, r.login.value);
    } else if r.seen.Some? {
      CallbackLogsInIff(flow, s, req, CallbackTake(s, req).value.value);
    }
    forall p | Asked(flow, s, req, p)
      ensures r.seen.Some? && (req.resolution.Resolved? && req.loginOk ==> r.login.Some?)
    {
      CallbackLogsInIff(flow, s, req, p);
    }
  }

  /** What is sent back when the attempt cannot be had: nothing is known of where to go. */
  lemma NothingFound(flow: Flow, s: Sess, req: CallbackRequest)
    requires forall p :: !Finds(s, req, p)
    ensures DoCallback(flow, s, req).response.SendBack? && DoCallback(flow, s, req).response.back == None
    ensures DoCallback(flow, s, req).response.refusal.code == if StoreAnswers(s, req) then "expired" else "failed"
  {
    var taken := CallbackTake(s, req);
    if taken.Ok? && taken.value.Some? && taken.value.value.provider == req.provider {
      assert Finds(s, req, taken.value.value);
    }
  }

  /** And when it is found: `cancelled` exactly if the person said no at the provider. */
  lemma CallbackRefusal(flow: Flow, s: Sess, req: CallbackRequest, p: PendingLogin)
    requires Finds(s, req, p) && DoCallback(flow, s, req).login.None?
    ensures var response := DoCallback(flow, s, req).response;
            && response.SendBack? && response.back.Some? && response.back.value.next == p.next
            && (!Vouched(flow, req) ==>
                  && response.refusal.code == (if req.error == Some("access_denied") then "cancelled" else "provider_failed")
                  && response.back.value.link == p.link)
            && (Vouched(flow, req) && p.link && s.user.None? ==>
                  response.refusal.code == "signed_out" && !response.back.value.link)
            && (Asked(flow, s, req, p) ==>
                  && response.back.value.link == p.link
                  && response.refusal == if req.resolution.Denied? then req.resolution.refusal else FAILED)
  {
  }

  /** No two logins share a start. */
  lemma LoginsShareNoStart(flow: Flow, events: seq<Event>, states: seq<Sess>, i: nat, n: nat, m: nat)
    requires History(flow, events, states) && StartOf(flow, events, states, i, n) && StartOf(flow, events, states, i, m)
    ensures n == m
  {
    HistoryIsExecution(flow, events, states);
    var ops := Ops(flow, events, states);
    assert EventStep(flow, states[n], events[n], states[n + 1]) && EventStep(flow, states[m], events[m], states[m + 1]);
    assert ops[n] == OpOf(flow, states[n], events[n]) && ops[m] == OpOf(flow, states[m], events[m]);
    if n < m {
      TakenOnce(ops, PendingOf(states), n, m, i);
    } else if m < n {
      TakenOnce(ops, PendingOf(states), m, n, i);
    }
  }

  /** A login goes to the `next` its start was asked for, when that is a path on this site, with the resolver's pairs. */
  lemma LoginGoesToNext(flow: Flow, events: seq<Event>, states: seq<Sess>, i: nat, n: nat)
    requires History(flow, events, states) && StartOf(flow, events, states, i, n)
    ensures events[n].callback.resolution.Resolved?
    ensures Target(flow.paths, events[n].result.response)
            == Appended(SafeNext(events[i].start.next, flow.paths.defaultNext), events[n].callback.resolution.query)
    ensures events[n].result.after.user == Some(events[n].callback.resolution.user)
  {
    assert EventStep(flow, states[n], events[n], states[n + 1]);
  }

  /** How a callback ends is decided by the attempt it took and what the provider and the resolver answered. */
  lemma JudgeOf(flow: Flow, user: Option<User>, p: PendingLogin, req: CallbackRequest)
    ensures var v := Judge(flow, user, Ok(Some(p)), req);
            var seen := if v.Refusing? then v.seen else Some(v.ctx);
            && (seen.Some? ==> seen.value == Context(user, p.link) && (p.link ==> user.Some?) && p.provider == req.provider)
            && (v.SigningIn? ==> v.attempt == p && v.ctx == Context(user, p.link))
            && (v.Refusing? && v.back.Some? && v.back.value.link ==> p.link)
  {
  }

  /**
   The resolver is told `link` only with a user signed in, and only when a start on this
   session, itself made by a signed-in user, asked for it.
   */
  lemma LinkWasAskedFor(flow: Flow, events: seq<Event>, states: seq<Sess>, n: nat) returns (i: nat)
    requires History(flow, events, states) && n < |events| && events[n].CalledBack? && events[n].result.seen.Some?
    ensures i < n && events[i].Started? && DecideStart(flow, states[i].user, events[i].start).Began?
    ensures var p := DecideStart(flow, states[i].user, events[i].start).attempt;
            Pending(Ops(flow, events, states), i, n, p) && events[n].result.seen.value == Context(states[n].user, p.link)
    ensures events[n].result.seen.value.link ==>
              && states[n].user.Some? && states[i].user.Some?
              && (events[i].start.link == Some("1") || events[i].start.link == Some("true"))
  {
    HistoryIsExecution(flow, events, states);
    assert EventStep(flow, states[n], events[n], states[n + 1]);
    var ops := Ops(flow, events, states);
    assert ops[n] == OpOf(flow, states[n], events[n]);
    JudgeOf(flow, states[n].user, ops[n].got.value, events[n].callback);
    i := TakenWasRemembered(ops, PendingOf(states), n);
    assert ops[i] == OpOf(flow, states[i], events[i]);
  }

  // ---- staying on the site ----

  function ResponseOf(e: Event): Option<Response> {
    match e
    case Started(_, response) => Some(response)
    case CalledBack(_, result) => Some(result.response)
    case _ => None
  }

  ghost predicate StaysOnSite(flow: Flow, e: Event) {
    ResponseOf(e).Some? && !ResponseOf(e).value.ToProvider? ==> OnSite(Target(flow.paths, ResponseOf(e).value))
  }

  ghost predicate AimsOnSite(flow: Flow, e: Event) {
    ResponseOf(e).Some? && !ResponseOf(e).value.ToProvider? ==> OnSite(Aim(flow.paths, ResponseOf(e).value))
  }

  lemma StaysIffAims(flow: Flow, e: Event)
    ensures StaysOnSite(flow, e) <==> AimsOnSite(flow, e)
  {
    if ResponseOf(e).Some? && !ResponseOf(e).value.ToProvider? {
      TargetCarries(flow.paths, ResponseOf(e).value);
    }
  }

  /** A start that is refused goes back to the sign-in page or to a `next` that has been filtered. */
  lemma StartAim(flow: Flow, s: Sess, req: StartRequest, t: Sess, response: Response)
    requires StartStep(flow, s, req, t, response) && !response.ToProvider?
    ensures var aim := Aim(flow.paths, response);
            aim == flow.paths.signIn || aim == SafeNext(req.next, flow.paths.defaultNext)
  {
  }

  /** A callback goes back to the sign-in page or to the `next` of the attempt it took. */
  lemma CallbackAim(flow: Flow, s: Sess, req: CallbackRequest)
    ensures var aim, taken := Aim(flow.paths, DoCallback(flow, s, req).response), CallbackTake(s, req);
            aim == flow.paths.signIn || (taken.Ok? && taken.value.Some? && aim == taken.value.value.next)
    ensures CallbackTake(s, req).Ok? && CallbackTake(s, req).value.Some? ==> req.state.Some?
  {
  }

  lemma TakenNext(flow: Flow, events: seq<Event>, states: seq<Sess>, n: nat) returns (i: nat)
    requires History(flow, events, states) && n < |events| && events[n].CalledBack?
    requires CallbackTake(states[n], events[n].callback).Ok? && CallbackTake(states[n], events[n].callback).value.Some?
    ensures i < n && events[i].Started?
    ensures CallbackTake(states[n], events[n].callback).value.value.next
            == SafeNext(events[i].start.next, flow.paths.defaultNext)
  {
    HistoryIsExecution(flow, events, states);
    var ops := Ops(flow, events, states);
    assert ops[n] == OpOf(flow, states[n], events[n]);
    i := TakenWasRemembered(ops, PendingOf(states), n);
    assert ops[i] == OpOf(flow, states[i], events[i]);
  }

  /** With an on-site sign-in page and default, every redirect but the one to the provider is on-site, in every history. */
  lemma RedirectsStayOnSite(flow: Flow, events: seq<Event>, states: seq<Sess>, n: nat)
    requires OnSite(flow.paths.signIn) && OnSite(flow.paths.defaultNext)
    requires History(flow, events, states) && n < |events|
    ensures StaysOnSite(flow, events[n])
    ensures ResponseOf(events[n]).Some? && !ResponseOf(events[n]).value.ToProvider? ==>
              StaysHere(Target(flow.paths, ResponseOf(events[n]).value))
  {
    AimStaysOnSite(flow, events, states, n);
    StaysIffAims(flow, events[n]);
    if ResponseOf(events[n]).Some? && !ResponseOf(events[n]).value.ToProvider? {
      OnSiteStaysHere(Target(flow.paths, ResponseOf(events[n]).value));
    }
  }

  lemma AimStaysOnSite(flow: Flow, events: seq<Event>, states: seq<Sess>, n: nat)
    requires OnSite(flow.paths.signIn) && OnSite(flow.paths.defaultNext)
    requires History(flow, events, states) && n < |events|
    ensures AimsOnSite(flow, events[n])
  {
    assert EventStep(flow, states[n], events[n], states[n + 1]);
    match events[n]
    case Started(req, response) =>
      if !response.ToProvider? {
        StartAim(flow, states[n], req, states[n + 1], response);
      }
    case CalledBack(req, _) =>
      CallbackAim(flow, states[n], req);
      if CallbackTake(states[n], req).Ok? && CallbackTake(states[n], req).value.Some? {
        var i := TakenNext(flow, events, states, n);
      }
    case _ =>
  }

  /** A start that links without saying where to ends up at the default; one event before it a user signed in. */
  lemma DefaultIsReached(flow: Flow, provider: string, user: User) returns (events: seq<Event>, states: seq<Sess>)
    ensures History(flow, events, states) && |events| == 2
    ensures AimsOnSite(flow, events[1]) ==> OnSite(flow.paths.defaultNext)
  {
    var s0, s1 := Sess(None, None), Sess(None, Some(user));
    var req := StartRequest(provider, None, Some("1"), None, 0, 0, true, true);
    var decision := DecideStart(flow, s1.user, req);
    assert decision.Refused? && decision.back == Return(flow.paths.defaultNext, true);
    var response := SendBack(decision.refusal, Some(decision.back));
    events, states := [SetUser(0, s1.user), Started(req, response)], [s0, s1, s1];
    assert EventStep(flow, s0, events[0], s1) && EventStep(flow, s1, events[1], s1);
  }

  /** A callback without a state token ends up at the sign-in page. */
  lemma SignInIsReached(flow: Flow, provider: string) returns (events: seq<Event>, states: seq<Sess>)
    ensures History(flow, events, states) && |events| == 1
    ensures AimsOnSite(flow, events[0]) ==> OnSite(flow.paths.signIn)
  {
    var s := Sess(None, None);
    var req := CallbackRequest(provider, None, None, None, 0, true, true, false, Denied(FAILED), false);
    var result := DoCallback(flow, s, req);
    events, states := [CalledBack(req, result)], [s, s];
    assert EventStep(flow, s, events[0], s);
  }

  /** The two configured paths decide whether the flow can ever send a browser off the site. */
  lemma StaysOnSiteIff(flow: Flow)
    ensures (forall events, states, n: nat | History(flow, events, states) && n < |events| :: StaysOnSite(flow, events[n]))
            <==> OnSite(flow.paths.signIn) && OnSite(flow.paths.defaultNext)
  {
    if OnSite(flow.paths.signIn) && OnSite(flow.paths.defaultNext) {
      forall events, states, n: nat | History(flow, events, states) && n < |events|
        ensures StaysOnSite(flow, events[n])
      {
        RedirectsStayOnSite(flow, events, states, n);
      }
    } else {
      var events, states := DefaultIsReached(flow, "", "");
      var others, sessions := SignInIsReached(flow, "");
      StaysIffAims(flow, events[1]);
      StaysIffAims(flow, others[0]);
      assert !StaysOnSite(flow, events[1]) || !StaysOnSite(flow, others[0]);
    }
  }
}
