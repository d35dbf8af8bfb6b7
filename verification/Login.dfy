/**
 The starter template's login: the session store, the two login routes and the gate in front
 of every other route. A callback looks its session up, then exchanges its code over the
 network, then marks the session; other requests are served in between.
 */
module Login {
  import opened Cookies
  import opened Text
  import UrlEncoding

  datatype Session = Session(authenticated: bool, email: string)

  const NEW_SESSION := Session(false, "")

  const PUBLIC_PATHS: set<string> := {"/health", "/login", "/auth/callback"}

  // --- The server as a state machine ---

  /** A callback whose state was accepted, before and after its code was exchanged. */
  datatype Callback = Exchanging(id: string) | Exchanged(id: string, email: string)

  datatype Server = Server(configured: bool, sessions: map<string, Session>, callbacks: map<nat, Callback>)

  /** `cookie` is the request's session_id cookie. */
  datatype Event =
    | LoginStarts(id: string)
    | CallbackArrives(thread: nat, code: string, state: string, cookie: string)
    | ExchangeSucceeds(thread: nat, email: string)
    | ExchangeFails(thread: nat)
    | SessionMarked(thread: nat)
    | Request(path: string, cookie: string)

  /** What /auth/callback checks before it exchanges the code. */
  predicate IsAccepted(s: Server, code: string, state: string, cookie: string) {
    code != "" && state != "" && cookie != "" && state == cookie && cookie in s.sessions
  }

  /** The pre-routing handler lets the request through. */
  predicate Passes(s: Server, path: string, cookie: string) {
    || !s.configured || path in PUBLIC_PATHS
    || (cookie != "" && cookie in s.sessions && s.sessions[cookie].authenticated)
  }

  predicate Enabled(s: Server, e: Event) {
    match e
    case LoginStarts(id) => s.configured
    case CallbackArrives(thread, code, state, cookie) => s.configured && thread !in s.callbacks
    case ExchangeSucceeds(thread, email) => thread in s.callbacks && s.callbacks[thread].Exchanging?
    case ExchangeFails(thread) => thread in s.callbacks && s.callbacks[thread].Exchanging?
    case SessionMarked(thread) => thread in s.callbacks && s.callbacks[thread].Exchanged?
    case Request(path, cookie) => true
  }

  function Apply(s: Server, e: Event): Server
    requires Enabled(s, e)
  {
    match e
    case LoginStarts(id) => s.(sessions := s.sessions[id := NEW_SESSION])
    case CallbackArrives(thread, code, state, cookie) =>
      if IsAccepted(s, code, state, cookie) then
        s.(callbacks := s.callbacks[thread := Exchanging(cookie)])
      else s
    case ExchangeSucceeds(thread, email) =>
      s.(callbacks := s.callbacks[thread := Exchanged(s.callbacks[thread].id, email)])
    case ExchangeFails(thread) => s.(callbacks := s.callbacks - {thread})
    case SessionMarked(thread) =>
      s.(sessions := s.sessions[s.callbacks[thread].id := Session(true, s.callbacks[thread].email)],
         callbacks := s.callbacks - {thread})
    case Request(path, cookie) => s
  }

  ghost predicate IsRun(configured: bool, run: seq<Server>, events: seq<Event>) {
    && |run| == |events| + 1
    && run[0] == Server(configured, map[], map[])
    && forall i {:trigger events[i]} :: 0 <= i < |events| ==>
         Enabled(run[i], events[i]) && run[i + 1] == Apply(run[i], events[i])
  }

  // --- What must have happened, before the i-th event ---

  /** The positions of the events that lead to an authenticated session. */
  datatype Story = Story(login: nat, callback: nat, exchange: nat, mark: nat)

  predicate OfThread(e: Event, thread: nat) {
    (e.CallbackArrives? || e.ExchangeSucceeds? || e.ExchangeFails? || e.SessionMarked?) && e.thread == thread
  }

  /** The thread serves no other callback, nor ends the one it serves, from event a to before event b. */
  ghost predicate Undisturbed(events: seq<Event>, a: nat, b: nat, thread: nat) {
    forall k :: a <= k < b <= |events| ==> !OfThread(events[k], thread)
  }

  ghost predicate NotDrawnAgain(events: seq<Event>, a: nat, b: nat, id: string) {
    forall k :: a <= k < b <= |events| ==> events[k] != LoginStarts(id)
  }

  ghost predicate LoggedIn(events: seq<Event>, i: nat, id: string) {
    exists a: nat :: IsLogin(events, i, id, a)
  }

  ghost predicate IsLogin(events: seq<Event>, i: nat, id: string, a: nat) {
    a < i <= |events| && events[a] == LoginStarts(id)
  }

  ghost predicate IsCallbackFor(e: Event, id: string, thread: nat) {
    e.CallbackArrives? && e.thread == thread && e.code != "" && e.state == id && e.cookie == id
  }

  /** /login drew the id, later a callback brought it as its state and in its cookie, with a code, and
      its thread has served nothing else since. */
  ghost predicate TellsCallback(events: seq<Event>, i: nat, id: string, thread: nat, story: Story) {
    && id != "" && IsLogin(events, story.callback, id, story.login)
    && story.callback < i <= |events| && IsCallbackFor(events[story.callback], id, thread)
    && Undisturbed(events, story.callback + 1, i, thread)
  }

  /** ... and then the thread exchanged that callback's code successfully, and nothing else since. */
  ghost predicate TellsExchange(events: seq<Event>, i: nat, id: string, thread: nat, email: string, story: Story) {
    && TellsCallback(events, story.exchange, id, thread, story)
    && story.exchange < i <= |events| && events[story.exchange] == ExchangeSucceeds(thread, email)
    && Undisturbed(events, story.exchange + 1, i, thread)
  }

  /** ... and then it marked the session, and /login has not drawn the id again. */
  ghost predicate TellsMark(events: seq<Event>, i: nat, id: string, thread: nat, email: string, story: Story) {
    && TellsExchange(events, story.mark, id, thread, email, story)
    && story.mark < i <= |events| && events[story.mark] == SessionMarked(thread)
    && NotDrawnAgain(events, story.mark + 1, i, id)
  }

  ghost predicate CalledBack(events: seq<Event>, i: nat, id: string, thread: nat) {
    exists story :: TellsCallback(events, i, id, thread, story)
  }

  ghost predicate CodeExchanged(events: seq<Event>, i: nat, id: string, thread: nat, email: string) {
    exists story :: TellsExchange(events, i, id, thread, email, story)
  }

  ghost predicate Marked(events: seq<Event>, i: nat, id: string, email: string) {
    exists story, thread :: TellsMark(events, i, id, thread, email, story)
  }

  ghost predicate SessionEarned(events: seq<Event>, i: nat, id: string, session: Session) {
    LoggedIn(events, i, id) && (session.authenticated ==> Marked(events, i, id, session.email))
  }

  ghost predicate CallbackEarned(events: seq<Event>, i: nat, thread: nat, callback: Callback) {
    match callback
    case Exchanging(id) => CalledBack(events, i, id, thread)
    case Exchanged(id, email) => CodeExchanged(events, i, id, thread, email)
  }

  /** Every session and every callback got where it is the right way. */
  ghost predicate Earned(s: Server, events: seq<Event>, i: nat) {
    && (forall id :: id in s.sessions ==> SessionEarned(events, i, id, s.sessions[id]))
    && (forall t :: t in s.callbacks ==> s.callbacks[t].id in s.sessions)
    && (forall t :: t in s.callbacks ==> CallbackEarned(events, i, t, s.callbacks[t]))
  }

  lemma {:induction false} RunIsEarned(configured: bool, run: seq<Server>, events: seq<Event>, i: nat)
    requires IsRun(configured, run, events) && i < |run|
    ensures Earned(run[i], events, i) && run[i].configured == configured
  {
    if i == 0 {
    } else {
      RunIsEarned(configured, run, events, i - 1);
      EarnedStep(run[i - 1], events, i - 1);
    }
  }

  lemma EarnedStep(s: Server, events: seq<Event>, i: nat)
    requires i < |events| && Enabled(s, events[i]) && Earned(s, events, i)
    ensures Earned(Apply(s, events[i]), events, i + 1)
  {
    var t := Apply(s, events[i]);
    forall id | id in t.sessions ensures SessionEarned(events, i + 1, id, t.sessions[id]) {
      SessionStep(s, events, i, id);
    }
    forall thread | thread in t.callbacks
      ensures t.callbacks[thread].id in t.sessions && CallbackEarned(events, i + 1, thread, t.callbacks[thread])
    {
      CallbackStep(s, events, i, thread);
    }
  }

  lemma SessionStep(s: Server, events: seq<Event>, i: nat, id: string)
    requires i < |events| && Enabled(s, events[i]) && Earned(s, events, i)
    requires id in Apply(s, events[i]).sessions
    ensures SessionEarned(events, i + 1, id, Apply(s, events[i]).sessions[id])
  {
    var e := events[i];
    if e == LoginStarts(id) {
      assert IsLogin(events, i + 1, id, i);
    } else if e.SessionMarked? && s.callbacks[e.thread].id == id {
      assert CallbackEarned(events, i, e.thread, s.callbacks[e.thread]);
      MarkEarned(events, i, e.thread, id, s.callbacks[e.thread].email);
    } else {
      assert SessionEarned(events, i, id, s.sessions[id]);
      SessionEarnedLater(events, i, id, s.sessions[id]);
    }
  }

  lemma CallbackStep(s: Server, events: seq<Event>, i: nat, thread: nat)
    requires i < |events| && Enabled(s, events[i]) && Earned(s, events, i)
    requires thread in Apply(s, events[i]).callbacks
    ensures Apply(s, events[i]).callbacks[thread].id in Apply(s, events[i]).sessions
    ensures CallbackEarned(events, i + 1, thread, Apply(s, events[i]).callbacks[thread])
  {
    var e := events[i];
    if OfThread(e, thread) && e.CallbackArrives? {
      assert SessionEarned(events, i, e.cookie, s.sessions[e.cookie]);
      ArrivalEarned(s, events, i);
    } else if OfThread(e, thread) {
      assert CallbackEarned(events, i, thread, s.callbacks[thread]);
      ExchangeEarned(events, i, thread, e.email, s.callbacks[thread].id);
    } else {
      assert CallbackEarned(events, i, thread, s.callbacks[thread]);
      CallbackEarnedLater(events, i, thread, s.callbacks[thread]);
    }
  }

  lemma ArrivalEarned(s: Server, events: seq<Event>, i: nat)
    requires i < |events| && events[i].CallbackArrives? && IsAccepted(s, events[i].code, events[i].state, events[i].cookie)
    requires LoggedIn(events, i, events[i].cookie)
    ensures CallbackEarned(events, i + 1, events[i].thread, Exchanging(events[i].cookie))
  {
    var id := events[i].cookie;
    var a: nat :| IsLogin(events, i, id, a);
    assert TellsCallback(events, i + 1, id, events[i].thread, Story(a, i, 0, 0));
  }

  lemma ExchangeEarned(events: seq<Event>, i: nat, thread: nat, email: string, id: string)
    requires i < |events| && events[i] == ExchangeSucceeds(thread, email)
    requires CallbackEarned(events, i, thread, Exchanging(id))
    ensures CallbackEarned(events, i + 1, thread, Exchanged(id, email))
  {
    var story :| TellsCallback(events, i, id, thread, story);
    assert TellsExchange(events, i + 1, id, thread, email, story.(exchange := i));
  }

  lemma MarkEarned(events: seq<Event>, i: nat, thread: nat, id: string, email: string)
    requires i < |events| && events[i] == SessionMarked(thread)
    requires CallbackEarned(events, i, thread, Exchanged(id, email))
    ensures SessionEarned(events, i + 1, id, Session(true, email))
  {
    var story :| TellsExchange(events, i, id, thread, email, story);
    assert IsLogin(events, i + 1, id, story.login);
    assert TellsMark(events, i + 1, id, thread, email, story.(mark := i));
  }

  lemma SessionEarnedLater(events: seq<Event>, i: nat, id: string, session: Session)
    requires i < |events| && SessionEarned(events, i, id, session) && events[i] != LoginStarts(id)
    ensures SessionEarned(events, i + 1, id, session)
  {
    var a: nat :| IsLogin(events, i, id, a);
    assert IsLogin(events, i + 1, id, a);
    if session.authenticated {
      var story, thread :| TellsMark(events, i, id, thread, session.email, story);
      assert TellsMark(events, i + 1, id, thread, session.email, story);
    }
  }

  lemma CallbackEarnedLater(events: seq<Event>, i: nat, thread: nat, callback: Callback)
    requires i < |events| && CallbackEarned(events, i, thread, callback) && !OfThread(events[i], thread)
    ensures CallbackEarned(events, i + 1, thread, callback)
  {
    match callback
    case Exchanging(id) =>
      var story :| TellsCallback(events, i, id, thread, story);
      assert TellsCallback(events, i + 1, id, thread, story);
    case Exchanged(id, email) =>
      var story :| TellsExchange(events, i, id, thread, email, story);
      assert TellsExchange(events, i + 1, id, thread, email, story);
  }

  // --- And what follows once it has ---

  lemma {:induction false} SessionStays(configured: bool, run: seq<Server>, events: seq<Event>, i: nat, j: nat, id: string)
    requires IsRun(configured, run, events) && i <= j < |run| && id in run[i].sessions
    ensures id in run[j].sessions
  {
    if i == j {
    } else {
      SessionStays(configured, run, events, i, j - 1, id);
      assert Enabled(run[j - 1], events[j - 1]);
    }
  }

  /** A callback waits unchanged while its thread is undisturbed. */
  lemma {:induction false} CallbackStays(configured: bool, run: seq<Server>, events: seq<Event>, i: nat, j: nat, thread: nat)
    requires IsRun(configured, run, events) && i <= j < |run| && thread in run[i].callbacks
    requires Undisturbed(events, i, j, thread)
    ensures thread in run[j].callbacks && run[j].callbacks[thread] == run[i].callbacks[thread]
  {
    if i == j {
    } else {
      CallbackStays(configured, run, events, i, j - 1, thread);
      assert Enabled(run[j - 1], events[j - 1]) && !OfThread(events[j - 1], thread);
    }
  }

  lemma CallbackIsPending(configured: bool, run: seq<Server>, events: seq<Event>, i: nat, id: string, thread: nat, story: Story)
    requires IsRun(configured, run, events) && TellsCallback(events, i, id, thread, story)
    ensures thread in run[i].callbacks && run[i].callbacks[thread] == Exchanging(id)
  {
    var a, c := story.login, story.callback;
    assert Enabled(run[a], events[a]) && run[a + 1] == Apply(run[a], events[a]);
    SessionStays(configured, run, events, a + 1, c, id);
    assert Enabled(run[c], events[c]) && run[c + 1] == Apply(run[c], events[c]);
    CallbackStays(configured, run, events, c + 1, i, thread);
  }

  lemma ExchangeIsPending(configured: bool, run: seq<Server>, events: seq<Event>, i: nat, id: string, thread: nat, email: string,
                          story: Story)
    requires IsRun(configured, run, events) && TellsExchange(events, i, id, thread, email, story)
    ensures thread in run[i].callbacks && run[i].callbacks[thread] == Exchanged(id, email)
  {
    var x := story.exchange;
    CallbackIsPending(configured, run, events, x, id, thread, story);
    assert Enabled(run[x], events[x]) && run[x + 1] == Apply(run[x], events[x]);
    CallbackStays(configured, run, events, x + 1, i, thread);
  }

  lemma MarkAuthenticates(configured: bool, run: seq<Server>, events: seq<Event>, i: nat, id: string, thread: nat, email: string,
                          story: Story)
    requires IsRun(configured, run, events) && TellsMark(events, i, id, thread, email, story)
    ensures id in run[i].sessions && run[i].sessions[id].authenticated
  {
    var m := story.mark;
    ExchangeIsPending(configured, run, events, m, id, thread, email, story);
    assert Enabled(run[m], events[m]) && run[m + 1] == Apply(run[m], events[m]);
    StaysAuthenticated(configured, run, events, m + 1, i, id);
  }

  /** With authentication configured, a request for a route that isn't public gets through exactly if it
      brings the id of a session for which all this happened: /login drew the id, a callback brought it
      back as state and cookie, the thread that served this callback exchanged its code successfully and
      marked the session, serving nothing else meanwhile, and /login has not drawn the id again. In
      every run, however requests interleave. */
  lemma GateIsExact(run: seq<Server>, events: seq<Event>, i: nat)
    requires IsRun(true, run, events) && i < |events| && events[i].Request? && events[i].path !in PUBLIC_PATHS
    ensures var cookie := events[i].cookie;
            Passes(run[i], events[i].path, cookie) <==> cookie != "" && exists email :: Marked(events, i, cookie, email)
  {
    RunIsEarned(true, run, events, i);
    var id := events[i].cookie;
    if Passes(run[i], events[i].path, id) {
      assert SessionEarned(events, i, id, run[i].sessions[id]);
      assert Marked(events, i, id, run[i].sessions[id].email);
    }
    forall email | Marked(events, i, id, email) ensures Passes(run[i], events[i].path, id) {
      var story, thread :| TellsMark(events, i, id, thread, email, story);
      MarkAuthenticates(true, run, events, i, id, thread, email, story);
    }
  }

  /** The way in exists: who logs in, comes back with a code and has it exchanged gets through to any route. */
  lemma LoginLetsIn(id: string, code: string, email: string, path: string)
    requires id != "" && code != ""
    ensures exists run ::
              IsRun(true, run, [LoginStarts(id), CallbackArrives(0, code, id, id), ExchangeSucceeds(0, email), SessionMarked(0)])
              && Passes(run[4], path, id)
  {
    var s0 := Server(true, map[], map[]);
    var e1, e2, e3, e4 := LoginStarts(id), CallbackArrives(0, code, id, id), ExchangeSucceeds(0, email), SessionMarked(0);
    var s1 := Apply(s0, e1);
    var s2 := Apply(s1, e2);
    var s3 := Apply(s2, e3);
    var s4 := Apply(s3, e4);
    var run, events := [s0, s1, s2, s3, s4], [e1, e2, e3, e4];
    assert IsRun(true, run, events) && Passes(run[4], path, id);
  }

  /** A thread that fails one callback and then succeeds with another says nothing about the first. */
  lemma FailedExchangeTellsNothing(a: string, b: string, code: string, email: string)
    requires a != b
    ensures var events := [LoginStarts(a), CallbackArrives(0, code, a, a), ExchangeFails(0), LoginStarts(b),
                           CallbackArrives(0, code, b, b), ExchangeSucceeds(0, email), SessionMarked(0)];
            !Marked(events, 7, a, email)
  {
    var events := [LoginStarts(a), CallbackArrives(0, code, a, a), ExchangeFails(0), LoginStarts(b),
                   CallbackArrives(0, code, b, b), ExchangeSucceeds(0, email), SessionMarked(0)];
    forall story, thread ensures !TellsMark(events, 7, a, thread, email, story) {
      if story.callback == 1 {
        assert OfThread(events[2], 0);
      }
    }
  }

  /** Only /login adds a session: marking one, long after it was looked up, never creates it. */
  lemma OnlyLoginCreatesSessions(configured: bool, run: seq<Server>, events: seq<Event>, i: nat)
    requires IsRun(configured, run, events) && i < |events|
    ensures run[i + 1].sessions.Keys == run[i].sessions.Keys + if events[i].LoginStarts? then {events[i].id} else {}
  {
    RunIsEarned(configured, run, events, i);
    assert Enabled(run[i], events[i]);
  }

  /** A session once authenticated lets its bearer through until /login draws the same id again. */
  lemma {:induction false} StaysAuthenticated(configured: bool, run: seq<Server>, events: seq<Event>, i: nat, j: nat, id: string)
    requires IsRun(configured, run, events) && i <= j < |run|
    requires id in run[i].sessions && run[i].sessions[id].authenticated
    requires forall k :: i <= k < j ==> events[k] != LoginStarts(id)
    ensures id in run[j].sessions && run[j].sessions[id].authenticated
  {
    if i == j {
    } else {
      StaysAuthenticated(configured, run, events, i, j - 1, id);
      assert Enabled(run[j - 1], events[j - 1]);
    }
  }

  // --- The program ---

  class SessionStore {
    var sessions: map<string, Session>

    constructor ()
      ensures sessions == map[]
    {
      sessions := map[];
    }

    /** The id is drawn at random. */
    method Create(id: string)
      modifies this
      ensures sessions == old(sessions)[id := NEW_SESSION]
    {
      sessions := sessions[id := NEW_SESSION];
    }

    /** sessions_[id] makes a session if there is none. */
    method SetAuthenticated(id: string, email: string)
      modifies this
      ensures sessions == old(sessions)[id := Session(true, email)]
    {
      var session := if id in sessions then sessions[id] else NEW_SESSION;
      session := session.(authenticated := true);
      session := session.(email := email);
      sessions := sessions[id := session];
    }

    method Lookup(id: string) returns (session: Option<Session>)
      ensures session == if id in sessions then Some(sessions[id]) else None
    {
      session := if id in sessions then Some(sessions[id]) else None;
    }
  }

  datatype Reply = Status(code: int) | Redirect(to: string, cookie: string) | Proceed

  /** redirect_uri_for */
  function RedirectUri(appName: UrlEncoding.ByteString): UrlEncoding.ByteString {
    "https://" + appName + ".billandjessie.com/auth/callback"
  }

  class HttpServer {
    const configured: bool
    const clientId: UrlEncoding.ByteString
    const appName: UrlEncoding.ByteString
    const store: SessionStore
    var callbacks: map<nat, Callback>

    ghost function State(): Server
      reads this, store
    {
      Server(configured, store.sessions, callbacks)
    }

    constructor (configured: bool, clientId: UrlEncoding.ByteString, appName: UrlEncoding.ByteString)
      ensures State() == Server(configured, map[], map[]) && fresh(store)
      ensures this.clientId == clientId && this.appName == appName
    {
      this.configured := configured;
      this.clientId, this.appName := clientId, appName;
      callbacks := map[];
      store := new SessionStore();
    }

    /** GET /login, given the authorization endpoint if discovery found it, and the tokens drawn. */
    method HandleLogin(endpoint: Option<string>, id: string, nonce: string) returns (reply: Reply, ghost query: string)
      modifies store
      ensures reply.Redirect? <==> configured && endpoint.Some?
      ensures reply.Redirect? ==> State() == Apply(old(State()), LoginStarts(id))
      ensures reply.Redirect? ==> store.sessions == old(store.sessions)[id := Session(false, "")]
      ensures !reply.Redirect? ==> State() == old(State())
      ensures reply.Redirect? ==> reply.to == endpoint.value + "?" + query
      ensures reply.Redirect? && UrlEncoding.IsHexToken(id) && UrlEncoding.IsHexToken(nonce) ==>
        UrlEncoding.ParseQuery(query) == [
          (Some("response_type"), Some("code")), (Some("client_id"), Some(clientId)),
          (Some("redirect_uri"), Some("https://" + appName + ".billandjessie.com/auth/callback")),
          (Some("scope"), Some("openid profile email")), (Some("state"), Some(id)), (Some("nonce"), Some(nonce))]
      ensures reply.Redirect? ==> reply.cookie == "session_id=" + id + "; HttpOnly; Secure; Path=/; SameSite=Lax"
      ensures !reply.Redirect? ==> reply == Status(if configured then 502 else 501)
    {
      query := "";
      if !configured {
        return Status(501), query;
      }
      if endpoint.None? {
        return Status(502), query;
      }
      store.Create(id);
      var parameters := UrlEncoding.LoginQuery(clientId, RedirectUri(appName), id, nonce);
      if UrlEncoding.IsHexToken(id) && UrlEncoding.IsHexToken(nonce) {
        UrlEncoding.QuerySays(parameters);
      }
      query := UrlEncoding.BuildQuery(parameters);
      reply := Redirect(endpoint.value + "?" + UrlEncoding.BuildQuery(parameters),
                        "session_id=" + id + "; HttpOnly; Secure; Path=/; SameSite=Lax");
    }

    /** GET /auth/callback, up to the exchange of the code. */
    method HandleCallback(thread: nat, code: string, state: string, cookies: Option<string>) returns (reply: Reply)
      requires thread !in callbacks
      modifies this
      ensures configured ==>
        State() == Apply(old(State()), CallbackArrives(thread, code, state, GetCookie(cookies, "session_id")))
      ensures !configured ==> State() == old(State()) && reply == Status(501)
      ensures configured ==>
        reply == if IsAccepted(old(State()), code, state, GetCookie(cookies, "session_id")) then Proceed else Status(400)
      ensures reply == Proceed <==>
        configured && code != "" && state != "" && state == GetCookie(cookies, "session_id") && state in store.sessions
      ensures callbacks == if reply == Proceed then old(callbacks)[thread := Exchanging(state)] else old(callbacks)
    {
      if !configured {
        return Status(501);
      }
      var cookie := GetCookie(cookies, "session_id");
      if code == "" || state == "" || cookie == "" || state != cookie {
        return Status(400);
      }
      var session := store.Lookup(cookie);
      if session.None? {
        return Status(400);
      }
      callbacks := callbacks[thread := Exchanging(cookie)];
      reply := Proceed;
    }

    /** The rest of GET /auth/callback, once the exchange is over. */
    method FinishCallback(thread: nat, email: Option<string>) returns (reply: Reply)
      requires thread in callbacks && callbacks[thread].Exchanging?
      modifies this, store
      ensures email.None? ==> State() == Apply(old(State()), ExchangeFails(thread)) && reply == Status(502)
      ensures email.Some? ==> reply == Redirect("/", "")
      ensures callbacks == old(callbacks) - {thread}
      ensures store.sessions ==
        if email.None? then old(store.sessions) else old(store.sessions)[old(callbacks)[thread].id := Session(true, email.value)]
      ensures email.Some? ==>
        State() == Apply(Apply(old(State()), ExchangeSucceeds(thread, email.value)), SessionMarked(thread))
    {
      if email.None? {
        callbacks := callbacks - {thread};
        return Status(502);
      }
      store.SetAuthenticated(callbacks[thread].id, email.value);
      callbacks := callbacks - {thread};
      reply := Redirect("/", "");
    }

    /** The pre-routing handler. */
    method PreRoute(path: string, cookies: Option<string>) returns (reply: Reply)
      ensures reply == Proceed <==> Passes(State(), path, GetCookie(cookies, "session_id"))
      ensures !configured || path == "/health" || path == "/login" || path == "/auth/callback" ==> reply == Proceed
      ensures (configured && path !in {"/health", "/login", "/auth/callback"}
               && GetCookie(cookies, "session_id") !in store.sessions) ==> reply != Proceed
      ensures reply != Proceed ==> reply == if "/api/" <= path then Status(401) else Redirect("/login", "")
    {
      if !configured || path in PUBLIC_PATHS {
        return Proceed;
      }
      var cookie := GetCookie(cookies, "session_id");
      var session := None;
      if cookie != "" {
        session := store.Lookup(cookie);
      }
      if session.Some? && session.value.authenticated {
        return Proceed;
      }
      if "/api/" <= path {
        return Status(401);
      }
      reply := Redirect("/login", "");
    }
  }
}
