/** Any number of clients against one tracker: whom a session stands for, on either side. */
module TwoParty {
  import opened Bytes
  import opened Messages
  import opened Sp2pProtocol
  import opened Protocol
  import opened Sessions
  import opened ClientTypes
  import T = Tracker
  import N = Nodes
  import E = EndToEnd
  import S = Statements

  /** A client runs one operation at a time: its request is on the way, or its reply is. */
  datatype Phase = Idle | Sent(op: N.Operation, req: Request) | Answered(op: N.Operation, req: Request, m: Message)

  datatype Client = Client(s: N.Session, phase: Phase)

  /** `issued` is history only: for whom each cookie was drawn. */
  datatype Joint = Joint(tracker: T.State, clients: map<nat, Client>, issued: map<bytes, bytes>)

  datatype Event =
    | Call(i: nat, op: N.Operation, connects: bool)
    | Handling(i: nat, env: T.Env)
    | Arrival(i: nat, decodes: bool)
    | Lost(i: nat)
    | Closed(i: nat)
    | UserSet(i: nat, user: MyUser)
    | Foreign(req: Request, env: T.Env)
    | SessionsCleaned(cutoff: int)
    | ServersCleaned(now: int, ttl: int, fault: bool)

  /** The tracker handles a request, from one of the clients or from anybody. */
  ghost function Handled(j: Joint, req: Request, env: T.Env): Joint {
    var (st, reply) := T.Handle(j.tracker, req, env);
    j.(tracker := st, issued := if reply.LoggedIn? then j.issued[reply.cookie := req.username] else j.issued)
  }

  ghost function ClientStep(j: Joint, e: Event): Client
    requires !e.Foreign? && !e.SessionsCleaned? && !e.ServersCleaned? && e.i in j.clients
  {
    var c := j.clients[e.i];
    match e
    case Call(_, op, connects) =>
      if !c.phase.Idle? || !(c.s.active || connects) then c
      else if N.Ask(c.s, op).Some? then Client(c.s.(active := true), Sent(op, N.Ask(c.s, op).value))
      else if N.KeyMissing(c.s, op) then c.(s := c.s.(active := true))
      else c
    case Handling(_, env) =>
      if c.phase.Sent? then c.(phase := Answered(c.phase.op, c.phase.req, E.ReplyTo(j.tracker, c.phase.req, env))) else c
    case Arrival(_, decodes) =>
      if c.phase.Answered? then Client(N.Answer(c.s, c.phase.op, c.phase.m, decodes).0, Idle) else c
    case Lost(_) => Client(c.s.(active := false), Idle)
    case Closed(_) => if c.phase.Idle? then c.(s := c.s.(active := false)) else c
    case UserSet(_, user) => if c.phase.Idle? && !c.s.active then c.(s := N.Session(user, false, [], false)) else c
  }

  ghost function Step(j: Joint, e: Event): Joint {
    if e.Foreign? then Handled(j, e.req, e.env)
    else if e.SessionsCleaned? then j.(tracker := j.tracker.(sessions := NotAfter(j.tracker.sessions, e.cutoff)))
    else if e.ServersCleaned? then j.(tracker := j.tracker.(db := S.CleanServers(j.tracker.db, e.now, e.ttl, e.fault)))
    else if e.i !in j.clients then j
    else
      var j' := if e.Handling? && j.clients[e.i].phase.Sent? then Handled(j, j.clients[e.i].phase.req, e.env) else j;
      j'.(clients := j.clients[e.i := ClientStep(j, e)])
  }

  ghost function Run(j: Joint, es: seq<Event>): Joint {
    if es == [] then j else Step(Run(j, es[..|es| - 1]), es[|es| - 1])
  }

  /** The request the tracker handles in a step, if it handles one. */
  ghost function RequestOf(j: Joint, e: Event): Option<Request> {
    if e.Foreign? then Some(e.req)
    else if e.Handling? && e.i in j.clients && j.clients[e.i].phase.Sent? then Some(j.clients[e.i].phase.req)
    else None
  }

  /** The random string drawn for a new session was not a cookie of anybody else before. */
  ghost predicate Fresh(j: Joint, e: Event) {
    RequestOf(j, e).Some? ==>
      var reply := T.Handle(j.tracker, RequestOf(j, e).value, e.env).1;
      reply.LoggedIn? && reply.cookie in j.issued ==> j.issued[reply.cookie] == RequestOf(j, e).value.username
  }

  ghost predicate FreshRun(j: Joint, es: seq<Event>) {
    forall k :: 0 <= k < |es| ==> Fresh(Run(j, es[..k]), es[k])
  }

  // ---- Identity ----------------------------------------------------------------------------

  /** A session that both sides hold stands for the same user on both. */
  ghost predicate Identity(j: Joint) {
    forall i :: i in j.clients && j.clients[i].s.logged && j.clients[i].s.cookie in j.tracker.sessions ==>
      j.tracker.sessions[j.clients[i].s.cookie].login == j.clients[i].s.user.username
  }

  ghost predicate Belongs(cookie: bytes, user: bytes, issued: map<bytes, bytes>) {
    cookie in issued && issued[cookie] == user
  }

  ghost predicate Sound(c: Client, issued: map<bytes, bytes>) {
    && (c.s.logged ==> Belongs(c.s.cookie, c.s.user.username, issued))
    && (!c.phase.Idle? ==> N.Ask(c.s, c.phase.op) == Some(c.phase.req))
    && (c.phase.Answered? && c.phase.op.LogIn? && N.ResponseType(c.phase.m) == OK ==>
          && N.CookieIn(c.phase.m).Some?
          && Belongs(N.CookieIn(c.phase.m).value, c.s.user.username, issued))
  }

  ghost predicate Consistent(j: Joint) {
    && (forall c :: c in j.tracker.sessions ==> Belongs(c, j.tracker.sessions[c].login, j.issued))
    && (forall i :: i in j.clients ==> Sound(j.clients[i], j.issued))
  }

  lemma ConsistentIdentity(j: Joint)
    requires Consistent(j)
    ensures Identity(j)
  {
    hide N.Ask;
    forall i | i in j.clients && j.clients[i].s.logged && j.clients[i].s.cookie in j.tracker.sessions
      ensures j.tracker.sessions[j.clients[i].s.cookie].login == j.clients[i].s.user.username
    {
      assert Sound(j.clients[i], j.issued);
    }
  }

  /** What handling a request does to the sessions. */
  lemma SessionsAfter(st: T.State, req: Request, env: T.Env)
    ensures var (st', reply) := T.Handle(st, req, env);
      && (reply.LoggedIn? ==>
            && req.Login? && reply.cookie == env.cookie
            && st'.sessions == st.sessions[reply.cookie := Session(req.username, env.now)])
      && (!reply.LoggedIn? ==> forall c :: c in st'.sessions ==> c in st.sessions && st'.sessions[c] == st.sessions[c])
  {
  }

  lemma ReplyRead(st: T.State, req: Request, env: T.Env)
    ensures var (m, reply) := (E.ReplyTo(st, req, env), T.Handle(st, req, env).1);
      && N.ResponseType(m) == Code(reply)
      && (req.Login? && Code(reply) == OK ==> reply.LoggedIn? && N.CookieIn(m) == Some(reply.cookie))
  {
    T.RepliesAreWellTyped(st, req, env);
    var reply := T.Handle(st, req, env).1;
    assert req.Login? && Code(reply) == OK ==> reply.LoggedIn?;
    hide T.Handle;
    var m := ReplyMessage(reply);
    assert m == E.ReplyTo(st, req, env);
    if reply.LoggedIn? {
      var part := Texts(NODE_LOGIN, [reply.cookie, reply.certificate]);
      assert m.slots[2] == [Sub(part)];
      assert part.slots[0] == [Str(reply.cookie)];
    }
    hide ReplyMessage, E.ReplyTo;
  }

  lemma HandledConsistent(j: Joint, req: Request, env: T.Env)
    requires Consistent(j)
    requires var reply := T.Handle(j.tracker, req, env).1;
      reply.LoggedIn? && reply.cookie in j.issued ==> j.issued[reply.cookie] == req.username
    ensures Consistent(Handled(j, req, env))
  {
    SessionsAfter(j.tracker, req, env);
    hide T.Handle, N.Ask, N.ResponseType, N.CookieIn;
    var h := Handled(j, req, env);
    forall i | i in h.clients ensures Sound(h.clients[i], h.issued) {
      assert Sound(j.clients[i], j.issued);
    }
  }

  /** `Sound` after a step of the client itself. */
  lemma ClientSound(j: Joint, e: Event)
    requires Consistent(j) && RequestOf(j, e).None?
    requires !e.Foreign? && !e.SessionsCleaned? && !e.ServersCleaned? && e.i in j.clients
    ensures Sound(ClientStep(j, e), j.issued)
  {
    var c := j.clients[e.i];
    assert Sound(c, j.issued);
    hide N.ResponseType, N.CookieIn, N.Cookied, E.ReplyTo, N.DefaultError;
    match e
    case Call(_, op, _) => assert N.Ask(c.s, op) == N.Ask(c.s.(active := true), op) by { AskIgnoresActive(c.s, op); }
    case Arrival(_, decodes) =>
    case Lost(_) =>
    case Closed(_) =>
    case UserSet(_, _) =>
    case Handling(_, _) =>
  }

  lemma AskIgnoresActive(s: N.Session, op: N.Operation)
    ensures N.Ask(s, op) == N.Ask(s.(active := true), op)
  {
  }

  lemma AnsweredSound(j: Joint, i: nat, env: T.Env)
    requires Consistent(j) && i in j.clients && j.clients[i].phase.Sent? && Fresh(j, Handling(i, env))
    ensures Sound(ClientStep(j, Handling(i, env)), Handled(j, j.clients[i].phase.req, env).issued)
  {
    var c := j.clients[i];
    assert Sound(c, j.issued);
    ReplyRead(j.tracker, c.phase.req, env);
    hide T.Handle, N.ResponseType, N.CookieIn, E.ReplyTo, N.Cookied;
  }

  lemma StepConsistent(j: Joint, e: Event)
    requires Consistent(j) && Fresh(j, e)
    ensures Consistent(Step(j, e))
  {
    hide T.Handle, Sound, ClientStep, S.CleanServers, E.ReplyTo;
    if e.Foreign? {
      HandledConsistent(j, e.req, e.env);
    } else if e.SessionsCleaned? || e.ServersCleaned? {
    } else if e.i in j.clients {
      if e.Handling? && j.clients[e.i].phase.Sent? {
        HandledConsistent(j, j.clients[e.i].phase.req, e.env);
        AnsweredSound(j, e.i, e.env);
      } else {
        ClientSound(j, e);
      }
    }
  }

  lemma {:induction false} RunConsistent(j: Joint, es: seq<Event>)
    requires Consistent(j) && FreshRun(j, es)
    ensures Consistent(Run(j, es))
  {
    hide Step, Consistent, Fresh;
    if es != [] {
      var k := |es| - 1;
      FreshPrefix(j, es, k);
      RunConsistent(j, es[..k]);
      StepConsistent(Run(j, es[..k]), es[k]);
    }
  }

  /** The start: no sessions, and no client logged or waiting. */
  ghost predicate Initial(j: Joint) {
    j.tracker.sessions == map[] && forall i :: i in j.clients ==> j.clients[i].phase.Idle? && !j.clients[i].s.logged
  }

  /** In every reachable state, whatever order calls, replies, losses, timeouts and cleanings
      come in and whatever strangers send: if a client is logged with a cookie for which the
      tracker holds a session, the session's login is that client's username. */
  lemma RunIdentity(j: Joint, es: seq<Event>)
    requires Initial(j) && FreshRun(j, es)
    ensures Identity(Run(j, es))
  {
    RunConsistent(j, es);
    ConsistentIdentity(Run(j, es));
  }

  /** Everybody logged with this cookie is this user. */
  ghost predicate HoldersAre(j: Joint, cookie: bytes, user: bytes) {
    forall i :: i in j.clients && j.clients[i].s.logged && j.clients[i].s.cookie == cookie ==>
      j.clients[i].s.user.username == user
  }

  /** Without fresh cookies it fails, and exactly then: an accepted login, of a client or of
      anybody, keeps identity if and only if every client that is already logged with the cookie
      it draws is the user who logs in. */
  lemma RepeatedCookie(j: Joint, e: Event)
    requires Identity(j) && RequestOf(j, e).Some?
    requires T.Handle(j.tracker, RequestOf(j, e).value, e.env).1.LoggedIn?
    ensures Identity(Step(j, e)) <==> HoldersAre(j, e.env.cookie, RequestOf(j, e).value.username)
  {
    hide T.Handle, E.ReplyTo;
    var req, j' := RequestOf(j, e).value, Step(j, e);
    SessionsAfter(j.tracker, req, e.env);
    assert j'.tracker.sessions == j.tracker.sessions[e.env.cookie := Session(req.username, e.env.now)];
    assert j'.clients.Keys == j.clients.Keys && forall i :: i in j.clients ==> j'.clients[i].s == j.clients[i].s;
    if Identity(j') {
      forall i | i in j.clients && j.clients[i].s.logged && j.clients[i].s.cookie == e.env.cookie
        ensures j.clients[i].s.user.username == req.username
      {
        assert j'.clients[i].s == j.clients[i].s;
      }
    }
  }

  /** A client of user "a" is logged; a stranger logs in as "b", and the same cookie is drawn. */
  lemma RepeatedCookieBreaks(cookie: bytes, env: T.Env)
    requires env.cookie == cookie && env.check([], [])
    ensures var s := N.Session(MyUser([97], [], [], true), true, cookie, true);
      var j := Joint(T.State(S.EMPTY, map[cookie := Session([97], 0)]), map[0 := Client(s, Idle)], map[cookie := [97]]);
      Consistent(j) && Identity(j) && !Identity(Step(j, Foreign(Request.Login([98], []), env)))
  {
    var s := N.Session(MyUser([97], [], [], true), true, cookie, true);
    var j := Joint(T.State(S.EMPTY, map[cookie := Session([97], 0)]), map[0 := Client(s, Idle)], map[cookie := [97]]);
    var j' := Step(j, Foreign(Request.Login([98], []), env));
    assert j'.clients[0].s == s && j'.tracker.sessions[cookie].login == [98];
  }

  // ---- Completed exchanges -----------------------------------------------------------------

  /** Event `k` is where the tracker handled the request of client `i` and answered `m`, the
      reply that has been on its way to the client since. */
  ghost predicate HandledAt(j: Joint, es: seq<Event>, k: nat, i: nat, op: N.Operation, req: Request, m: Message) {
    && k < |es| && es[k].Handling? && es[k].i == i
    && i in Run(j, es[..k]).clients && Run(j, es[..k]).clients[i].phase == Sent(op, req)
    && m == E.ReplyTo(Run(j, es[..k]).tracker, req, es[k].env)
    && forall n :: k < n <= |es| ==> StillAnswered(j, es, n, i, op, req, m)
  }

  ghost predicate StillAnswered(j: Joint, es: seq<Event>, n: nat, i: nat, op: N.Operation, req: Request, m: Message)
    requires n <= |es|
  {
    var d := Run(j, es[..n]);
    i in d.clients && d.clients[i].phase == Answered(op, req, m)
  }

  lemma StepAnswered(j: Joint, e: Event, i: nat)
    requires i in Step(j, e).clients && Step(j, e).clients[i].phase.Answered?
    ensures i in j.clients
    ensures var (c, p) := (j.clients[i], Step(j, e).clients[i].phase);
      || c.phase == p
      || (e.Handling? && e.i == i && c.phase == Sent(p.op, p.req) && p.m == E.ReplyTo(j.tracker, p.req, e.env))
  {
    hide T.Handle, E.ReplyTo, N.Ask, N.Answer;
  }

  lemma {:induction false} AnsweredWasHandled(j: Joint, es: seq<Event>, i: nat)
    requires forall n :: n in j.clients ==> !j.clients[n].phase.Answered?
    requires i in Run(j, es).clients && Run(j, es).clients[i].phase.Answered?
    ensures var p := Run(j, es).clients[i].phase; exists k: nat :: HandledAt(j, es, k, i, p.op, p.req, p.m)
  {
    hide Step, E.ReplyTo;
    if es != [] {
      var n := |es| - 1;
      var front := es[..n];
      StepAnswered(Run(j, front), es[n], i);
      var p := Run(j, es).clients[i].phase;
      assert es[..n + 1] == es;
      assert StillAnswered(j, es, n + 1, i, p.op, p.req, p.m);
      if Run(j, front).clients[i].phase == p {
        AnsweredWasHandled(j, front, i);
        var k: nat :| HandledAt(j, front, k, i, p.op, p.req, p.m);
        assert front[..k] == es[..k];
        forall m | k < m <= |es| ensures StillAnswered(j, es, m, i, p.op, p.req, p.m) {
          if m <= n {
            assert front[..m] == es[..m];
            assert StillAnswered(j, front, m, i, p.op, p.req, p.m);
          }
        }
        assert HandledAt(j, es, k, i, p.op, p.req, p.m);
      } else {
        assert HandledAt(j, es, n, i, p.op, p.req, p.m);
      }
    }
  }

  /** NOT_LOGGED is the answer exactly to a cookie without a session, or with one for the user
      of the empty name. LOGOUT looks only for the session. */
  lemma NotLoggedExactly(st: T.State, req: Request, env: T.Env)
    requires T.CookieOf(req).Some?
    ensures Code(T.Handle(st, req, env).1) == NOT_LOGGED <==>
      if req.Logout? then req.cookie !in st.sessions else LoginOf(st.sessions, req.cookie) == []
  {
    hide S.UserId, S.NetworkId, S.LinkId, S.References, S.AllNetworks, S.UserNetworks, S.ServersOf;
  }

  /** A cookie never changes hands. */
  lemma {:induction false} CookiesKeepOwners(j: Joint, es: seq<Event>, k: nat)
    requires FreshRun(j, es) && k <= |es|
    ensures forall c :: c in Run(j, es[..k]).issued ==> Belongs(c, Run(j, es[..k]).issued[c], Run(j, es).issued)
  {
    hide Step, Fresh;
    if k == |es| {
      assert es[..k] == es;
    } else {
      var n := |es| - 1;
      FreshPrefix(j, es, n);
      CookiesKeepOwners(j, es[..n], k);
      assert es[..n][..k] == es[..k];
      StepKeepsOwners(Run(j, es[..n]), es[n]);
    }
  }

  lemma FreshPrefix(j: Joint, es: seq<Event>, k: nat)
    requires FreshRun(j, es) && k <= |es|
    ensures FreshRun(j, es[..k])
  {
    hide Run, Fresh;
    forall n | 0 <= n < k ensures Fresh(Run(j, es[..k][..n]), es[..k][n]) {
      assert es[..k][..n] == es[..n];
    }
  }

  lemma StepKeepsOwners(j: Joint, e: Event)
    requires Fresh(j, e)
    ensures forall c :: c in j.issued ==> Belongs(c, j.issued[c], Step(j, e).issued)
  {
    hide ClientStep;
    if RequestOf(j, e).Some? { SessionsAfter(j.tracker, RequestOf(j, e).value, e.env); }
    hide T.Handle;
  }

  lemma AskedWithCookie(s: N.Session, op: N.Operation, req: Request)
    requires N.Ask(s, op) == Some(req) && T.CookieOf(req).Some?
    ensures s.logged && req.cookie == s.cookie && !op.LogIn? && !op.RegisterUser? && (op.LogOut? <==> req.Logout?)
  {
  }

  /** Of the replies to such a request only NOT_LOGGED ends the client's session, LOGOUT apart. */
  lemma AnswerLogged(j: Joint, i: nat, decodes: bool)
    requires i in j.clients && j.clients[i].phase.Answered? && j.clients[i].s.logged
    requires var op := j.clients[i].phase.op; !op.LogIn? && !op.RegisterUser? && !op.LogOut?
    ensures var (c, after) := (j.clients[i], Step(j, Arrival(i, decodes)).clients[i]);
      && (after.s.logged <==> N.ResponseType(c.phase.m) != NOT_LOGGED)
      && after.s.user.username == c.s.user.username && after.s.cookie == c.s.cookie
  {
    hide N.ResponseType;
  }

  /** Whom the tracker takes a waiting client for. */
  lemma LoginAtHandling(j: Joint, i: nat)
    requires Consistent(j) && i in j.clients && j.clients[i].phase.Sent? && T.CookieOf(j.clients[i].phase.req).Some?
    ensures var (c, req) := (j.clients[i], j.clients[i].phase.req);
      && Belongs(req.cookie, c.s.user.username, j.issued)
      && LoginOf(j.tracker.sessions, req.cookie) in {[], c.s.user.username}
  {
    var c := j.clients[i];
    assert Sound(c, j.issued);
    AskedWithCookie(c.s, c.phase.op, c.phase.req);
  }

  /** A reply to a cookie-carrying request, when it arrives: the client stays logged exactly if
      the session was live when the request was handled, and then the tracker acted for that
      very client's user. */
  lemma ExchangeFoundLiveSession(j: Joint, es: seq<Event>, i: nat, decodes: bool)
    requires Initial(j) && FreshRun(j, es)
    requires i in Run(j, es).clients && Run(j, es).clients[i].phase.Answered?
    requires T.CookieOf(Run(j, es).clients[i].phase.req).Some? && !Run(j, es).clients[i].phase.op.LogOut?
    ensures var (c, after) := (Run(j, es).clients[i], Step(Run(j, es), Arrival(i, decodes)).clients[i]);
      exists k: nat ::
        && HandledAt(j, es, k, i, c.phase.op, c.phase.req, c.phase.m)
        && var login := LoginOf(Run(j, es[..k]).tracker.sessions, c.phase.req.cookie);
           && (after.s.logged <==> login != [])
           && (after.s.logged ==> login == c.s.user.username)
  {
    var d := Run(j, es);
    var c, p := d.clients[i], d.clients[i].phase;
    RunConsistent(j, es);
    assert Sound(c, d.issued);
    AnsweredWasHandled(j, es, i);
    var k: nat :| HandledAt(j, es, k, i, p.op, p.req, p.m);
    var b := Run(j, es[..k]);
    FreshPrefix(j, es, k);
    RunConsistent(j, es[..k]);
    CookiesKeepOwners(j, es, k);
    assert b.clients[i].phase == Sent(p.op, p.req) && p.m == E.ReplyTo(b.tracker, p.req, es[k].env);
    hide *;
    LoginAtHandling(b, i);
    ReplyRead(b.tracker, p.req, es[k].env);
    NotLoggedExactly(b.tracker, p.req, es[k].env);
    AskedFor(c, d.issued);
    AnswerLogged(d, i, decodes);
    OneOwner(p.req.cookie, b.clients[i].s.user.username, b.issued, c.s.user.username, d.issued);
  }

  lemma AskedFor(c: Client, issued: map<bytes, bytes>)
    requires Sound(c, issued) && c.phase.Answered? && T.CookieOf(c.phase.req).Some?
    ensures c.s.logged && Belongs(c.phase.req.cookie, c.s.user.username, issued)
    ensures !c.phase.op.LogIn? && !c.phase.op.RegisterUser? && (c.phase.op.LogOut? <==> c.phase.req.Logout?)
  {
    AskedWithCookie(c.s, c.phase.op, c.phase.req);
  }

  lemma OneOwner(cookie: bytes, u: bytes, before: map<bytes, bytes>, v: bytes, after: map<bytes, bytes>)
    requires Belongs(cookie, u, before) && Belongs(cookie, v, after)
    requires forall c :: c in before ==> Belongs(c, before[c], after)
    ensures u == v
  {
  }

  /** A LOGIN that is answered OK always carries a cookie, drawn for the user who asked: in no
      reachable state does it end in BAD_SERVER_RESPONSE. */
  lemma LoginIsAnswered(j: Joint, es: seq<Event>, i: nat, decodes: bool)
    requires Initial(j) && FreshRun(j, es)
    requires i in Run(j, es).clients && Run(j, es).clients[i].phase.Answered? && Run(j, es).clients[i].phase.op.LogIn?
    ensures var (c, d) := (Run(j, es).clients[i], Run(j, es));
      var (s, e) := N.Answer(c.s, c.phase.op, c.phase.m, decodes);
      && e != BadServerResponse
      && (s.logged <==> e == NoError)
      && (s.logged ==> Belongs(s.cookie, s.user.username, d.issued))
  {
    RunConsistent(j, es);
    var d := Run(j, es);
    assert Sound(d.clients[i], d.issued);
    hide *;
    AnswerToLogin(d.clients[i], d.issued, decodes);
  }

  lemma AnswerToLogin(c: Client, issued: map<bytes, bytes>, decodes: bool)
    requires Sound(c, issued) && c.phase.Answered? && c.phase.op.LogIn?
    ensures var (s, e) := N.Answer(c.s, c.phase.op, c.phase.m, decodes);
      && e != BadServerResponse
      && (s.logged <==> e == NoError)
      && (s.logged ==> Belongs(s.cookie, s.user.username, issued))
  {
    hide N.ResponseType, N.CookieIn;
  }
}
