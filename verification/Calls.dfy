/** What a client's call comes to: what it does to the tracker's rows, what it leaves of the
    client's session, and what it returns. */
module Calls {
  import opened Bytes
  import opened Messages
  import opened Protocol
  import opened Sessions
  import opened ClientTypes
  import opened Answers
  import Sp2pProtocol
  import T = Tracker
  import N = Nodes
  import E = EndToEnd
  import P = TwoParty
  import S = Statements

  datatype Outcome = Outcome(session: N.Session, wallet: N.Wallet, error: NodeError, tracker: T.State, reply: Option<Message>)

  /** A call whose request, if it sends one, is handled and answered. */
  ghost function Call(s: N.Session, w: N.Wallet, op: N.Operation, st: T.State, env: T.Env, connects: bool, decodes: bool): Outcome {
    var (d, e, sent) := N.Exchange(s, op, N.Transport(connects, None, decodes));
    match sent
    case None => Outcome(d, w, e, st, None)
    case Some(req) =>
      var m := E.ReplyTo(st, req, env);
      var t := N.Transport(connects, Some(m), decodes);
      Outcome(N.Exchange(s, op, t).0, N.Collect(w, s, op, t), N.Exchange(s, op, t).1, T.Handle(st, req, env).0, Some(m))
  }

  /** Such a call is three steps of the joint machine. */
  lemma CallIsThreeSteps(j: P.Joint, i: nat, w: N.Wallet, op: N.Operation, env: T.Env, connects: bool, decodes: bool)
    requires i in j.clients && j.clients[i].phase.Idle?
    ensures var d := P.Run(j, [P.Call(i, op, connects), P.Handling(i, env), P.Arrival(i, decodes)]);
      var o := Call(j.clients[i].s, w, op, j.tracker, env, connects, decodes);
      d.tracker == o.tracker && d.clients == j.clients[i := P.Client(o.session, P.Idle)]
  {
    hide T.Handle, N.Answer, E.ReplyTo, N.Collect, N.Ask, P.Step;
    var s := j.clients[i].s;
    ThreeSteps(j, P.Call(i, op, connects), P.Handling(i, env), P.Arrival(i, decodes));
    CallStep(j, i, op, connects);
    if (s.active || connects) && N.Ask(s, op).Some? {
      SentSteps(P.Step(j, P.Call(i, op, connects)), i, env, decodes);
    } else {
      IdleSteps(P.Step(j, P.Call(i, op, connects)), i, env, decodes);
    }
  }

  lemma CallStep(j: P.Joint, i: nat, op: N.Operation, connects: bool)
    requires i in j.clients && j.clients[i].phase.Idle?
    ensures var (s, d) := (j.clients[i].s, P.Step(j, P.Call(i, op, connects)));
      d == j.(clients := j.clients[i :=
        if !(s.active || connects) then j.clients[i]
        else if N.Ask(s, op).Some? then P.Client(s.(active := true), P.Sent(op, N.Ask(s, op).value))
        else if N.KeyMissing(s, op) then P.Client(s.(active := true), P.Idle)
        else j.clients[i]])
  {
    hide N.Ask, N.KeyMissing;
  }

  lemma SentSteps(j: P.Joint, i: nat, env: T.Env, decodes: bool)
    requires i in j.clients && j.clients[i].phase.Sent?
    ensures var (c, d) := (j.clients[i], P.Step(P.Step(j, P.Handling(i, env)), P.Arrival(i, decodes)));
      && d.tracker == T.Handle(j.tracker, c.phase.req, env).0
      && d.clients == j.clients[i := P.Client(N.Answer(c.s, c.phase.op, E.ReplyTo(j.tracker, c.phase.req, env), decodes).0, P.Idle)]
  {
    hide T.Handle, N.Answer, E.ReplyTo, N.Ask;
  }

  lemma IdleSteps(j: P.Joint, i: nat, env: T.Env, decodes: bool)
    requires i in j.clients && j.clients[i].phase.Idle?
    ensures var d := P.Step(P.Step(j, P.Handling(i, env)), P.Arrival(i, decodes)); d.tracker == j.tracker && d.clients == j.clients
  {
    hide T.Handle, N.Answer, E.ReplyTo, N.Ask;
  }

  lemma ThreeSteps(j: P.Joint, e: P.Event, f: P.Event, g: P.Event)
    ensures P.Run(j, [e, f, g]) == P.Step(P.Step(P.Step(j, e), f), g)
  {
    hide P.Step;
    var (one, two, es) := ([e], [e, f], [e, f, g]);
    assert es[..2] == two && two[..1] == one && one[..0] == [];
    assert P.Run(j, []) == j;
    assert P.Run(j, one) == P.Step(j, e);
    assert P.Run(j, two) == P.Step(P.Run(j, one), f);
  }

  /** A logged client with a connection, and a tracker that knows its session. */
  ghost predicate Ready(s: N.Session, st: T.State, connects: bool, login: bytes) {
    s.logged && (s.active || connects) && S.Integrity(st.db) && Live(st, s.cookie, login)
  }

  /** The call changes nothing at the client but that there is a connection. */
  ghost predicate Unchanged(s: N.Session, w: N.Wallet, o: Outcome) {
    o.session == s.(active := true) && o.wallet == w
  }

  /** The request of a call is handled, and its response type decides. */
  lemma Handled(s: N.Session, w: N.Wallet, op: N.Operation, st: T.State, env: T.Env, connects: bool, decodes: bool, req: Request)
    requires N.Ask(s, op) == Some(req) && (s.active || connects)
    requires !op.LogIn? && !op.LogOut? && !op.RegisterUser?
    ensures var o := Call(s, w, op, st, env, connects, decodes);
      var (st', reply) := T.Handle(st, req, env);
      && o.tracker == st' && o.reply == Some(E.ReplyTo(st, req, env))
      && ((op.SignKey? && Code(reply) == OK) || (o.wallet == w && o.error == N.DefaultError(Code(reply))))
      && o.session == if Code(reply) == NOT_LOGGED then s.(active := true, logged := false)
                      else if Code(reply) == OK && op.ChangePassword? then s.(active := true, user := s.user.(password := op.newPassword))
                      else s.(active := true)
  {
    hide T.Handle, E.ReplyTo, N.ResponseType, N.CookieIn, N.PartText, N.Cookied;
    P.ReplyRead(st, req, env);
  }

  // ---- Without a session -----------------------------------------------------------------------

  /** Neither an operation for which the client is not logged nor a second LOGIN or REGISTER
      reaches the tracker. */
  lemma NotSent(s: N.Session, w: N.Wallet, op: N.Operation, st: T.State, env: T.Env, connects: bool, decodes: bool)
    requires if op.LogIn? then s.logged else if op.RegisterUser? then s.user.registered else !s.logged
    ensures Call(s, w, op, st, env, connects, decodes) ==
      Outcome(s, w, if op.LogIn? || op.RegisterUser? then NoError else NotLogged, st, None)
  {
  }

  /** The operation goes ahead at all. */
  predicate Attempted(s: N.Session, op: N.Operation) {
    if op.LogIn? then !s.logged else if op.RegisterUser? then !s.user.registered else s.logged
  }

  predicate LacksKey(op: N.Operation) {
    (op.RegisterUser? || op.SignKey?) && op.key.None?
  }

  /** Without a connection nothing changes; without a private key there is at least a connection
      then; when sending fails there is none any more. Nothing else changes in any of the three. */
  lemma CallFails(s: N.Session, w: N.Wallet, op: N.Operation, t: N.Transport)
    requires Attempted(s, op) && (t.reply.None? || LacksKey(op) || (!s.active && !t.connects))
    ensures var (d, e, sent) := N.Exchange(s, op, t);
      && N.Collect(w, s, op, t) == w
      && if !s.active && !t.connects then d == s && e == NoConnection && sent == None
         else if LacksKey(op) then d == s.(active := true) && e == Other && sent == None
         else d == s.(active := false) && e == SendError && sent.Some?
  {
    hide N.ResponseType, N.PartText, N.Cookied;
  }

  /** If the tracker does not know the session, the client learns it and nothing else happens.
      The error returned is OTHER, not NOT_LOGGED, which `getDefaultError` does not know. */
  lemma SessionDead(s: N.Session, w: N.Wallet, op: N.Operation, st: T.State, env: T.Env, connects: bool, decodes: bool)
    requires s.logged && (s.active || connects) && forall login :: !Live(st, s.cookie, login)
    requires !op.LogIn? && !op.LogOut? && !op.RegisterUser? && (op.SignKey? ==> op.key.Some?)
    ensures var o := Call(s, w, op, st, env, connects, decodes);
      && o.session == s.(active := true, logged := false) && o.wallet == w && o.error == Other && o.tracker == st
  {
    hide T.Handle, E.ReplyTo;
    var req := N.Ask(s, op).value;
    P.AskedWithCookie(s, op, req);
    Handled(s, w, op, st, env, connects, decodes, req);
    NotLiveAnswered(st, req, env);
  }

  // ---- Accounts --------------------------------------------------------------------------------

  /** LOGIN is judged by the username and password the client holds. */
  lemma LogInCalled(s: N.Session, w: N.Wallet, st: T.State, env: T.Env, connects: bool, decodes: bool)
    requires !s.logged && (s.active || connects) && S.Integrity(st.db)
    ensures var o := Call(s, w, N.LogIn, st, env, connects, decodes);
      && o.wallet == w && o.tracker.db == st.db
      && if Accepts(st.db.t, s.user.username, s.user.password, env)
         then
           && o.error == NoError
           && o.session == N.Session(s.user.(registered := true), true, env.cookie, true)
           && o.tracker.sessions == st.sessions[env.cookie := Session(s.user.username, env.now)]
         else o.error == BadCredentials && o.session == s.(active := true) && o.tracker == st
  {
    hide T.Handle, E.ReplyTo, N.ResponseType, N.CookieIn, S.Integrity, Accepts;
    var req := Request.Login(s.user.username, s.user.password);
    LoginAnswered(st, s.user.username, s.user.password, env);
    P.ReplyRead(st, req, env);
  }

  /** After LOGOUT neither side has the session, whatever the tracker knew of it. */
  lemma LogOutCalled(s: N.Session, w: N.Wallet, st: T.State, env: T.Env, connects: bool, decodes: bool)
    requires s.logged && (s.active || connects)
    ensures var o := Call(s, w, N.LogOut, st, env, connects, decodes);
      && o.error == NoError && o.wallet == w
      && o.session == s.(active := true, logged := false, cookie := if s.cookie in st.sessions then [] else s.cookie)
      && o.tracker == st.(sessions := st.sessions - {s.cookie})
  {
    hide T.Handle, E.ReplyTo, N.ResponseType, N.CookieIn;
    P.ReplyRead(st, Request.Logout(s.cookie), env);
    LogoutAnswered(st, s.cookie, env);
  }

  lemma RegisterUserCalled(s: N.Session, w: N.Wallet, key: bytes, st: T.State, env: T.Env, connects: bool, decodes: bool)
    requires !s.user.registered && (s.active || connects) && S.Integrity(st.db)
    ensures var o := Call(s, w, N.RegisterUser(Some(key)), st, env, connects, decodes);
      var (t, hash, signed) := (st.db.t, env.hash(s.user.password), env.sign(key));
      && o.tracker.sessions == st.sessions
      && if T.Write in env.faults || |s.user.username| > 30 || |hash| > 70
         then o.error == InternalServerError && o.tracker.db.t == t && Unchanged(s, w, o)
         else if SomeUser(t, s.user.username) then o.error == AlreadyExists && o.tracker.db.t == t && Unchanged(s, w, o)
         else
           && st.db.next !in t.users && o.tracker.db.t == t.(users := t.users[st.db.next := S.User(s.user.username, hash)])
           && if signed == [] then o.error == BadRequest && Unchanged(s, w, o)
              else
                && o.session == s.(active := true, user := s.user.(registered := true))
                && if !decodes then o.error == BadServerResponse && o.wallet == w
                   else o.error == NoError && o.wallet == w.(freeCerts := w.freeCerts + [signed], nodeCerts := w.nodeCerts + [env.nodeCertificate])
  {
    hide T.Handle, E.ReplyTo, N.ResponseType, N.CookieIn, N.PartText, S.Integrity, SomeUser;
    var req := Request.Register(s.user.username, s.user.password, key);
    RegisterAnswered(st, s.user.username, s.user.password, key, env);
    P.ReplyRead(st, req, env);
    CertificatesRead(st, req, env);
  }

  /** The certificates a client reads are the ones the tracker sent. */
  lemma CertificatesRead(st: T.State, req: Request, env: T.Env)
    ensures var (m, reply) := (E.ReplyTo(st, req, env), T.Handle(st, req, env).1);
      && (reply.Registered? ==> N.PartText(m, 1, 0) == reply.userCertificate && N.PartText(m, 1, 1) == reply.nodeCertificate)
      && (reply.KeySigned? ==> N.PartText(m, 8, 0) == reply.userCertificate)
  {
    T.RepliesAreWellTyped(st, req, env);
    PartsRead(T.Handle(st, req, env).1);
    hide T.Handle;
  }

  lemma PartsRead(r: Reply)
    requires Code(r) in Sp2pProtocol.RESPONSE_TYPES
    ensures r.Registered? ==> N.PartText(ReplyMessage(r), 1, 0) == r.userCertificate && N.PartText(ReplyMessage(r), 1, 1) == r.nodeCertificate
    ensures r.KeySigned? ==> N.PartText(ReplyMessage(r), 8, 0) == r.userCertificate
    ensures r.ServerUpdated? ==> ReplyMessage(r).slots[7] == [Sub(Message([[Int(r.seconds)]], []))]
  {
    if r.Registered? { assert ReplyMessage(r).slots[1] == [Sub(Texts(Sp2pProtocol.NODE_REGISTER, [r.userCertificate, r.nodeCertificate]))]; }
    if r.KeySigned? { assert ReplyMessage(r).slots[8] == [Sub(Texts(Sp2pProtocol.NODE_SIGN_KEY, [r.userCertificate]))]; }
    hide ReplyMessage;
  }

  /** The client's present password is checked, and the new one is what both sides then hold. */
  lemma ChangePasswordCalled(s: N.Session, w: N.Wallet, p: bytes, st: T.State, env: T.Env, connects: bool, decodes: bool, login: bytes)
    requires Ready(s, st, connects, login)
    ensures var o := Call(s, w, N.ChangePassword(p), st, env, connects, decodes);
      var (t, hash) := (st.db.t, env.hash(p));
      && o.tracker.sessions == st.sessions && o.wallet == w
      && o.session == s.(active := true, user := if o.error == NoError then s.user.(password := p) else s.user)
      && o.error == (if !Accepts(t, login, s.user.password, env) then BadCredentials
                     else if T.Write in env.faults || (SomeUser(t, login) && |hash| > 70) then InternalServerError else NoError)
      && if o.error == NoError && SomeUser(t, login)
         then exists u: nat :: IsUser(t, u, login) && o.tracker.db.t == t.(users := t.users[u := S.User(login, hash)])
         else o.tracker.db.t == t
  {
    hide T.Handle, E.ReplyTo, N.ResponseType, S.Integrity, Accepts, SomeUser, IsUser, Live;
    Handled(s, w, N.ChangePassword(p), st, env, connects, decodes, Request.ChangePassword(s.cookie, s.user.password, p));
    ChangePasswordAnswered(st, s.cookie, login, s.user.password, p, env);
  }

  // ---- Networks --------------------------------------------------------------------------------

  lemma RegisterNetworkCalled(s: N.Session, w: N.Wallet, n: NetworkDescription, st: T.State, env: T.Env, connects: bool, decodes: bool, login: bytes)
    requires Ready(s, st, connects, login)
    ensures var o := Call(s, w, N.RegisterNetwork(n), st, env, connects, decodes);
      var (t, next) := (st.db.t, st.db.next);
      && Unchanged(s, w, o) && o.tracker.sessions == st.sessions
      && o.error == (if T.Write in env.faults || |n.name| > 30 || |n.creator.email| > 40 || |n.protocol| > 40 || !SomeUser(t, login)
                     then InternalServerError else if SomeNetwork(t, n.name) then AlreadyExists else NoError)
      && if o.error != NoError then o.tracker.db.t == t
         else exists u: nat :: IsUser(t, u, login) && next !in t.networks && next + 1 !in t.invitations && o.tracker.db.t == t.(
                networks := t.networks[next := S.Network(u, n.name, n.isPublic, n.listed, n.clientServer, n.creator.email, n.protocol)],
                invitations := if T.Invitation in env.faults then t.invitations else t.invitations[next + 1 := S.Link(u, next, ())])
  {
    hide T.Handle, E.ReplyTo, N.ResponseType, S.Integrity, SomeUser, SomeNetwork, IsUser, Live;
    var req := Request.CreateNetwork(s.cookie, n.name, n.isPublic, n.listed, n.clientServer, n.creator.email, n.protocol);
    Handled(s, w, N.RegisterNetwork(n), st, env, connects, decodes, req);
    CreateNetworkAnswered(st, s.cookie, login, n.name, n.isPublic, n.listed, n.clientServer, n.creator.email, n.protocol, env);
  }

  lemma DeleteNetworkCalled(s: N.Session, w: N.Wallet, n: bytes, st: T.State, env: T.Env, connects: bool, decodes: bool, login: bytes)
    requires Ready(s, st, connects, login)
    ensures var o := Call(s, w, N.DeleteNetwork(n), st, env, connects, decodes);
      var t := st.db.t;
      && Unchanged(s, w, o) && o.tracker.sessions == st.sessions
      && o.error == (if T.NetworkLookup in env.faults || !SomeNetwork(t, n) then NoSuchNetwork
                     else if T.Write in env.faults then InternalServerError
                     else if Owns(t, login, n) then NoError else NoPrivilages)
      && if o.error == NoError then WithoutNetwork(o.tracker.db.t, t, n) else o.tracker.db.t == t
  {
    hide T.Handle, E.ReplyTo, N.ResponseType, S.Integrity, SomeNetwork, Owns, WithoutNetwork, Live;
    Handled(s, w, N.DeleteNetwork(n), st, env, connects, decodes, Request.DeleteNetwork(s.cookie, n));
    DeleteNetworkAnswered(st, s.cookie, login, n, env);
  }

  lemma InviteUserCalled(s: N.Session, w: N.Wallet, user: bytes, n: bytes, st: T.State, env: T.Env, connects: bool, decodes: bool, login: bytes)
    requires Ready(s, st, connects, login)
    ensures var o := Call(s, w, N.InviteUser(user, n), st, env, connects, decodes);
      var t := st.db.t;
      && Unchanged(s, w, o) && o.tracker.sessions == st.sessions
      && o.error == (if T.NetworkLookup in env.faults || !SomeNetwork(t, n) then NoSuchNetwork
                     else if T.UserLookup in env.faults || !SomeUser(t, user) then NoSuchUser
                     else if T.Write in env.faults then InternalServerError
                     else if SomeLink(t.invitations, t, user, n) then AlreadyExists else NoError)
      && if o.error != NoError then o.tracker.db.t == t
         else exists u: nat, k: nat :: IsUser(t, u, user) && IsNetwork(t, k, n) && st.db.next !in t.invitations
                && o.tracker.db.t == t.(invitations := t.invitations[st.db.next := S.Link(u, k, ())])
  {
    hide T.Handle, E.ReplyTo, N.ResponseType, S.Integrity, SomeUser, SomeNetwork, SomeLink, IsUser, IsNetwork, Live;
    Handled(s, w, N.InviteUser(user, n), st, env, connects, decodes, Request.InviteUser(s.cookie, user, n));
    InviteUserAnswered(st, s.cookie, login, user, n, env);
  }

  /** GET_USER_INFO says whether user and network exist; the key in the reply is not read. */
  lemma GetUserInfoCalled(s: N.Session, w: N.Wallet, user: bytes, n: bytes, st: T.State, env: T.Env, connects: bool, decodes: bool, login: bytes)
    requires Ready(s, st, connects, login)
    ensures var o := Call(s, w, N.GetUserInfo(user, n), st, env, connects, decodes);
      && Unchanged(s, w, o) && o.tracker == st
      && o.error == (if T.UserLookup in env.faults || !SomeUser(st.db.t, user) then NoSuchUser
                     else if T.NetworkLookup in env.faults || !SomeNetwork(st.db.t, n) then NoSuchNetwork else NoError)
  {
    hide T.Handle, E.ReplyTo, N.ResponseType, S.Integrity, SomeUser, SomeNetwork, SomeLink, Live;
    Handled(s, w, N.GetUserInfo(user, n), st, env, connects, decodes, Request.UserInfo(s.cookie, user, n));
    UserInfoAnswered(st, s.cookie, login, user, n, env);
  }

  // ---- Servers and keys ------------------------------------------------------------------------

  lemma UpdateServerCalled(s: N.Session, w: N.Wallet, n: bytes, port: int32, st: T.State, env: T.Env, connects: bool, decodes: bool, login: bytes)
    requires Ready(s, st, connects, login)
    ensures var o := Call(s, w, N.UpdateServer(n, port), st, env, connects, decodes);
      var t := st.db.t;
      && Unchanged(s, w, o) && o.tracker.sessions == st.sessions
      && o.error == (if T.NetworkLookup in env.faults || !SomeNetwork(t, n) then NoSuchNetwork
                     else if T.RightsLookup in env.faults || !MayServe(t, login, n) then NoPrivilages
                     else if T.Write in env.faults || |env.ip| > 20 then InternalServerError
                     else if SomeLink(t.servers, t, login, n) then NoError
                     else if T.SecondWrite in env.faults || !SomeUser(t, login) then InternalServerError else NoError)
      && (o.error == NoError ==> o.reply.Some? && N.SecondsIn(o.reply.value) == 1800000)
      && if o.error != NoError || SomeLink(t.servers, t, login, n) then o.tracker.db.t == t
         else exists u: nat, k: nat :: IsUser(t, u, login) && IsNetwork(t, k, n) && st.db.next !in t.servers
                && o.tracker.db.t == t.(servers := t.servers[st.db.next :=
                     S.Link(u, k, S.Endpoint(env.ip, port, ToInt32(env.now + 1800000)))])
  {
    hide T.Handle, E.ReplyTo, N.ResponseType, N.SecondsIn, S.Integrity, SomeUser, SomeNetwork, SomeLink, MayServe, IsUser, IsNetwork, Live;
    var req := Request.UpdateServer(s.cookie, n, port);
    Handled(s, w, N.UpdateServer(n, port), st, env, connects, decodes, req);
    UpdateServerAnswered(st, s.cookie, login, n, port, env);
    SecondsRead(st, req, env);
  }

  lemma SecondsRead(st: T.State, req: Request, env: T.Env)
    ensures var reply := T.Handle(st, req, env).1;
      reply.ServerUpdated? ==> N.SecondsIn(E.ReplyTo(st, req, env)) == reply.seconds
  {
    T.RepliesAreWellTyped(st, req, env);
    PartsRead(T.Handle(st, req, env).1);
    hide T.Handle;
  }

  lemma StopServerCalled(s: N.Session, w: N.Wallet, n: bytes, st: T.State, env: T.Env, connects: bool, decodes: bool, login: bytes)
    requires Ready(s, st, connects, login)
    ensures var o := Call(s, w, N.StopServer(n), st, env, connects, decodes);
      var t := st.db.t;
      && Unchanged(s, w, o) && o.tracker.sessions == st.sessions
      && o.error == (if T.NetworkLookup in env.faults || !SomeNetwork(t, n) then NoSuchNetwork
                     else if T.Write in env.faults then InternalServerError else BadRequest)
      && if o.error == BadRequest && SomeLink(t.servers, t, login, n)
         then exists i: nat :: IsLink(t.servers, t, i, login, n) && o.tracker.db.t == t.(servers := t.servers - {i})
         else o.tracker.db.t == t
  {
    hide T.Handle, E.ReplyTo, N.ResponseType, S.Integrity, SomeNetwork, SomeLink, IsLink, Live;
    Handled(s, w, N.StopServer(n), st, env, connects, decodes, Request.StopServer(s.cookie, n));
    StopServerAnswered(st, s.cookie, login, n, env);
  }

  /** The certificate kept under the network's name is the signed key, which is also what the
      tracker stores. */
  lemma SignKeyCalled(s: N.Session, w: N.Wallet, key: bytes, n: bytes, st: T.State, env: T.Env, connects: bool, decodes: bool, login: bytes)
    requires Ready(s, st, connects, login)
    ensures var o := Call(s, w, N.SignKey(Some(key), n), st, env, connects, decodes);
      var (t, signed) := (st.db.t, env.sign(key));
      && o.tracker.sessions == st.sessions && o.session == s.(active := true)
      && (var added := T.Write !in env.faults && SomeUser(t, login) && SomeNetwork(t, n) && !SomeLink(t.keys, t, login, n);
          && o.error == (if signed == [] then BadRequest
                         else if added then if decodes then NoError else BadServerResponse
                         else if T.Write !in env.faults && SomeLink(t.keys, t, login, n) then NoSuchUser
                         else InternalServerError)
          && o.wallet == (if o.error == NoError then w.(networkCerts := w.networkCerts[n := signed]) else w)
          && if !added then o.tracker.db.t == t
             else exists u: nat, k: nat :: IsUser(t, u, login) && IsNetwork(t, k, n) && st.db.next !in t.keys
                    && o.tracker.db.t == t.(keys := t.keys[st.db.next := S.Link(u, k, signed)]))
  {
    hide T.Handle, E.ReplyTo, N.ResponseType, N.PartText, N.CookieIn, S.Integrity, SomeUser, SomeNetwork, SomeLink, IsUser, IsNetwork, Live;
    var req := Request.SignKey(s.cookie, key, n);
    SignKeyAnswered(st, s.cookie, login, key, n, env);
    P.ReplyRead(st, req, env);
    CertificatesRead(st, req, env);
  }

  // ---- Lists -----------------------------------------------------------------------------------

  /** The description of row `n` a client ends up with: the owner's login also in the place of
      the e-mail address, a visibility nobody set. */
  ghost predicate Presents(t: S.Tables, n: nat, d: NetworkDescription, env: T.Env, uninitialised: bool) {
    && n in t.networks
    && d.name == t.networks[n].name && d.protocol == t.networks[n].protocol
    && d.clientServer == t.networks[n].participable
    && d.isPublic == env.publicity(n) && d.listed == uninitialised
    && IsUser(t, t.networks[n].owner, d.creator.username) && d.creator.email == d.creator.username
  }

  lemma DescribedPresents(t: S.Tables, n: nat, x: S.NetworkInfo, env: T.Env, uninitialised: bool)
    requires Describes(t, n, x, env)
    ensures Presents(t, n, E.Description(x, uninitialised), env, uninitialised)
  {
  }

  lemma PresentsDescribed(t: S.Tables, n: nat, d: NetworkDescription, env: T.Env, uninitialised: bool) returns (x: S.NetworkInfo)
    requires Presents(t, n, d, env, uninitialised)
    ensures Describes(t, n, x, env) && d == E.Description(x, uninitialised) && x.owner == d.creator.username
  {
    var row := t.networks[n];
    x := S.NetworkInfo(row.name, d.creator.username, row.email, env.publicity(n), row.visible, row.participable, row.protocol);
  }

  ghost predicate InList(t: S.Tables, mine: bool, login: bytes, n: nat, owner: bytes) {
    if mine then owner == login else Shown(t, n, login)
  }

  ghost predicate Presented(t: S.Tables, mine: bool, login: bytes, env: T.Env, uninitialised: bool, d: NetworkDescription) {
    exists n: nat :: InList(t, mine, login, n, d.creator.username) && Presents(t, n, d, env, uninitialised)
  }

  /** The reply to either list request. */
  ghost predicate Lists(t: S.Tables, mine: bool, login: bytes, env: T.Env, l: seq<S.NetworkInfo>) {
    && (forall x :: x in l <==> T.Listing !in env.faults && exists n: nat :: InList(t, mine, login, n, x.owner) && Describes(t, n, x, env))
    && forall i, j :: 0 <= i < j < |l| ==> l[i].name != l[j].name
  }

  /** `getNetworksList` returns exactly the networks that are visible, the user's own, or those
      it is invited to, each once; `getMyNetworks` those the user owns. */
  lemma NetworksListed(s: N.Session, w: N.Wallet, mine: bool, st: T.State, env: T.Env, connects: bool, decodes: bool, login: bytes, uninitialised: bool)
    requires Ready(s, st, connects, login)
    ensures var o := Call(s, w, if mine then N.GetMyNetworks else N.GetNetworksList, st, env, connects, decodes);
      && Unchanged(s, w, o) && o.tracker == st && o.error == NoError && o.reply.Some?
      && var ds := N.NetworksIn(N.ListIn(o.reply.value, if mine then 4 else 3), uninitialised);
         && (forall d :: d in ds <==> T.Listing !in env.faults && Presented(st.db.t, mine, login, env, uninitialised, d))
         && forall i, j :: 0 <= i < j < |ds| ==> ds[i].name != ds[j].name
  {
    hide T.Handle, E.ReplyTo, N.ResponseType, N.NetworksIn, N.ListIn, S.Integrity, Shown, Describes, Presents, Live, Lists, E.Description;
    var req := if mine then Request.ListMyNetworks(s.cookie) else Request.ListNetworks(s.cookie);
    Handled(s, w, if mine then N.GetMyNetworks else N.GetNetworksList, st, env, connects, decodes, req);
    NetworkReply(st, s.cookie, mine, env, login);
    var l := T.Handle(st, req, env).1.networks;
    E.NetworksRead(T.Handle(st, req, env).1, uninitialised);
    ListPresented(st.db.t, mine, login, env, l, N.NetworksIn(N.ListIn(E.ReplyTo(st, req, env), if mine then 4 else 3), uninitialised), uninitialised);
  }

  lemma NetworkReply(st: T.State, c: bytes, mine: bool, env: T.Env, login: bytes)
    requires S.Integrity(st.db) && Live(st, c, login)
    ensures var req := if mine then Request.ListMyNetworks(c) else Request.ListNetworks(c);
      var (st', reply) := T.Handle(st, req, env);
      && st' == st && (if mine then reply.MyNetworkList? else reply.NetworkList?)
      && E.ReplyTo(st, req, env) == ReplyMessage(reply)
      && Lists(st.db.t, mine, login, env, reply.networks)
  {
    hide T.Handle, S.Integrity, Shown, Describes, Live;
    if mine { ListMyNetworksAnswered(st, c, login, env); } else { ListNetworksAnswered(st, c, login, env); }
  }

  lemma ListPresented(t: S.Tables, mine: bool, login: bytes, env: T.Env, l: seq<S.NetworkInfo>, ds: seq<NetworkDescription>, uninitialised: bool)
    requires Lists(t, mine, login, env, l)
    requires |ds| == |l| && forall k :: 0 <= k < |ds| ==> ds[k] == E.Description(l[k], uninitialised)
    ensures forall d :: d in ds <==> T.Listing !in env.faults && Presented(t, mine, login, env, uninitialised, d)
    ensures forall i, j :: 0 <= i < j < |ds| ==> ds[i].name != ds[j].name
  {
    hide Shown, Describes, Presents;
    forall d ensures d in ds <==> T.Listing !in env.faults && Presented(t, mine, login, env, uninitialised, d) {
      if d in ds {
        var k :| 0 <= k < |ds| && ds[k] == d;
        assert l[k] in l;
        var n: nat :| InList(t, mine, login, n, l[k].owner) && Describes(t, n, l[k], env);
        DescribedPresents(t, n, l[k], env, uninitialised);
      }
      if T.Listing !in env.faults && Presented(t, mine, login, env, uninitialised, d) {
        var n: nat :| InList(t, mine, login, n, d.creator.username) && Presents(t, n, d, env, uninitialised);
        var x := PresentsDescribed(t, n, d, env, uninitialised);
        assert x in l;
        var k :| 0 <= k < |l| && l[k] == x;
        assert ds[k] == d;
      }
    }
  }

  ghost predicate ServerPresented(t: S.Tables, name: bytes, d: ServerDescription) {
    && d.network == name && d.user == name
    && exists k: nat :: k in t.servers && IsNetwork(t, t.servers[k].network, name) && t.servers[k].data.ip == d.ip
  }

  /** `getServersList`: an address for each server of the network, for those who may see it; in
      the place of the server's user stands the network's name. */
  lemma ServersListed(s: N.Session, w: N.Wallet, name: bytes, st: T.State, env: T.Env, connects: bool, decodes: bool, login: bytes)
    requires Ready(s, st, connects, login)
    ensures var o := Call(s, w, N.GetServersList(name), st, env, connects, decodes);
      var t := st.db.t;
      && Unchanged(s, w, o) && o.tracker == st && o.reply.Some?
      && o.error == (if T.NetworkLookup in env.faults || !SomeNetwork(t, name) then NoSuchNetwork
                     else if T.RightsLookup in env.faults || !MaySee(t, login, name) then NoPrivilages else NoError)
      && (o.error == NoError ==>
            forall d :: d in N.ServersIn(N.ListIn(o.reply.value, 5), name) <==> T.Listing !in env.faults && ServerPresented(t, name, d))
  {
    hide T.Handle, E.ReplyTo, N.ResponseType, N.ServersIn, N.ListIn, S.Integrity, SomeNetwork, MaySee, ServerPresented, Live, ServersAt;
    var req := Request.ListServers(s.cookie, name);
    Handled(s, w, N.GetServersList(name), st, env, connects, decodes, req);
    ListServersAnswered(st, s.cookie, login, name, env);
    var reply := T.Handle(st, req, env).1;
    if Code(reply) == OK {
      assert E.ReplyTo(st, req, env) == ReplyMessage(reply) by { ReplyOf(st, req, env); }
      E.ServersRead(reply.servers, name);
      ServersPresented(st, name, env, reply.servers, N.ServersIn(N.ListIn(E.ReplyTo(st, req, env), 5), name));
    }
  }

  lemma ReplyOf(st: T.State, req: Request, env: T.Env)
    ensures Code(T.Handle(st, req, env).1) in Sp2pProtocol.RESPONSE_TYPES
    ensures E.ReplyTo(st, req, env) == ReplyMessage(T.Handle(st, req, env).1)
  {
    hide T.Handle, ReplyMessage;
    T.RepliesAreWellTyped(st, req, env);
  }

  lemma ServersPresented(st: T.State, name: bytes, env: T.Env, l: seq<S.ServerInfo>, ds: seq<ServerDescription>)
    requires forall x :: multiset(l)[x] == if T.Listing in env.faults then 0 else |ServersAt(st.db.t, name, st.db.next, x)|
    requires forall k :: k in st.db.t.servers ==> k < st.db.next
    requires |ds| == |l| && forall k :: 0 <= k < |ds| ==> ds[k] == ServerDescription(l[k].network, name, l[k].ip)
    ensures forall d :: d in ds <==> T.Listing !in env.faults && ServerPresented(st.db.t, name, d)
  {
    hide IsNetwork;
    var t := st.db.t;
    forall d ensures d in ds <==> T.Listing !in env.faults && ServerPresented(t, name, d) {
      if d in ds {
        var i :| 0 <= i < |ds| && ds[i] == d;
        assert multiset(l)[l[i]] > 0;
        var k :| k in ServersAt(t, name, st.db.next, l[i]);
      }
      if T.Listing !in env.faults && ServerPresented(t, name, d) {
        var k: nat :| k in t.servers && IsNetwork(t, t.servers[k].network, name) && t.servers[k].data.ip == d.ip;
        var x := S.ServerInfo(name, d.ip, t.servers[k].data.port);
        assert k in ServersAt(t, name, st.db.next, x);
        assert multiset(l)[x] > 0;
        var i :| 0 <= i < |l| && l[i] == x;
        assert ds[i] == d;
      }
    }
  }
}
