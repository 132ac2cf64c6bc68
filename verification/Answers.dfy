/** What each request does and is answered, read off the rows: the meaning the handlers and the
    statements behind them are held to. */
module Answers {
  import opened Bytes
  import opened Sessions
  import opened Protocol
  import opened Tracker
  import S = Statements

  // ---- Rows --------------------------------------------------------------------------------

  ghost predicate IsUser(t: S.Tables, u: nat, login: bytes) {
    u in t.users && t.users[u].login == login
  }

  ghost predicate IsNetwork(t: S.Tables, n: nat, name: bytes) {
    n in t.networks && t.networks[n].name == name
  }

  ghost predicate SomeUser(t: S.Tables, login: bytes) {
    exists u: nat :: IsUser(t, u, login)
  }

  ghost predicate SomeNetwork(t: S.Tables, name: bytes) {
    exists n: nat :: IsNetwork(t, n, name)
  }

  /** The network of this name belongs to the user of this login. */
  ghost predicate Owns(t: S.Tables, login: bytes, name: bytes) {
    exists n: nat :: IsNetwork(t, n, name) && IsUser(t, t.networks[n].owner, login)
  }

  /** Row `i` of a table of links is the user's in the network. */
  ghost predicate IsLink<D>(m: map<nat, S.Link<D>>, t: S.Tables, i: nat, login: bytes, name: bytes) {
    i in m && IsUser(t, m[i].user, login) && IsNetwork(t, m[i].network, name)
  }

  ghost predicate SomeLink<D>(m: map<nat, S.Link<D>>, t: S.Tables, login: bytes, name: bytes) {
    exists i: nat :: IsLink(m, t, i, login, name)
  }

  /** A session the handlers accept: one of a user whose name is not empty. */
  ghost predicate Live(st: State, cookie: bytes, login: bytes) {
    cookie in st.sessions && st.sessions[cookie].login == login && login != []
  }

  lemma UserIds(t: S.Tables, login: bytes)
    requires S.Unique(t)
    ensures SomeUser(t, login) <==> S.UserId(t, login).Some?
    ensures forall u: nat :: IsUser(t, u, login) <==> S.UserId(t, login) == Some(u)
  {
    if S.UserId(t, login).Some? { assert IsUser(t, S.UserId(t, login).value, login); }
  }

  lemma NetworkIds(t: S.Tables, name: bytes)
    requires S.Unique(t)
    ensures SomeNetwork(t, name) <==> S.NetworkId(t, name).Some?
    ensures forall n: nat :: IsNetwork(t, n, name) <==> S.NetworkId(t, name) == Some(n)
  {
    if S.NetworkId(t, name).Some? { assert IsNetwork(t, S.NetworkId(t, name).value, name); }
  }

  lemma Owners(t: S.Tables, login: bytes, name: bytes)
    requires S.Unique(t)
    ensures var n := S.NetworkId(t, name);
      Owns(t, login, name) <==> n.Some? && S.UserId(t, login) == Some(t.networks[n.value].owner)
  {
    hide S.UserId, S.NetworkId, S.Unique;
    UserIds(t, login);
    NetworkIds(t, name);
  }

  lemma LinkIds<D>(m: map<nat, S.Link<D>>, t: S.Tables, login: bytes, name: bytes)
    requires S.Unique(t) && S.UniquePairs(m)
    ensures var id := S.LinkId(m, S.UserId(t, login), S.NetworkId(t, name));
      && (SomeLink(m, t, login, name) <==> id.Some?)
      && forall i: nat :: IsLink(m, t, i, login, name) <==> id == Some(i)
  {
    hide S.UserId, S.NetworkId, S.Unique;
    UserIds(t, login);
    NetworkIds(t, name);
    var id := S.LinkId(m, S.UserId(t, login), S.NetworkId(t, name));
    if id.Some? { assert IsLink(m, t, id.value, login, name); }
  }

  lemma Ids(db: S.Database, login: bytes, name: bytes)
    requires S.Integrity(db)
    ensures SomeUser(db.t, login) <==> S.UserId(db.t, login).Some?
    ensures forall u: nat :: IsUser(db.t, u, login) <==> S.UserId(db.t, login) == Some(u)
    ensures SomeNetwork(db.t, name) <==> S.NetworkId(db.t, name).Some?
    ensures forall n: nat :: IsNetwork(db.t, n, name) <==> S.NetworkId(db.t, name) == Some(n)
    ensures var n := S.NetworkId(db.t, name);
      Owns(db.t, login, name) <==> n.Some? && S.UserId(db.t, login) == Some(db.t.networks[n.value].owner)
  {
    hide S.References, S.Drawn, S.Unique, S.UserId, S.NetworkId, IsUser, IsNetwork, SomeUser, SomeNetwork, Owns;
    UserIds(db.t, login);
    NetworkIds(db.t, name);
    Owners(db.t, login, name);
  }

  // ---- Accounts and sessions -----------------------------------------------------------------

  /** The password check: against the stored hash, or the empty one when there is no row or the
      lookup fails. */
  ghost predicate Accepts(t: S.Tables, login: bytes, password: bytes, env: Env) {
    if HashLookup in env.faults || !SomeUser(t, login) then env.check(password, [])
    else exists u: nat :: IsUser(t, u, login) && env.check(password, t.users[u].password)
  }

  lemma HashOf(db: S.Database, login: bytes, password: bytes, env: Env)
    requires S.Integrity(db)
    ensures env.check(password, S.PassHash(db, login, HashLookup in env.faults)) <==> Accepts(db.t, login, password, env)
  {
    hide S.UserId, S.Integrity;
    Ids(db, login, []);
    if S.UserId(db.t, login).Some? { assert IsUser(db.t, S.UserId(db.t, login).value, login); }
  }

  lemma RegisterAnswered(st: State, u: bytes, p: bytes, key: bytes, env: Env)
    requires S.Integrity(st.db)
    ensures var (t, (st', reply), hash) := (st.db.t, Handle(st, Register(u, p, key), env), env.hash(p));
      && st'.sessions == st.sessions
      && if Write in env.faults || |u| > 30 || |hash| > 70 then Code(reply) == INTERNAL_SERVER_ERROR && st'.db.t == t
         else if SomeUser(t, u) then Code(reply) == ALREADY_EXISTS && st'.db.t == t
         else
           && st.db.next !in t.users && st'.db.t == t.(users := t.users[st.db.next := S.User(u, hash)])
           && reply == if env.sign(key) == [] then Status(BAD_REQUEST) else Registered(env.sign(key), env.nodeCertificate)
  {
    hide S.UserId, S.Unique, S.References, SomeUser;
    Ids(st.db, u, []);
  }

  lemma LoginAnswered(st: State, u: bytes, p: bytes, env: Env)
    requires S.Integrity(st.db)
    ensures Handle(st, Login(u, p), env) ==
      if Accepts(st.db.t, u, p, env)
      then (st.(sessions := st.sessions[env.cookie := Session(u, env.now)]), LoggedIn(env.cookie, LOGIN_CERTIFICATE))
      else (st, Status(BAD_CREDENTIALS))
  {
    hide S.PassHash, S.Integrity, Accepts;
    HashOf(st.db, u, p, env);
  }

  /** A login is judged by the hash in the user's row. */
  lemma LoginJudged(st: State, i: nat, u: bytes, p: bytes, env: Env)
    requires S.Integrity(st.db) && IsUser(st.db.t, i, u) && HashLookup !in env.faults
    ensures Code(Handle(st, Login(u, p), env).1) == OK <==> env.check(p, st.db.t.users[i].password)
  {
    hide S.UserId, Handle, S.Integrity, Accepts;
    LoginAnswered(st, u, p, env);
    OneAccepts(st.db, i, u, p, env);
  }

  lemma OneAccepts(db: S.Database, i: nat, u: bytes, p: bytes, env: Env)
    requires S.Integrity(db) && IsUser(db.t, i, u) && HashLookup !in env.faults
    ensures Accepts(db.t, u, p, env) <==> env.check(p, db.t.users[i].password)
  {
    hide S.References, S.Drawn;
  }

  lemma LogoutAnswered(st: State, c: bytes, env: Env)
    ensures var (st', reply) := Handle(st, Logout(c), env);
      && st'.db == st.db && Code(reply) == (if c in st.sessions then OK else NOT_LOGGED)
      && c !in st'.sessions
      && forall d :: d != c ==> (d in st'.sessions <==> d in st.sessions) && (d in st.sessions ==> st'.sessions[d] == st.sessions[d])
  {
  }

  /** A request whose part is missing is refused and does nothing. */
  lemma IncompleteAnswered(st: State, k: int, env: Env)
    ensures var (st', reply) := Handle(st, Incomplete(k), env);
      st' == st && reply.Status? && reply.code != OK && (reply.code == INTERNAL_SERVER_ERROR <==> k == 14)
  {
  }

  /** Without a live session nothing is done. */
  lemma NotLiveAnswered(st: State, req: Request, env: Env)
    requires CookieOf(req).Some? && !req.Logout? && forall login :: !Live(st, req.cookie, login)
    ensures Handle(st, req, env) == (st, Status(NOT_LOGGED))
  {
    hide HandleLogged;
    if req.cookie in st.sessions { assert !Live(st, req.cookie, st.sessions[req.cookie].login); }
  }

  lemma LiveHandled(st: State, c: bytes, login: bytes, req: Request, env: Env)
    requires Live(st, c, login) && CookieOf(req) == Some(c) && !req.Logout?
    ensures Handle(st, req, env) == HandleLogged(st, login, req, env)
  {
    hide HandleLogged;
  }

  /** The greatest part of the tables without the user of this login whose references resolve. */
  ghost predicate WithoutUser(r: S.Tables, t: S.Tables, login: bytes) {
    && S.Within(r, t) && S.References(r) && !SomeUser(r, login)
    && forall other :: S.Within(other, t) && S.References(other) && !SomeUser(other, login) ==> S.Within(other, r)
  }

  ghost predicate WithoutNetwork(r: S.Tables, t: S.Tables, name: bytes) {
    && S.Within(r, t) && S.References(r) && !SomeNetwork(r, name)
    && forall other :: S.Within(other, t) && S.References(other) && !SomeNetwork(other, name) ==> S.Within(other, r)
  }

  lemma RemoveUserStatement(db: S.Database, login: bytes, fault: bool)
    requires S.Integrity(db)
    ensures var (d, r) := S.RemoveUser(db, login, fault);
      if fault then r == S.InternalError && d.t == db.t else r == S.Done && WithoutUser(d.t, db.t, login)
  {
    hide S.DropUser, S.Within, S.UserId;
    var d := S.RemoveUser(db, login, fault).0;
    Ids(db, login, []);
    if !fault {
      match S.UserId(db.t, login)
      case None => AllWithin(db.t);
      case Some(u) =>
        S.DropUserResolves(db.t, u);
        assert IsUser(db.t, u, login);
        OnlyUser(d.t, db.t, u, login);
        forall other | S.Within(other, db.t) && S.References(other) && !SomeUser(other, login)
          ensures S.Within(other, d.t)
        {
          OnlyUser(other, db.t, u, login);
          S.DropUserIsGreatest(db.t, u, other);
        }
    }
  }

  lemma AllWithin(t: S.Tables)
    ensures S.Within(t, t)
  {
  }

  lemma OnlyUser(r: S.Tables, t: S.Tables, u: nat, login: bytes)
    requires S.Within(r, t) && IsUser(t, u, login) && S.Unique(t)
    ensures SomeUser(r, login) <==> u in r.users
  {
    if u in r.users { assert IsUser(r, u, login); }
  }

  lemma OnlyNetwork(r: S.Tables, t: S.Tables, n: nat, name: bytes)
    requires S.Within(r, t) && IsNetwork(t, n, name) && S.Unique(t)
    ensures SomeNetwork(r, name) <==> n in r.networks
  {
    if n in r.networks { assert IsNetwork(r, n, name); }
  }

  lemma UnregisterAnswered(st: State, c: bytes, login: bytes, env: Env)
    requires S.Integrity(st.db) && Live(st, c, login)
    ensures var (st', reply) := Handle(st, Unregister(c), env);
      && st'.sessions == st.sessions
      && if Write in env.faults then Code(reply) == INTERNAL_SERVER_ERROR && st'.db.t == st.db.t
         else Code(reply) == OK && WithoutUser(st'.db.t, st.db.t, login)
  {
    hide S.RemoveUser, S.Integrity, WithoutUser;
    LiveHandled(st, c, login, Unregister(c), env);
    RemoveUserStatement(st.db, login, Write in env.faults);
  }

  lemma RemoveUserAnswered(st: State, c: bytes, user: bytes, network: bytes, login: bytes, env: Env)
    requires S.Integrity(st.db) && Live(st, c, login)
    ensures var (st', reply) := Handle(st, RemoveUser(c, user, network), env);
      && st'.sessions == st.sessions - {c}
      && if Write in env.faults then Code(reply) == INTERNAL_SERVER_ERROR && st'.db.t == st.db.t
         else Code(reply) == OK && WithoutUser(st'.db.t, st.db.t, login)
  {
    hide S.RemoveUser, S.Integrity, WithoutUser;
    LiveHandled(st, c, login, RemoveUser(c, user, network), env);
    RemoveUserStatement(st.db, login, Write in env.faults);
  }

  lemma ChangePasswordAnswered(st: State, c: bytes, login: bytes, o: bytes, p: bytes, env: Env)
    requires S.Integrity(st.db) && Live(st, c, login)
    ensures var (t, (st', reply), hash) := (st.db.t, Handle(st, ChangePassword(c, o, p), env), env.hash(p));
      && st'.sessions == st.sessions
      && if !Accepts(t, login, o, env) then Code(reply) == BAD_CREDENTIALS && st'.db.t == t
         else if Write in env.faults || (SomeUser(t, login) && |hash| > 70)
         then Code(reply) == INTERNAL_SERVER_ERROR && st'.db.t == t
         else
           && Code(reply) == OK
           && if SomeUser(t, login)
              then exists u: nat :: IsUser(t, u, login) && st'.db.t == t.(users := t.users[u := S.User(login, hash)])
              else st'.db.t == t
  {
    hide S.UserId, S.PassHash, S.Integrity, Accepts, SomeUser;
    LiveHandled(st, c, login, ChangePassword(c, o, p), env);
    HashOf(st.db, login, o, env);
    Ids(st.db, login, []);
    if S.UserId(st.db.t, login).Some? { assert IsUser(st.db.t, S.UserId(st.db.t, login).value, login); }
  }

  // ---- Networks ------------------------------------------------------------------------------

  lemma CreateNetworkAnswered(st: State, c: bytes, login: bytes, name: bytes, isPublic: bool, visible: bool,
        participable: bool, email: bytes, protocol: bytes, env: Env)
    requires S.Integrity(st.db) && Live(st, c, login)
    ensures var (t, (st', reply)) := (st.db.t, Handle(st, CreateNetwork(c, name, isPublic, visible, participable, email, protocol), env));
      && st'.sessions == st.sessions
      && if Write in env.faults || |name| > 30 || |email| > 40 || |protocol| > 40 || !SomeUser(t, login)
         then Code(reply) == INTERNAL_SERVER_ERROR && st'.db.t == t
         else if SomeNetwork(t, name) then Code(reply) == ALREADY_EXISTS && st'.db.t == t
         else
           && Code(reply) == OK && st.db.next !in t.networks && st.db.next + 1 !in t.invitations
           && exists u: nat :: IsUser(t, u, login) && st'.db.t == t.(
                networks := t.networks[st.db.next := S.Network(u, name, isPublic, visible, participable, email, protocol)],
                invitations := if Invitation in env.faults then t.invitations
                               else t.invitations[st.db.next + 1 := S.Link(u, st.db.next, ())])
  {
    hide S.UserId, S.NetworkId, S.LinkId, S.Unique, S.CreateInvitation, SomeUser, SomeNetwork, S.References;
    var req := CreateNetwork(c, name, isPublic, visible, participable, email, protocol);
    LiveHandled(st, c, login, req, env);
    Ids(st.db, login, name);
    var w := S.CreateNetwork(st.db, login, NetworkRow(req), Write in env.faults);
    if w.1 == S.Done {
      assert IsUser(st.db.t, S.UserId(st.db.t, login).value, login);
      FirstInvitation(st.db, w.0, login, name, Invitation in env.faults);
    }
  }

  lemma FirstInvitation(db: S.Database, d: S.Database, login: bytes, name: bytes, fault: bool)
    requires S.Integrity(db) && S.UserId(db.t, login).Some? && S.NetworkId(db.t, name).None?
    requires d.next == db.next + 1 && db.next !in db.t.networks
    requires exists row: S.Network :: row.name == name && d.t == db.t.(networks := db.t.networks[db.next := row])
    ensures S.CreateInvitation(d, login, name, fault).0.t ==
      if fault then d.t
      else d.t.(invitations := d.t.invitations[d.next := S.Link(S.UserId(db.t, login).value, db.next, ())])
  {
    hide S.References;
    assert IsNetwork(d.t, db.next, name);
    assert S.NetworkId(d.t, name) == Some(db.next);
    assert S.UserId(d.t, login) == S.UserId(db.t, login);
    assert forall i: nat :: i in db.t.invitations ==> db.t.invitations[i].network != db.next by { NoSuchNetwork(db); }
  }

  lemma NoSuchNetwork(db: S.Database)
    requires S.Integrity(db)
    ensures forall i: nat :: i in db.t.invitations ==> db.t.invitations[i].network != db.next
  {
  }

  lemma DeleteNetworkStatement(db: S.Database, login: bytes, name: bytes, fault: bool)
    requires S.Integrity(db)
    ensures var (d, r) := S.DeleteNetwork(db, login, name, fault);
      && r == (if fault then S.InternalError else if Owns(db.t, login, name) then S.Done else S.NotPermitted)
      && if r == S.Done then WithoutNetwork(d.t, db.t, name) else d.t == db.t
  {
    hide S.DropNetwork, S.Within, S.UserId, S.NetworkId;
    var (d, r) := S.DeleteNetwork(db, login, name, fault);
    Ids(db, login, name);
    if r == S.Done {
      var n := S.NetworkId(db.t, name).value;
      S.DropNetworkIsExact(db.t, n, db.t);
      assert IsNetwork(db.t, n, name);
      OnlyNetwork(d.t, db.t, n, name);
      forall other | S.Within(other, db.t) && S.References(other) && !SomeNetwork(other, name)
        ensures S.Within(other, d.t)
      {
        OnlyNetwork(other, db.t, n, name);
        S.DropNetworkIsExact(db.t, n, other);
      }
    }
  }

  /** DELETE_NETWORK is answered OK exactly to the owner, and then the network is gone with what
      hangs on it, and nothing else. */
  lemma DeleteNetworkAnswered(st: State, c: bytes, login: bytes, name: bytes, env: Env)
    requires S.Integrity(st.db) && Live(st, c, login)
    ensures var (t, (st', reply)) := (st.db.t, Handle(st, DeleteNetwork(c, name), env));
      && st'.sessions == st.sessions
      && Code(reply) == (if NetworkLookup in env.faults || !SomeNetwork(t, name) then NO_SUCH_NETWORK
                         else if Write in env.faults then INTERNAL_SERVER_ERROR
                         else if Owns(t, login, name) then OK else NO_PRIVILAGES)
      && if Code(reply) == OK then WithoutNetwork(st'.db.t, t, name) else st'.db.t == t
  {
    hide S.DeleteNetwork, S.UserId, S.NetworkId, S.Integrity, WithoutNetwork, SomeNetwork, Owns;
    LiveHandled(st, c, login, DeleteNetwork(c, name), env);
    Ids(st.db, login, name);
    DeleteNetworkStatement(st.db, login, name, Write in env.faults);
  }

  lemma InviteUserAnswered(st: State, c: bytes, login: bytes, user: bytes, name: bytes, env: Env)
    requires S.Integrity(st.db) && Live(st, c, login)
    ensures var (t, (st', reply)) := (st.db.t, Handle(st, InviteUser(c, user, name), env));
      && st'.sessions == st.sessions
      && Code(reply) == (if NetworkLookup in env.faults || !SomeNetwork(t, name) then NO_SUCH_NETWORK
                         else if UserLookup in env.faults || !SomeUser(t, user) then NO_SUCH_USER
                         else if Write in env.faults then INTERNAL_SERVER_ERROR
                         else if SomeLink(t.invitations, t, user, name) then ALREADY_EXISTS else OK)
      && if Code(reply) != OK then st'.db.t == t
         else exists u: nat, n: nat :: IsUser(t, u, user) && IsNetwork(t, n, name) && st.db.next !in t.invitations
                && st'.db.t == t.(invitations := t.invitations[st.db.next := S.Link(u, n, ())])
  {
    hide S.UserId, S.NetworkId, S.LinkId, S.Unique, S.References, SomeUser, SomeNetwork, SomeLink;
    LiveHandled(st, c, login, InviteUser(c, user, name), env);
    Ids(st.db, user, name);
    Links(st.db, user, name);
    var (u, n) := (S.UserId(st.db.t, user), S.NetworkId(st.db.t, name));
    if u.Some? && n.Some? { assert IsUser(st.db.t, u.value, user) && IsNetwork(st.db.t, n.value, name); }
  }

  lemma Links(db: S.Database, login: bytes, name: bytes)
    requires S.Integrity(db)
    ensures var (t, u, n) := (db.t, S.UserId(db.t, login), S.NetworkId(db.t, name));
      && (SomeLink(t.invitations, t, login, name) <==> S.LinkId(t.invitations, u, n).Some?)
      && (SomeLink(t.servers, t, login, name) <==> S.LinkId(t.servers, u, n).Some?)
      && (SomeLink(t.keys, t, login, name) <==> S.LinkId(t.keys, u, n).Some?)
      && (forall i: nat :: IsLink(t.servers, t, i, login, name) <==> S.LinkId(t.servers, u, n) == Some(i))
      && (forall i: nat :: IsLink(t.keys, t, i, login, name) <==> S.LinkId(t.keys, u, n) == Some(i))
  {
    hide S.References, S.Drawn, S.UserId, S.NetworkId, S.LinkId, S.UniquePairs, SomeLink, IsLink;
    LinkIds(db.t.invitations, db.t, login, name);
    LinkIds(db.t.servers, db.t, login, name);
    LinkIds(db.t.keys, db.t, login, name);
  }

  // ---- Servers and keys ----------------------------------------------------------------------

  /** The network has the flag, or belongs to the session's user. */
  ghost predicate MaySee(t: S.Tables, login: bytes, name: bytes) {
    exists n: nat :: IsNetwork(t, n, name) && (t.networks[n].isPublic || IsUser(t, t.networks[n].owner, login))
  }

  ghost predicate MayServe(t: S.Tables, login: bytes, name: bytes) {
    exists n: nat :: IsNetwork(t, n, name) && (t.networks[n].participable || IsUser(t, t.networks[n].owner, login))
  }

  lemma Rights(db: S.Database, login: bytes, name: bytes)
    requires S.Integrity(db)
    ensures MaySee(db.t, login, name) <==> S.CanSeeNetwork(db, name, login, false)
    ensures MayServe(db.t, login, name) <==> S.CanAddServer(db, login, name, false)
  {
    hide S.Integrity, S.UserId, S.NetworkId;
    Ids(db, login, name);
  }

  lemma UpdateServerAnswered(st: State, c: bytes, login: bytes, name: bytes, port: int32, env: Env)
    requires S.Integrity(st.db) && Live(st, c, login)
    ensures var (t, (st', reply)) := (st.db.t, Handle(st, UpdateServer(c, name, port), env));
      && st'.sessions == st.sessions
      && (reply.ServerUpdated? <==> Code(reply) == OK) && (reply.ServerUpdated? ==> reply.seconds == 1800000)
      && Code(reply) == (if NetworkLookup in env.faults || !SomeNetwork(t, name) then NO_SUCH_NETWORK
                         else if RightsLookup in env.faults || !MayServe(t, login, name) then NO_PRIVILAGES
                         else if Write in env.faults || |env.ip| > 20 then INTERNAL_SERVER_ERROR
                         else if SomeLink(t.servers, t, login, name) then OK
                         else if SecondWrite in env.faults || !SomeUser(t, login) then INTERNAL_SERVER_ERROR else OK)
      && if Code(reply) != OK || SomeLink(t.servers, t, login, name) then st'.db.t == t
         else exists u: nat, n: nat :: IsUser(t, u, login) && IsNetwork(t, n, name) && st.db.next !in t.servers
                && st'.db.t == t.(servers := t.servers[st.db.next :=
                     S.Link(u, n, S.Endpoint(env.ip, port, ToInt32(env.now + 1800000)))])
  {
    hide S.UserId, S.NetworkId, S.LinkId, S.Unique, S.References, S.CanAddServer, SomeUser, SomeNetwork, SomeLink, MayServe;
    LiveHandled(st, c, login, UpdateServer(c, name, port), env);
    Ids(st.db, login, name);
    Links(st.db, login, name);
    Rights(st.db, login, name);
    assert S.CanAddServer(st.db, login, name, RightsLookup in env.faults) <==>
      RightsLookup !in env.faults && S.CanAddServer(st.db, login, name, false) by { RightsFail(st.db, login, name); }
    var (u, n) := (S.UserId(st.db.t, login), S.NetworkId(st.db.t, name));
    if u.Some? && n.Some? { assert IsUser(st.db.t, u.value, login) && IsNetwork(st.db.t, n.value, name); }
  }

  lemma RightsFail(db: S.Database, login: bytes, name: bytes)
    ensures !S.CanAddServer(db, login, name, true) && !S.CanSeeNetwork(db, name, login, true)
  {
  }

  lemma StopServerAnswered(st: State, c: bytes, login: bytes, name: bytes, env: Env)
    requires S.Integrity(st.db) && Live(st, c, login)
    ensures var (t, (st', reply)) := (st.db.t, Handle(st, StopServer(c, name), env));
      && st'.sessions == st.sessions
      && Code(reply) == (if NetworkLookup in env.faults || !SomeNetwork(t, name) then NO_SUCH_NETWORK
                         else if Write in env.faults then INTERNAL_SERVER_ERROR else BAD_REQUEST)
      && if Code(reply) == BAD_REQUEST && SomeLink(t.servers, t, login, name)
         then exists i: nat :: IsLink(t.servers, t, i, login, name) && st'.db.t == t.(servers := t.servers - {i})
         else st'.db.t == t
  {
    hide S.UserId, S.NetworkId, S.LinkId, S.Integrity, SomeUser, SomeNetwork, SomeLink, IsLink;
    LiveHandled(st, c, login, StopServer(c, name), env);
    Ids(st.db, login, name);
    Links(st.db, login, name);
    var i := S.LinkId(st.db.t.servers, S.UserId(st.db.t, login), S.NetworkId(st.db.t, name));
    if i.Some? { assert IsLink(st.db.t.servers, st.db.t, i.value, login, name); }
  }

  lemma SignKeyAnswered(st: State, c: bytes, login: bytes, key: bytes, name: bytes, env: Env)
    requires S.Integrity(st.db) && Live(st, c, login)
    ensures var (t, (st', reply), signed) := (st.db.t, Handle(st, SignKey(c, key, name), env), env.sign(key));
      && st'.sessions == st.sessions
      && (var added := Write !in env.faults && SomeUser(t, login) && SomeNetwork(t, name) && !SomeLink(t.keys, t, login, name);
          && reply == (if signed == [] then Status(BAD_REQUEST)
                       else if added then KeySigned(signed)
                       else if Write !in env.faults && SomeLink(t.keys, t, login, name) then Status(NO_SUCH_USER)
                       else Status(INTERNAL_SERVER_ERROR))
          && if !added then st'.db.t == t
             else exists u: nat, n: nat :: IsUser(t, u, login) && IsNetwork(t, n, name) && st.db.next !in t.keys
                    && st'.db.t == t.(keys := t.keys[st.db.next := S.Link(u, n, signed)]))
  {
    hide S.UserId, S.NetworkId, S.LinkId, S.Unique, S.References, SomeUser, SomeNetwork, SomeLink;
    LiveHandled(st, c, login, SignKey(c, key, name), env);
    Ids(st.db, login, name);
    Links(st.db, login, name);
    var (u, n) := (S.UserId(st.db.t, login), S.NetworkId(st.db.t, name));
    if u.Some? && n.Some? { assert IsUser(st.db.t, u.value, login) && IsNetwork(st.db.t, n.value, name); }
    LinkedIds(st.db.t.keys, u, n);
  }

  lemma LinkedIds<D>(m: map<nat, S.Link<D>>, u: Option<nat>, n: Option<nat>)
    ensures S.LinkId(m, u, n).Some? ==> u.Some? && n.Some?
  {
  }

  lemma UserInfoAnswered(st: State, c: bytes, login: bytes, user: bytes, name: bytes, env: Env)
    requires S.Integrity(st.db) && Live(st, c, login)
    ensures var (t, (st', reply)) := (st.db.t, Handle(st, UserInfo(c, user, name), env));
      && st' == st
      && Code(reply) == (if UserLookup in env.faults || !SomeUser(t, user) then NO_SUCH_USER
                         else if NetworkLookup in env.faults || !SomeNetwork(t, name) then NO_SUCH_NETWORK else OK)
      && (Code(reply) == OK ==>
            && reply.KeyOf?
            && if InfoLookup in env.faults || !SomeLink(t.keys, t, user, name) then reply.publicKey == []
               else exists i: nat :: IsLink(t.keys, t, i, user, name) && reply.publicKey == t.keys[i].data)
  {
    hide S.UserId, S.NetworkId, S.LinkId, S.Integrity, SomeUser, SomeNetwork, SomeLink, IsLink;
    LiveHandled(st, c, login, UserInfo(c, user, name), env);
    Ids(st.db, user, name);
    Links(st.db, user, name);
    var i := S.LinkId(st.db.t.keys, S.UserId(st.db.t, user), S.NetworkId(st.db.t, name));
    if i.Some? { assert IsLink(st.db.t.keys, st.db.t, i.value, user, name); }
  }

  // ---- Lists ---------------------------------------------------------------------------------

  /** A network row that is visible, the user's own, or one the user is invited to. */
  ghost predicate Shown(t: S.Tables, n: nat, login: bytes) {
    && n in t.networks
    && (|| t.networks[n].visible
        || IsUser(t, t.networks[n].owner, login)
        || exists i: nat :: i in t.invitations && t.invitations[i].network == n && IsUser(t, t.invitations[i].user, login))
  }

  /** `x` describes row `n`; the publicity is whatever the unset member holds. */
  ghost predicate Describes(t: S.Tables, n: nat, x: S.NetworkInfo, env: Env) {
    && n in t.networks
    && x.name == t.networks[n].name && x.email == t.networks[n].email && x.protocol == t.networks[n].protocol
    && x.visible == t.networks[n].visible && x.participable == t.networks[n].participable
    && x.publicity == env.publicity(n)
    && IsUser(t, t.networks[n].owner, x.owner)
  }

  lemma InfoDescribes(t: S.Tables, n: nat, x: S.NetworkInfo, env: Env)
    requires S.References(t) && n in t.networks
    ensures x == S.Info(t, n, env.publicity) <==> Describes(t, n, x, env)
  {
  }

  lemma ListedIsShown(db: S.Database, n: nat, login: bytes)
    requires S.Integrity(db)
    ensures S.Listed(db.t, n, login) <==> Shown(db.t, n, login)
    ensures S.Owns(db.t, n, login) <==> n in db.t.networks && IsUser(db.t, db.t.networks[n].owner, login)
  {
    hide S.Drawn, S.UserId, S.Unique;
    Ids(db, login, []);
  }

  lemma ListNetworksAnswered(st: State, c: bytes, login: bytes, env: Env)
    requires S.Integrity(st.db) && Live(st, c, login)
    ensures var (st', reply) := Handle(st, ListNetworks(c), env);
      && st' == st && reply.NetworkList?
      && (forall x :: x in reply.networks <==>
            Listing !in env.faults && exists n: nat :: Shown(st.db.t, n, login) && Describes(st.db.t, n, x, env))
      && forall i, j :: 0 <= i < j < |reply.networks| ==> reply.networks[i].name != reply.networks[j].name
  {
    hide S.Unique, S.References, Shown, Describes;
    LiveHandled(st, c, login, ListNetworks(c), env);
    AllListed(st.db, login, env);
    assert Handle(st, ListNetworks(c), env).1.networks ==
      if Listing in env.faults then [] else S.AllNetworks(st.db.t, login, env.publicity, st.db.next);
  }

  lemma AllListed(db: S.Database, login: bytes, env: Env)
    requires S.Integrity(db)
    ensures var l := S.AllNetworks(db.t, login, env.publicity, db.next);
      && (forall x :: x in l <==> exists n: nat :: Shown(db.t, n, login) && Describes(db.t, n, x, env))
      && forall i, j :: 0 <= i < j < |l| ==> l[i].name != l[j].name
  {
    hide S.Unique, S.References, S.Shows, Shown, Describes;
    S.AllNetworksExact(db, login, env.publicity, db.next);
    forall x
      ensures S.Shows(db.t, login, env.publicity, db.next, x) <==>
        exists n: nat :: Shown(db.t, n, login) && Describes(db.t, n, x, env)
    {
      ShowsRows(db, login, x, env);
    }
  }

  lemma ShowsRows(db: S.Database, login: bytes, x: S.NetworkInfo, env: Env)
    requires S.Integrity(db)
    ensures S.Shows(db.t, login, env.publicity, db.next, x) <==>
      exists n: nat :: Shown(db.t, n, login) && Describes(db.t, n, x, env)
    ensures S.ShowsOwn(db.t, login, env.publicity, db.next, x) <==>
      x.owner == login && exists n: nat :: Describes(db.t, n, x, env)
  {
    hide S.Unique, S.References, S.Listed, S.Owns, S.Info, Shown, Describes;
    var t := db.t;
    OnlyRows(t, login, x, env);
    forall n: nat | n in t.networks
      ensures n < db.next
      ensures S.Listed(t, n, login) && x == S.Info(t, n, env.publicity) <==> Shown(t, n, login) && Describes(t, n, x, env)
      ensures S.Owns(t, n, login) && x == S.Info(t, n, env.publicity) <==> x.owner == login && Describes(t, n, x, env)
    {
      ListedIsShown(db, n, login);
      InfoDescribes(t, n, x, env);
      if Describes(t, n, x, env) { OwnerDescribed(db, n, x, login, env); }
    }
  }

  lemma OwnerDescribed(db: S.Database, n: nat, x: S.NetworkInfo, login: bytes, env: Env)
    requires Describes(db.t, n, x, env)
    ensures x.owner == login <==> IsUser(db.t, db.t.networks[n].owner, login)
  {
  }

  lemma OnlyRows(t: S.Tables, login: bytes, x: S.NetworkInfo, env: Env)
    requires S.References(t)
    ensures forall n: nat :: S.Listed(t, n, login) || S.Owns(t, n, login) || Shown(t, n, login) || Describes(t, n, x, env) ==> n in t.networks
  {
  }

  lemma ListMyNetworksAnswered(st: State, c: bytes, login: bytes, env: Env)
    requires S.Integrity(st.db) && Live(st, c, login)
    ensures var (st', reply) := Handle(st, ListMyNetworks(c), env);
      && st' == st && reply.MyNetworkList?
      && (forall x :: x in reply.networks <==>
            Listing !in env.faults && x.owner == login && exists n: nat :: Describes(st.db.t, n, x, env))
      && forall i, j :: 0 <= i < j < |reply.networks| ==> reply.networks[i].name != reply.networks[j].name
  {
    hide S.Unique, S.References, Describes;
    LiveHandled(st, c, login, ListMyNetworks(c), env);
    OwnListed(st.db, login, env);
    assert Handle(st, ListMyNetworks(c), env).1.networks ==
      if Listing in env.faults then [] else S.UserNetworks(st.db.t, login, env.publicity, st.db.next);
  }

  lemma OwnListed(db: S.Database, login: bytes, env: Env)
    requires S.Integrity(db)
    ensures var l := S.UserNetworks(db.t, login, env.publicity, db.next);
      && (forall x :: x in l <==> x.owner == login && exists n: nat :: Describes(db.t, n, x, env))
      && forall i, j :: 0 <= i < j < |l| ==> l[i].name != l[j].name
  {
    hide S.Unique, S.References, S.ShowsOwn, Describes;
    S.UserNetworksExact(db, login, env.publicity, db.next);
    forall x
      ensures S.ShowsOwn(db.t, login, env.publicity, db.next, x) <==>
        x.owner == login && exists n: nat :: Describes(db.t, n, x, env)
    {
      ShowsRows(db, login, x, env);
    }
  }

  /** The rows of a network's servers with this address. */
  ghost function ServersAt(t: S.Tables, name: bytes, bound: nat, x: S.ServerInfo): set<nat> {
    set s: nat | s in t.servers && s < bound && IsNetwork(t, t.servers[s].network, name)
      && x.network == name && x.ip == t.servers[s].data.ip && x.port == t.servers[s].data.port
  }

  lemma {:induction false} ServersCounted(t: S.Tables, name: bytes, bound: nat, x: S.ServerInfo)
    requires S.Unique(t)
    ensures multiset(S.ServersOf(t, name, bound))[x] == |ServersAt(t, name, bound, x)|
  {
    hide S.Unique, S.NetworkId, IsNetwork;
    if bound > 0 {
      var last: nat := bound - 1;
      ServersCounted(t, name, last, x);
      LastServer(t, name, last, x);
      hide *;
      var l := S.ServersOf(t, name, last);
      assert forall y :: multiset(l + [y]) == multiset(l) + multiset{y};
    }
  }

  lemma LastServer(t: S.Tables, name: bytes, last: nat, x: S.ServerInfo)
    requires S.Unique(t)
    ensures var (front, rows) := (S.ServersOf(t, name, last), ServersAt(t, name, last, x));
      var (l, at) := (S.ServersOf(t, name, last + 1), ServersAt(t, name, last + 1, x));
      if l == front + [x] then at == rows + {last} && last !in rows
      else at == rows && (l == front || exists y :: y != x && l == front + [y])
  {
    hide S.Unique, S.NetworkId, IsNetwork;
    NetworkIds(t, name);
    var (front, l) := (S.ServersOf(t, name, last), S.ServersOf(t, name, last + 1));
    if l != front {
      var row := t.servers[last];
      assert l == front + [S.ServerInfo(name, row.data.ip, row.data.port)];
      assert (front + [x])[|front|] == x;
    }
  }

  /** LIST_SERVERS shows each server of the network, as often as it has rows, to those who may
      see the network. */
  lemma ListServersAnswered(st: State, c: bytes, login: bytes, name: bytes, env: Env)
    requires S.Integrity(st.db) && Live(st, c, login)
    ensures var (t, (st', reply)) := (st.db.t, Handle(st, ListServers(c, name), env));
      && st' == st
      && Code(reply) == (if NetworkLookup in env.faults || !SomeNetwork(t, name) then NO_SUCH_NETWORK
                         else if RightsLookup in env.faults || !MaySee(t, login, name) then NO_PRIVILAGES else OK)
      && (Code(reply) == OK ==>
            && reply.ServerList?
            && forall x :: multiset(reply.servers)[x] ==
                 if Listing in env.faults then 0 else |ServersAt(t, name, st.db.next, x)|)
      && forall s :: s in t.servers ==> s < st.db.next
  {
    hide S.NetworkId, S.CanSeeNetwork, S.ServersOf, S.Unique, S.References, SomeNetwork, MaySee, ServersAt;
    LiveHandled(st, c, login, ListServers(c, name), env);
    Ids(st.db, login, name);
    Rights(st.db, login, name);
    RightsFail(st.db, login, name);
    forall x ensures multiset(S.ServersOf(st.db.t, name, st.db.next))[x] == |ServersAt(st.db.t, name, st.db.next, x)| {
      ServersCounted(st.db.t, name, st.db.next, x);
    }
  }

  /** A clean-up drops the servers whose lifetime ended before the cutoff, and touches nothing else. */
  lemma ServersCleaned(db: S.Database, now: int, ttl: int, fault: bool)
    ensures var t := S.CleanServers(db, now, ttl, fault).t;
      && t == db.t.(servers := t.servers)
      && forall s, e :: s in t.servers && t.servers[s] == e <==>
           s in db.t.servers && db.t.servers[s] == e && (fault || e.data.ttl >= now - ttl)
  {
  }
}
