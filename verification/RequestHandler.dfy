/** `RequestHandler`: the handlers, over a database connector and a session store that they
    change through sequenced calls. */
module RequestHandlers {
  import opened Bytes
  import opened Sessions
  import opened Protocol
  import opened Tracker
  import opened PsqlConnectors
  import S = Statements

  class RequestHandler {
    const db: PsqlConnector
    const sessions: SessionControler

    constructor (db: PsqlConnector, sessions: SessionControler)
      ensures this.db == db && this.sessions == sessions
    {
      this.db, this.sessions := db, sessions;
    }

    ghost predicate Valid()
      reads db, sessions
    {
      db.Valid() && sessions.Valid()
    }

    ghost function Current(): State
      requires Valid()
      reads db, sessions
    {
      State(db.db, sessions.Current())
    }

    /** The switch on the request type. */
    method HandleRequest(req: Request, env: Env) returns (reply: Reply)
      requires Valid()
      modifies db, sessions
      ensures Valid() && (Current(), reply) == Handle(old(Current()), req, env)
    {
      hide HandleLogged, HandleRegister, S.PassHash, S.Integrity;
      match req {
        case Register(u, p, key) => reply := Register(u, p, key, env);
        case Login(u, p) => reply := Login(u, p, env);
        case Logout(c) =>
          var done := sessions.Logout(c);
          assert !done ==> old(sessions.Current()) - {c} == old(sessions.Current());
          reply := Status(if done then OK else NOT_LOGGED);
        case Incomplete(k) => reply := Status(if k == 14 then INTERNAL_SERVER_ERROR else BAD_REQUEST);
        case _ =>
          var login := sessions.GetLogin(req.cookie);
          if login == [] { return Status(NOT_LOGGED); }
          reply := Logged(login, req, env);
      }
    }

    method Register(u: bytes, p: bytes, key: bytes, env: Env) returns (reply: Reply)
      requires Valid()
      modifies db
      ensures Valid() && (Current(), reply) == HandleRegister(old(Current()), u, p, key, env)
    {
      var r := db.CreateUser(u, env.hash(p), Write in env.faults);
      if r != S.Done { return Status(ResponseCode(r, NO_SUCH_USER)); }
      var signed := env.sign(key);
      if signed == [] { return Status(BAD_REQUEST); }
      reply := Registered(signed, env.nodeCertificate);
    }

    method Login(u: bytes, p: bytes, env: Env) returns (reply: Reply)
      requires Valid()
      modifies sessions
      ensures Valid() && (Current(), reply) == Handle(old(Current()), Request.Login(u, p), env)
    {
      var hash := db.GetPassHash(u, HashLookup in env.faults);
      if !env.check(p, hash) { return Status(BAD_CREDENTIALS); }
      sessions.Login(u, env.cookie, env.now);
      reply := LoggedIn(env.cookie, LOGIN_CERTIFICATE);
    }

    /** The requests that need a session, once its login is known. */
    method Logged(login: bytes, req: Request, env: Env) returns (reply: Reply)
      requires Valid() && CookieOf(req).Some? && !req.Logout?
      modifies db, sessions
      ensures Valid() && (Current(), reply) == HandleLogged(old(Current()), login, req, env)
    {
      match req {
        case Unregister(_) =>
          var r := db.RemoveUser(login, Write in env.faults);
          reply := Status(ResponseCode(r, NO_SUCH_USER));
        case RemoveUser(c, _, _) =>
          var r := db.RemoveUser(login, Write in env.faults);
          var _ := sessions.Logout(c);
          reply := Status(ResponseCode(r, NO_SUCH_USER));
        case ListNetworks(_) =>
          var l := db.GetAllNetworks(login, env.publicity, Listing in env.faults);
          reply := NetworkList(l);
        case ListMyNetworks(_) =>
          var l := db.GetUserNetworks(login, env.publicity, Listing in env.faults);
          reply := MyNetworkList(l);
        case CreateNetwork(_, name, _, _, _, _, _) => reply := CreateNetwork(login, NetworkRow(req), env);
        case ChangePassword(_, o, p) =>
          var hash := db.GetPassHash(login, HashLookup in env.faults);
          if !env.check(o, hash) { return Status(BAD_CREDENTIALS); }
          var r := db.ChangePassword(login, env.hash(p), Write in env.faults);
          reply := Status(ResponseCode(r, NO_SUCH_USER));
        case SignKey(_, key, n) =>
          var signed := env.sign(key);
          var r := db.AddKey(login, n, signed, Write in env.faults);
          if signed == [] { return Status(BAD_REQUEST); }
          reply := if r == S.Done then KeySigned(signed) else Status(ResponseCode(r, NO_SUCH_USER));
        case ListServers(_, _) | DeleteNetwork(_, _) | InviteUser(_, _, _) | UserInfo(_, _, _)
          | UpdateServer(_, _, _) | StopServer(_, _) =>
          reply := AboutNetwork(login, req, env);
      }
    }

    method CreateNetwork(login: bytes, row: S.Network, env: Env) returns (reply: Reply)
      requires Valid()
      modifies db
      ensures Valid() && unchanged(sessions)
      ensures var w := S.CreateNetwork(old(db.db), login, row, Write in env.faults);
        && reply == Status(ResponseCode(w.1, NO_SUCH_USER))
        && db.db == if w.1 == S.Done then S.CreateInvitation(w.0, login, row.name, Invitation in env.faults).0 else w.0
    {
      var r := db.CreateNetwork(login, row, Write in env.faults);
      if r == S.Done {
        var _ := db.CreateInvitation(login, row.name, Invitation in env.faults);
      }
      reply := Status(ResponseCode(r, NO_SUCH_USER));
    }

    /** The requests whose first check is that a network, or a user, exists. */
    method AboutNetwork(login: bytes, req: Request, env: Env) returns (reply: Reply)
      requires Valid()
      requires req.ListServers? || req.DeleteNetwork? || req.InviteUser? || req.UserInfo? || req.UpdateServer? || req.StopServer?
      modifies db
      ensures Valid() && (Current(), reply) == HandleLogged(old(Current()), login, req, env)
    {
      if req.UserInfo? {
        var known := db.UserExists(req.username, UserLookup in env.faults);
        if !known { return Status(NO_SUCH_USER); }
      }
      var name := if req.DeleteNetwork? then req.name else req.network;
      var exists_ := db.NetworkExists(name, NetworkLookup in env.faults);
      if !exists_ { return Status(NO_SUCH_NETWORK); }
      match req {
        case ListServers(_, n) =>
          var permitted := db.CanSeeNetwork(n, login, RightsLookup in env.faults);
          if !permitted { return Status(NO_PRIVILAGES); }
          var l := db.GetServers(n, Listing in env.faults);
          reply := ServerList(l);
        case DeleteNetwork(_, n) =>
          var r := db.DeleteNetwork(login, n, Write in env.faults);
          reply := Status(ResponseCode(r, NO_SUCH_NETWORK));
        case InviteUser(_, u, n) =>
          var known := db.UserExists(u, UserLookup in env.faults);
          if !known { return Status(NO_SUCH_USER); }
          var r := db.CreateInvitation(u, n, Write in env.faults);
          reply := Status(ResponseCode(r, NO_SUCH_NETWORK));
        case UserInfo(_, u, n) =>
          var key := db.GetUserInfo(u, n, InfoLookup in env.faults);
          reply := KeyOf(key);
        case UpdateServer(_, n, _) =>
          var permitted := db.CanAddServer(login, n, RightsLookup in env.faults);
          if !permitted { return Status(NO_PRIVILAGES); }
          var r := db.UpdateServer(n, login, ServerRow(req, env), Write in env.faults, SecondWrite in env.faults);
          reply := if r == S.Done then ServerUpdated(SERVER_TTL) else Status(ResponseCode(r, NO_SUCH_USER));
        case StopServer(_, n) =>
          var r := db.DeleteServer(n, login, Write in env.faults);
          reply := Status(ResponseCode(r, BAD_REQUEST));
      }
    }
  }
}
