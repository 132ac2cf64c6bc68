/** The tracker's transition relation: what one handled request does to the tables and the
    sessions, and what it answers. */
module Tracker {
  import opened Bytes
  import opened Sessions
  import opened Protocol
  import S = Statements

  /** The database calls a handler makes, for saying which of them fail. */
  datatype Call = UserLookup | NetworkLookup | HashLookup | InfoLookup | RightsLookup | Listing
    | Write | SecondWrite | Invitation

  /** What a handler gets from outside: the clock, random strings, cryptography, the peer's
      address, uninitialised members, and the database calls that fail. */
  datatype Env = Env(
    now: int,
    cookie: bytes,
    hash: bytes -> bytes,
    check: (bytes, bytes) -> bool,
    sign: bytes -> bytes,
    nodeCertificate: bytes,
    ip: bytes,
    publicity: nat -> bool,
    faults: set<Call>)

  datatype State = State(db: S.Database, sessions: SessionMap)

  const SERVER_TTL: int32 := 1800000

  const LOGIN_CERTIFICATE: bytes := [110, 111, 116, 105, 109, 112, 108, 101, 109, 101, 110, 116, 101, 100, 121, 101, 116]

  /** The switch on `DB_Response` that every writing handler ends with. */
  function ResponseCode(r: S.Response, notFound: int): int {
    match r
    case Done => OK
    case InternalError => INTERNAL_SERVER_ERROR
    case NotFound => notFound
    case NotPermitted => NO_PRIVILAGES
    case NotUnique => ALREADY_EXISTS
  }

  function Commit(st: State, w: (S.Database, S.Response), notFound: int): (State, Reply) {
    (st.(db := w.0), Status(ResponseCode(w.1, notFound)))
  }

  /** The cookie a request carries, if its type has one. */
  function CookieOf(req: Request): Option<bytes> {
    match req
    case Register(_, _, _) => None
    case Login(_, _) => None
    case Incomplete(_) => None
    case _ => Some(req.cookie)
  }

  function NetworkRow(req: Request): S.Network
    requires req.CreateNetwork?
  {
    S.Network(0, req.name, req.isPublic, req.visible, req.participable, req.email, req.protocol)
  }

  function ServerRow(req: Request, env: Env): S.Endpoint
    requires req.UpdateServer?
  {
    S.Endpoint(env.ip, req.port, ToInt32(env.now + SERVER_TTL))
  }

  /** `handleRequest`. */
  ghost function Handle(st: State, req: Request, env: Env): (State, Reply) {
    match req
    case Register(u, p, key) => HandleRegister(st, u, p, key, env)
    case Login(u, p) =>
      if env.check(p, S.PassHash(st.db, u, HashLookup in env.faults))
      then (st.(sessions := st.sessions[env.cookie := Session(u, env.now)]), LoggedIn(env.cookie, LOGIN_CERTIFICATE))
      else (st, Status(BAD_CREDENTIALS))
    case Logout(c) =>
      if c in st.sessions then (st.(sessions := st.sessions - {c}), Status(OK)) else (st, Status(NOT_LOGGED))
    case Incomplete(k) => (st, Status(if k == 14 then INTERNAL_SERVER_ERROR else BAD_REQUEST))
    case _ =>
      var login := LoginOf(st.sessions, req.cookie);
      if login == [] then (st, Status(NOT_LOGGED)) else HandleLogged(st, login, req, env)
  }

  ghost function HandleRegister(st: State, u: bytes, p: bytes, key: bytes, env: Env): (State, Reply) {
    var w := S.CreateUser(st.db, u, env.hash(p), Write in env.faults);
    if w.1 != S.Done then Commit(st, w, NO_SUCH_USER)
    else if env.sign(key) == [] then (st.(db := w.0), Status(BAD_REQUEST))
    else (st.(db := w.0), Registered(env.sign(key), env.nodeCertificate))
  }

  /** The requests that need a session, once its login is known. */
  ghost function HandleLogged(st: State, login: bytes, req: Request, env: Env): (State, Reply)
    requires CookieOf(req).Some? && !req.Logout?
  {
    var db := st.db;
    match req
    case Unregister(_) => Commit(st, S.RemoveUser(db, login, Write in env.faults), NO_SUCH_USER)
    case ListNetworks(_) => (st, NetworkList(AllNetworksOf(db, login, env)))
    case ListMyNetworks(_) => (st, MyNetworkList(OwnNetworksOf(db, login, env)))
    case ListServers(_, n) =>
      if !S.NetworkExists(db, n, NetworkLookup in env.faults) then (st, Status(NO_SUCH_NETWORK))
      else if !S.CanSeeNetwork(db, n, login, RightsLookup in env.faults) then (st, Status(NO_PRIVILAGES))
      else (st, ServerList(if Listing in env.faults then [] else S.ServersOf(db.t, n, db.next)))
    case CreateNetwork(_, name, _, _, _, _, _) =>
      var w := S.CreateNetwork(db, login, NetworkRow(req), Write in env.faults);
      if w.1 != S.Done then Commit(st, w, NO_SUCH_USER)
      else (st.(db := S.CreateInvitation(w.0, login, name, Invitation in env.faults).0), Status(OK))
    case DeleteNetwork(_, name) =>
      if !S.NetworkExists(db, name, NetworkLookup in env.faults) then (st, Status(NO_SUCH_NETWORK))
      else Commit(st, S.DeleteNetwork(db, login, name, Write in env.faults), NO_SUCH_NETWORK)
    case InviteUser(_, u, n) =>
      if !S.NetworkExists(db, n, NetworkLookup in env.faults) then (st, Status(NO_SUCH_NETWORK))
      else if !S.UserExists(db, u, UserLookup in env.faults) then (st, Status(NO_SUCH_USER))
      else Commit(st, S.CreateInvitation(db, u, n, Write in env.faults), NO_SUCH_NETWORK)
    case RemoveUser(c, _, _) =>
      Commit(st.(sessions := st.sessions - {c}), S.RemoveUser(db, login, Write in env.faults), NO_SUCH_USER)
    case UserInfo(_, u, n) =>
      if !S.UserExists(db, u, UserLookup in env.faults) then (st, Status(NO_SUCH_USER))
      else if !S.NetworkExists(db, n, NetworkLookup in env.faults) then (st, Status(NO_SUCH_NETWORK))
      else (st, KeyOf(S.UserInfo(db, u, n, InfoLookup in env.faults)))
    case UpdateServer(_, n, _) =>
      if !S.NetworkExists(db, n, NetworkLookup in env.faults) then (st, Status(NO_SUCH_NETWORK))
      else if !S.CanAddServer(db, login, n, RightsLookup in env.faults) then (st, Status(NO_PRIVILAGES))
      else
        var w := S.UpdateServer(db, n, login, ServerRow(req, env), Write in env.faults, SecondWrite in env.faults);
        if w.1 == S.Done then (st.(db := w.0), ServerUpdated(SERVER_TTL)) else Commit(st, w, NO_SUCH_USER)
    case StopServer(_, n) =>
      if !S.NetworkExists(db, n, NetworkLookup in env.faults) then (st, Status(NO_SUCH_NETWORK))
      else Commit(st, S.DeleteServer(db, n, login, Write in env.faults), BAD_REQUEST)
    case SignKey(_, key, n) =>
      var w := S.AddKey(db, login, n, env.sign(key), Write in env.faults);
      if env.sign(key) == [] then (st.(db := w.0), Status(BAD_REQUEST))
      else if w.1 == S.Done then (st.(db := w.0), KeySigned(env.sign(key)))
      else Commit(st, w, NO_SUCH_USER)
    case ChangePassword(_, o, p) =>
      if !env.check(o, S.PassHash(db, login, HashLookup in env.faults)) then (st, Status(BAD_CREDENTIALS))
      else Commit(st, S.ChangePassword(db, login, env.hash(p), Write in env.faults), NO_SUCH_USER)
  }

  ghost function AllNetworksOf(db: S.Database, login: bytes, env: Env): seq<S.NetworkInfo> {
    if Listing in env.faults || !S.References(db.t) then [] else S.AllNetworks(db.t, login, env.publicity, db.next)
  }

  ghost function OwnNetworksOf(db: S.Database, login: bytes, env: Env): seq<S.NetworkInfo> {
    if Listing in env.faults || !S.References(db.t) then [] else S.UserNetworks(db.t, login, env.publicity, db.next)
  }

  /** Every reply has one of the protocol's response types, so its message can be built; and
      an OK reply to LOGIN carries the cookie of a session that now exists. */
  lemma RepliesAreWellTyped(st: State, req: Request, env: Env)
    ensures var (st', reply) := Handle(st, req, env);
      && Code(reply) in {OK, INTERNAL_SERVER_ERROR, BAD_REQUEST, NO_PRIVILAGES, NOT_LOGGED, BAD_CREDENTIALS,
                         NO_SUCH_USER, NO_SUCH_NETWORK, ALREADY_EXISTS}
      && (req.Login? && Code(reply) == OK ==>
            reply.LoggedIn? && reply.cookie in st'.sessions && st'.sessions[reply.cookie].login == req.username)
  {
  }
}
