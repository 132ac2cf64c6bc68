/** `Node`: the client's side of a session with one tracker. */
module Nodes {
  import opened Bytes
  import opened Messages
  import opened Protocol
  import opened ClientTypes

  /** `key` is the certificate request to send, None when the node holds no private key. */
  datatype Operation =
    | LogIn
    | LogOut
    | RegisterUser(key: Option<bytes>)
    | ChangePassword(newPassword: bytes)
    | GetUserInfo(username: bytes, network: bytes)
    | InviteUser(username: bytes, network: bytes)
    | GetNetworksList
    | GetMyNetworks
    | GetServersList(network: bytes)
    | RegisterNetwork(description: NetworkDescription)
    | DeleteNetwork(network: bytes)
    | UpdateServer(network: bytes, port: int32)
    | StopServer(network: bytes)
    | SignKey(key: Option<bytes>, network: bytes)

  /** The members of `Node` and of its connection that its operations read and change. */
  datatype Session = Session(user: MyUser, logged: bool, cookie: bytes, active: bool)

  /** What a call meets outside: whether a new connection opens, the reply that arrives unless
      sending fails, and whether the certificates in it decode. */
  datatype Transport = Transport(connects: bool, reply: Option<Message>, decodes: bool)

  // ---- Requests --------------------------------------------------------------------------

  /** The request an operation sends, if it sends one at all: LOGIN only from a session that is
      not logged, REGISTER only for a user not yet registered, all others only when logged, and
      no certificate request without a private key. */
  function Ask(s: Session, op: Operation): Option<Request> {
    match op
    case LogIn => if s.logged then None else Some(Request.Login(s.user.username, s.user.password))
    case RegisterUser(key) =>
      if s.user.registered || key.None? then None
      else Some(Request.Register(s.user.username, s.user.password, key.value))
    case SignKey(key, _) => if s.logged && key.Some? then Some(Cookied(s, op)) else None
    case _ => if s.logged then Some(Cookied(s, op)) else None
  }

  /** The requests that carry the cookie. */
  function Cookied(s: Session, op: Operation): (r: Request)
    requires !op.LogIn? && !op.RegisterUser? && (op.SignKey? ==> op.key.Some?)
    ensures !r.Incomplete? && !r.Login? && !r.Register? && r.cookie == s.cookie
  {
    match op
    case LogOut => Request.Logout(s.cookie)
    case ChangePassword(p) => Request.ChangePassword(s.cookie, s.user.password, p)
    case GetUserInfo(u, n) => Request.UserInfo(s.cookie, u, n)
    case InviteUser(u, n) => Request.InviteUser(s.cookie, u, n)
    case GetNetworksList => Request.ListNetworks(s.cookie)
    case GetMyNetworks => Request.ListMyNetworks(s.cookie)
    case GetServersList(n) => Request.ListServers(s.cookie, n)
    case RegisterNetwork(d) =>
      Request.CreateNetwork(s.cookie, d.name, d.isPublic, d.listed, d.clientServer, d.creator.email, d.protocol)
    case DeleteNetwork(n) => Request.DeleteNetwork(s.cookie, n)
    case UpdateServer(n, port) => Request.UpdateServer(s.cookie, n, port)
    case StopServer(n) => Request.StopServer(s.cookie, n)
    case SignKey(key, n) => Request.SignKey(s.cookie, key.value, n)
  }

  /** The operation gets as far as a connection and then lacks a private key. */
  predicate KeyMissing(s: Session, op: Operation) {
    (op.RegisterUser? && !s.user.registered && op.key.None?) || (op.SignKey? && s.logged && op.key.None?)
  }

  /** The result of an operation that needs no connection. */
  function Unasked(op: Operation): NodeError {
    if op.LogIn? || op.RegisterUser? then NoError else NotLogged
  }

  // ---- Replies ---------------------------------------------------------------------------

  /** `response_type()`. */
  function ResponseType(m: Message): int { Number(m, 0, OK) }

  /** `login_response().cookie()`, if both are there. */
  function CookieIn(m: Message): Option<bytes> {
    if Has(m, 2) && m.slots[2][0].Sub? && Has(m.slots[2][0].m, 0) then Some(Text(m.slots[2][0].m, 0)) else None
  }

  /** `update_server_response().seconds_to_update()`. */
  function SecondsIn(m: Message): int {
    if Has(m, 7) && m.slots[7][0].Sub? then Number(m.slots[7][0].m, 0, 0) else 0
  }

  /** `getDefaultError`. */
  function DefaultError(code: int): NodeError {
    if code == OK then NoError
    else if code == BAD_CREDENTIALS then BadCredentials
    else if code == BAD_REQUEST then BadRequest
    else if code == NO_PRIVILAGES then NoPrivilages
    else if code == NO_SUCH_USER then NoSuchUser
    else if code == NO_SUCH_NETWORK then NoSuchNetwork
    else if code == BAD_DATA then BadData
    else if code == INTERNAL_SERVER_ERROR then InternalServerError
    else if code == ALREADY_EXISTS then AlreadyExists
    else Other
  }

  /** The response switch of every operation. */
  function Answer(s: Session, op: Operation, m: Message, decodes: bool): (Session, NodeError) {
    var code := ResponseType(m);
    if op.LogIn? then
      if code != OK then (s, DefaultError(code))
      else
        match CookieIn(m)
        case Some(c) => (s.(cookie := c, logged := true, user := s.user.(registered := true)), NoError)
        case None => (s, BadServerResponse)
    else if op.LogOut? then
      if code == OK then (s.(logged := false, cookie := []), NoError)
      else if code == NOT_LOGGED then (s.(logged := false), NoError)
      else (s, DefaultError(code))
    else if code == OK then
      var certified := if decodes then NoError else BadServerResponse;
      if op.RegisterUser? then (s.(user := s.user.(registered := true)), certified)
      else if op.ChangePassword? then (s.(user := s.user.(password := op.newPassword)), NoError)
      else if op.SignKey? then (s, certified)
      else (s, NoError)
    else if code == NOT_LOGGED then (s.(logged := false), DefaultError(code))
    else (s, DefaultError(code))
  }

  /** A whole call: its effect, its result, and the request that went out. */
  function Exchange(s: Session, op: Operation, t: Transport): (Session, NodeError, Option<Request>) {
    match Ask(s, op)
    case None =>
      if !KeyMissing(s, op) then (s, Unasked(op), None)
      else if !s.active && !t.connects then (s, NoConnection, None)
      else (s.(active := true), Other, None)
    case Some(r) =>
      if !s.active && !t.connects then (s, NoConnection, None)
      else
        match t.reply
        case None => (s.(active := false), SendError, Some(r))
        case Some(m) =>
          var (d, e) := Answer(s.(active := true), op, m, t.decodes);
          (d, e, Some(r))
  }

  // ---- Certificates ----------------------------------------------------------------------

  /** The key and certificate members of `Node`, as texts. */
  datatype Wallet = Wallet(
    privateKeys: seq<bytes>, freeCerts: seq<bytes>, nodeCerts: seq<bytes>, networkCerts: map<bytes, bytes>)

  /** A string of part `i` of a reply. */
  function PartText(m: Message, i: nat, k: nat): bytes {
    if Has(m, i) && m.slots[i][0].Sub? then Text(m.slots[i][0].m, k) else []
  }

  /** What a call keeps of the certificates it is sent: only those of an OK that decode. */
  function Collect(w: Wallet, s: Session, op: Operation, t: Transport): Wallet {
    if Ask(s, op).None? || (!s.active && !t.connects) || t.reply.None? || ResponseType(t.reply.value) != OK || !t.decodes then w
    else if op.RegisterUser? then
      w.(freeCerts := w.freeCerts + [PartText(t.reply.value, 1, 0)], nodeCerts := w.nodeCerts + [PartText(t.reply.value, 1, 1)])
    else if op.SignKey? then w.(networkCerts := w.networkCerts[op.network := PartText(t.reply.value, 8, 0)])
    else w
  }

  // ---- Lists -----------------------------------------------------------------------------

  /** `getNetworkDescriptionFromProto`. The visibility is never set; the creator's name is also
      taken for its e-mail address. */
  function NetworkFromProto(n: Message, uninitialised: bool): NetworkDescription {
    NetworkDescription(
      Number(n, 3, 1) == 1, uninitialised, Number(n, 4, 5) == 6, Text(n, 5), Text(n, 0), User(Text(n, 1), Text(n, 1)))
  }

  function ServerFromProto(s: Message, network: bytes): ServerDescription {
    ServerDescription(Text(s, 0), network, Text(s, 1))
  }

  /** The sub-messages of the list in part `i` of a reply. */
  function ListIn(m: Message, i: nat): seq<Value> {
    if Has(m, i) && m.slots[i][0].Sub? && |m.slots[i][0].m.slots| > 0 then m.slots[i][0].m.slots[0] else []
  }

  function NetworksIn(vs: seq<Value>, uninitialised: bool): (ds: seq<NetworkDescription>)
    ensures |ds| == |vs|
    ensures forall k :: 0 <= k < |vs| && vs[k].Sub? ==> ds[k] == NetworkFromProto(vs[k].m, uninitialised)
  {
    if vs == [] then []
    else
      var last := vs[|vs| - 1];
      NetworksIn(vs[..|vs| - 1], uninitialised) + [NetworkFromProto(if last.Sub? then last.m else Message([], []), uninitialised)]
  }

  function ServersIn(vs: seq<Value>, network: bytes): (ds: seq<ServerDescription>)
    ensures |ds| == |vs|
    ensures forall k :: 0 <= k < |vs| && vs[k].Sub? ==> ds[k] == ServerFromProto(vs[k].m, network)
  {
    if vs == [] then []
    else
      var last := vs[|vs| - 1];
      ServersIn(vs[..|vs| - 1], network) + [ServerFromProto(if last.Sub? then last.m else Message([], []), network)]
  }

  // ---- The object ------------------------------------------------------------------------

  class Node {
    var description: NodeDescription
    var user: MyUser
    var isLogged: bool
    var cookie: bytes
    var active: bool
    var wallet: Wallet

    constructor (description: NodeDescription, user: MyUser)
      ensures this.description == description && Current() == Session(user, false, [], false)
      ensures wallet == Wallet([], [], [], map[])
    {
      this.description, this.user, this.wallet := description, user, Wallet([], [], [], map[]);
      isLogged, cookie, active := false, [], false;
    }

    ghost function Current(): Session
      reads this
    {
      Session(user, isLogged, cookie, active)
    }

    /** Refused while there is an open connection. The node's own certificates stay. */
    method SetUser(newUser: MyUser) returns (ok: bool)
      modifies this`user, this`isLogged, this`cookie, this`wallet
      ensures ok == !active
      ensures Current() == if ok then Session(newUser, false, [], false) else old(Current())
      ensures wallet == if ok then Wallet([], [], old(wallet).nodeCerts, map[]) else old(wallet)
    {
      if active { return false; }
      user := newUser;
      cookie := [];
      isLogged := false;
      wallet := wallet.(freeCerts := []);
      wallet := wallet.(networkCerts := map[]);
      wallet := wallet.(privateKeys := []);
      ok := true;
    }

    method SetNewDescription(newDescription: NodeDescription) returns (ok: bool)
      modifies this`description
      ensures ok == !active
      ensures description == if ok then newDescription else old(description)
    {
      if active { return false; }
      description := newDescription;
      ok := true;
    }

    /** `connect` unless there is a connection. */
    method Connect(t: Transport) returns (ok: bool)
      modifies this`active
      ensures ok == (old(active) || t.connects) && active == ok
    {
      if !active {
        active := t.connects;
      }
      ok := active;
    }

    method BeforeMessage(t: Transport) returns (e: NodeError)
      modifies this`active
      ensures e == if !isLogged then NotLogged else if old(active) || t.connects then NoError else NoConnection
      ensures active == (old(active) || (isLogged && t.connects))
    {
      if !isLogged { return NotLogged; }
      var ok := Connect(t);
      e := if ok then NoError else NoConnection;
    }

    method LogIn(t: Transport) returns (e: NodeError, ghost sent: Option<Request>)
      modifies this
      ensures description == old(description) && wallet == old(wallet)
      ensures (Current(), e, sent) == Exchange(old(Current()), Operation.LogIn, t)
    {
      sent := None;
      e := NoError;
      if !isLogged {
        var ok := Connect(t);
        if !ok { return NoConnection, None; }
        sent := Some(Request.Login(user.username, user.password));
        if t.reply.None? {
          active := false;
          return SendError, sent;
        }
        var response := t.reply.value;
        if ResponseType(response) == OK {
          var c := CookieIn(response);
          if c.Some? {
            cookie := c.value;
            isLogged := true;
            if !user.registered { user := user.(registered := true); }
          } else {
            e := BadServerResponse;
          }
        } else {
          e := DefaultError(ResponseType(response));
        }
      }
    }

    method LogOut(t: Transport) returns (e: NodeError, ghost sent: Option<Request>)
      modifies this
      ensures description == old(description) && wallet == old(wallet)
      ensures (Current(), e, sent) == Exchange(old(Current()), Operation.LogOut, t)
    {
      sent := None;
      e := BeforeMessage(t);
      if e != NoError { return; }
      sent := Some(Request.Logout(cookie));
      if t.reply.None? {
        active := false;
        return SendError, sent;
      }
      var code := ResponseType(t.reply.value);
      if code == OK {
        isLogged := false;
        cookie := [];
      } else if code == NOT_LOGGED {
        isLogged := false;
      } else {
        e := DefaultError(code);
      }
    }

    /** `pkcs10` is the certificate request made with the first private key. */
    method RegisterUser(pkcs10: bytes, t: Transport) returns (e: NodeError, ghost sent: Option<Request>)
      modifies this
      ensures description == old(description)
      ensures var op := Operation.RegisterUser(if old(wallet).privateKeys == [] then None else Some(pkcs10));
        && (Current(), e, sent) == Exchange(old(Current()), op, t)
        && wallet == Collect(old(wallet), old(Current()), op, t)
    {
      hide ResponseType, DefaultError, PartText;
      sent := None;
      if user.registered { return NoError, None; }
      var ok := Connect(t);
      if !ok { return NoConnection, None; }
      if wallet.privateKeys == [] { return Other, None; }
      sent := Some(Request.Register(user.username, user.password, pkcs10));
      if t.reply.None? {
        active := false;
        return SendError, sent;
      }
      var response := t.reply.value;
      var code := ResponseType(response);
      if code == OK {
        user := user.(registered := true);
        if t.decodes {
          wallet := wallet.(nodeCerts := wallet.nodeCerts + [PartText(response, 1, 1)]);
          wallet := wallet.(freeCerts := wallet.freeCerts + [PartText(response, 1, 0)]);
          e := NoError;
        } else {
          e := BadServerResponse;
        }
      } else {
        if code == NOT_LOGGED { isLogged := false; }
        e := DefaultError(code);
      }
    }

    /** `pkcs10` is the certificate request for the key given. */
    method SignKey(pkcs10: bytes, network: bytes, t: Transport) returns (e: NodeError, ghost sent: Option<Request>)
      modifies this
      ensures description == old(description)
      ensures var op := Operation.SignKey(if old(wallet).privateKeys == [] then None else Some(pkcs10), network);
        && (Current(), e, sent) == Exchange(old(Current()), op, t)
        && wallet == Collect(old(wallet), old(Current()), op, t)
    {
      hide ResponseType, DefaultError, PartText;
      sent := None;
      e := BeforeMessage(t);
      if e != NoError { return; }
      if wallet.privateKeys == [] { return Other, None; }
      sent := Some(Request.SignKey(cookie, pkcs10, network));
      if t.reply.None? {
        active := false;
        return SendError, sent;
      }
      var response := t.reply.value;
      var code := ResponseType(response);
      if code == OK {
        if t.decodes {
          wallet := wallet.(networkCerts := wallet.networkCerts[network := PartText(response, 8, 0)]);
        } else {
          e := BadServerResponse;
        }
      } else {
        if code == NOT_LOGGED { isLogged := false; }
        e := DefaultError(code);
      }
    }

    /** The operations that differ only in what they do with an OK. */
    method Perform(op: Operation, t: Transport) returns (e: NodeError, ghost sent: Option<Request>)
      requires !op.LogIn? && !op.LogOut? && !op.RegisterUser? && !op.SignKey?
      modifies this
      ensures description == old(description) && wallet == old(wallet)
      ensures (Current(), e, sent) == Exchange(old(Current()), op, t)
    {
      hide Cookied, ResponseType, CookieIn, DefaultError;
      sent := None;
      var session := Session(user, isLogged, cookie, active);
      e := BeforeMessage(t);
      if e != NoError { return; }
      sent := Some(Cookied(session, op));
      if t.reply.None? {
        active := false;
        return SendError, sent;
      }
      var code := ResponseType(t.reply.value);
      if code == OK {
        if op.ChangePassword? {
          user := user.(password := op.newPassword);
        }
      } else {
        if code == NOT_LOGGED { isLogged := false; }
        e := DefaultError(code);
      }
    }

    method UpdateServer(network: bytes, port: int32, t: Transport)
      returns (e: NodeError, seconds: int, ghost sent: Option<Request>)
      modifies this
      ensures (Current(), e, sent) == Exchange(old(Current()), Operation.UpdateServer(network, port), t)
      ensures description == old(description) && wallet == old(wallet)
      ensures seconds == if e == NoError && t.reply.Some? then SecondsIn(t.reply.value) else 0
    {
      seconds := 0;
      e, sent := Perform(Operation.UpdateServer(network, port), t);
      if e == NoError && t.reply.Some? { seconds := SecondsIn(t.reply.value); }
    }

    /** Of the user only the name asked for is returned; the key is not read. */
    method GetUserInfo(username: bytes, network: bytes, t: Transport)
      returns (e: NodeError, info: User, ghost sent: Option<Request>)
      modifies this
      ensures (Current(), e, sent) == Exchange(old(Current()), Operation.GetUserInfo(username, network), t)
      ensures description == old(description) && wallet == old(wallet)
      ensures info == if e == NoError then User(username, []) else User([], [])
    {
      info := User([], []);
      e, sent := Perform(Operation.GetUserInfo(username, network), t);
      if e == NoError { info := User(username, []); }
    }

    /** `getNetworksList` and `getMyNetworks`. */
    method GetNetworks(mine: bool, uninitialised: bool, t: Transport)
      returns (e: NodeError, networks: seq<NetworkDescription>, ghost sent: Option<Request>)
      modifies this
      ensures var op := if mine then Operation.GetMyNetworks else Operation.GetNetworksList;
        (Current(), e, sent) == Exchange(old(Current()), op, t)
      ensures description == old(description) && wallet == old(wallet)
      ensures networks == if e == NoError && t.reply.Some?
                          then NetworksIn(ListIn(t.reply.value, if mine then 4 else 3), uninitialised) else []
    {
      networks := [];
      e, sent := Perform(if mine then Operation.GetMyNetworks else Operation.GetNetworksList, t);
      if e == NoError && t.reply.Some? {
        var list := ListIn(t.reply.value, if mine then 4 else 3);
        for i := 0 to |list|
          invariant networks == NetworksIn(list[..i], uninitialised)
        {
          assert list[..i + 1][..i] == list[..i];
          networks := networks + [NetworkFromProto(if list[i].Sub? then list[i].m else Message([], []), uninitialised)];
        }
        assert list[..|list|] == list;
      }
    }

    method GetServersList(network: bytes, t: Transport)
      returns (e: NodeError, servers: seq<ServerDescription>, ghost sent: Option<Request>)
      modifies this
      ensures (Current(), e, sent) == Exchange(old(Current()), Operation.GetServersList(network), t)
      ensures description == old(description) && wallet == old(wallet)
      ensures servers == if e == NoError && t.reply.Some? then ServersIn(ListIn(t.reply.value, 5), network) else []
    {
      servers := [];
      e, sent := Perform(Operation.GetServersList(network), t);
      if e == NoError && t.reply.Some? {
        var list := ListIn(t.reply.value, 5);
        for i := 0 to |list|
          invariant servers == ServersIn(list[..i], network)
        {
          assert list[..i + 1][..i] == list[..i];
          servers := servers + [ServerFromProto(if list[i].Sub? then list[i].m else Message([], []), network)];
        }
        assert list[..|list|] == list;
      }
    }
  }
}
