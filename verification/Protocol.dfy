/** The two sides' message factories: requests and replies as the programs mean them, and the
    protocol messages that carry them. */
module Protocol {
  import opened Bytes
  import opened Messages
  import opened Codec
  import opened Sp2pProtocol
  import opened Statements

  // ---- Envelopes -------------------------------------------------------------------------

  /** Both top-level messages are a required enumeration followed by optional parts. */
  ghost predicate EnvelopeSchema(s: Schema) {
    && WfSchema(s) && |s.fields| > 0 && s.fields[0].kind.KEnum? && s.fields[0].lbl == Required
    && forall i :: 0 < i < |s.fields| ==> s.fields[i].kind.KMessage? && s.fields[i].lbl == Optional
  }

  lemma EnvelopeSchemas()
    ensures EnvelopeSchema(NODE_MESSAGE) && EnvelopeSchema(CLIENT_MESSAGE)
  {
    NodeMessageIsWf();
    ClientMessageIsWf();
    hide WfSchema;
  }

  /** A message fit to be sent, but for its size. */
  ghost predicate Complete(s: Schema, m: Message) {
    Typed(s, m) && Canonical(s, m) && Initialized(s, m)
  }

  ghost predicate CompleteSlot(f: Field, vs: seq<Value>) {
    && (f.lbl != Repeated ==> |vs| <= 1)
    && (f.lbl == Required ==> vs != [])
    && (forall v :: v in vs ==> TypedValue(f, v) && (f.kind.KMessage? ==> Complete(f.kind.schema, v.m)))
  }

  lemma Assembled(s: Schema, m: Message)
    requires |m.slots| == |s.fields| && m.unknown == []
    requires forall i :: 0 <= i < |s.fields| ==> CompleteSlot(s.fields[i], m.slots[i])
    ensures Complete(s, m)
  {
    forall i | 0 <= i < |s.fields|
      ensures TypedSlot(s.fields[i], m.slots[i]) && InitializedSlot(s.fields[i], m.slots[i])
    {
      assert CompleteSlot(s.fields[i], m.slots[i]);
    }
    forall i, v | 0 <= i < |s.fields| && v in m.slots[i] && s.fields[i].kind.KMessage?
      ensures CanonicalSub(s.fields[i].kind.schema, v)
    {
      assert CompleteSlot(s.fields[i], m.slots[i]);
    }
  }

  function Bare(s: Schema, code: int): (m: Message)
    requires |s.fields| > 0 && s.fields[0].kind.KEnum? && code in s.fields[0].kind.valid
    ensures Typed(s, m)
  {
    Put(s, Empty(s), 0, Int(code))
  }

  function Envelope(s: Schema, code: int, i: nat, part: Message): (m: Message)
    requires |s.fields| > 0 && s.fields[0].kind.KEnum? && code in s.fields[0].kind.valid
    requires 0 < i < |s.fields| && s.fields[i].kind.KMessage? && Typed(s.fields[i].kind.schema, part)
    ensures Typed(s, m)
  {
    Put(s, Bare(s, code), i, Sub(part))
  }

  lemma BareIsComplete(s: Schema, code: int)
    requires EnvelopeSchema(s) && code in s.fields[0].kind.valid
    ensures Complete(s, Bare(s, code)) && Bare(s, code).slots[0] == [Int(code)]
  {
    Assembled(s, Bare(s, code));
  }

  lemma EnvelopeIsComplete(s: Schema, code: int, i: nat, part: Message)
    requires EnvelopeSchema(s) && code in s.fields[0].kind.valid
    requires 0 < i < |s.fields| && Complete(s.fields[i].kind.schema, part)
    ensures var m := Envelope(s, code, i, part);
      && Complete(s, m) && m.slots[0] == [Int(code)] && m.slots[i] == [Sub(part)]
  {
    var m := Envelope(s, code, i, part);
    forall j | 0 <= j < |s.fields| ensures CompleteSlot(s.fields[j], m.slots[j]) {
      assert j != i && j != 0 ==> m.slots[j] == [];
    }
    Assembled(s, m);
  }

  // ---- Parts made of strings ---------------------------------------------------------------

  ghost predicate TextSchema(s: Schema) {
    forall i :: 0 <= i < |s.fields| ==> s.fields[i].kind.KString? && s.fields[i].lbl != Repeated
  }

  /** The first fields of a part, set in order. */
  function Texts(s: Schema, parts: seq<bytes>): (m: Message)
    requires |parts| <= |s.fields|
    ensures |m.slots| == |s.fields| && m.unknown == []
    ensures forall i :: 0 <= i < |parts| ==> m.slots[i] == [Str(parts[i])]
    ensures forall i :: |parts| <= i < |s.fields| ==> m.slots[i] == []
  {
    Message(seq(|s.fields|, i => if 0 <= i < |parts| then [Str(parts[i])] else []), [])
  }

  lemma TextsAreComplete(s: Schema, parts: seq<bytes>)
    requires TextSchema(s) && |parts| <= |s.fields|
    requires forall i :: |parts| <= i < |s.fields| ==> s.fields[i].lbl != Required
    ensures Complete(s, Texts(s, parts))
  {
    Assembled(s, Texts(s, parts));
  }

  // ---- Replies -----------------------------------------------------------------------------

  const OK := 200
  const INTERNAL_SERVER_ERROR := 400
  const BAD_REQUEST := 500
  const NO_PRIVILAGES := 501
  const NOT_LOGGED := 502
  const BAD_CREDENTIALS := 503
  const NO_SUCH_USER := 504
  const NO_SUCH_NETWORK := 505
  const BAD_DATA := 506
  const ALREADY_EXISTS := 507

  datatype Reply =
    | Status(code: int)
    | Registered(userCertificate: bytes, nodeCertificate: bytes)
    | LoggedIn(cookie: bytes, certificate: bytes)
    | NetworkList(networks: seq<NetworkInfo>)
    | MyNetworkList(networks: seq<NetworkInfo>)
    | ServerList(servers: seq<ServerInfo>)
    | KeyOf(publicKey: bytes)
    | ServerUpdated(seconds: int32)
    | KeySigned(userCertificate: bytes)

  /** The response type of the message that carries a reply. */
  function Code(r: Reply): int {
    if r.Status? then r.code else OK
  }

  function NetworkMessage(n: NetworkInfo): (m: Message)
  {
    Message([
      [Str(n.name)], [Str(n.owner)], [Str(n.email)],
      [Int(if n.publicity then 1 else 2)], [Int(if n.participable then 6 else 5)],
      [Str(n.protocol)]], [])
  }

  /** `set_username` is given the network's name. */
  function ServerMessage(s: ServerInfo): (m: Message)
  {
    Message([[Str(s.network)], [Str(s.ip)], [Int(s.port)]], [])
  }

  lemma NetworkIsComplete(n: NetworkInfo)
    ensures Complete(NETWORK, NetworkMessage(n))
  {
    Assembled(NETWORK, NetworkMessage(n));
  }

  lemma ServerIsComplete(s: ServerInfo)
    ensures Complete(SERVER, ServerMessage(s))
  {
    Assembled(SERVER, ServerMessage(s));
  }

  function NetworkValues(l: seq<NetworkInfo>): (vs: seq<Value>)
    ensures |vs| == |l| && forall i :: 0 <= i < |l| ==> vs[i] == Sub(NetworkMessage(l[i]))
  {
    if l == [] then [] else NetworkValues(l[..|l| - 1]) + [Sub(NetworkMessage(l[|l| - 1]))]
  }

  function ServerValues(l: seq<ServerInfo>): (vs: seq<Value>)
    ensures |vs| == |l| && forall i :: 0 <= i < |l| ==> vs[i] == Sub(ServerMessage(l[i]))
  {
    if l == [] then [] else ServerValues(l[..|l| - 1]) + [Sub(ServerMessage(l[|l| - 1]))]
  }

  /** The part of the reply beside its response type, and the field that holds it. */
  function ReplyPart(r: Reply): (p: (nat, Message))
    requires !r.Status?
    ensures 0 < p.0 < 9
  {
    match r
    case Registered(u, n) => (1, Texts(NODE_REGISTER, [u, n]))
    case LoggedIn(c, n) => (2, Texts(NODE_LOGIN, [c, n]))
    case NetworkList(l) => (3, Message([NetworkValues(l)], []))
    case MyNetworkList(l) => (4, Message([NetworkValues(l)], []))
    case ServerList(l) => (5, Message([ServerValues(l)], []))
    case KeyOf(k) => (6, Texts(NODE_USER_INFO, [k]))
    case ServerUpdated(s) => (7, Message([[Int(s)]], []))
    case KeySigned(u) => (8, Texts(NODE_SIGN_KEY, [u]))
  }

  /** A message whose only field is a list of sub-messages. */
  lemma ListIsComplete(entry: Schema, vs: seq<Value>)
    requires forall v :: v in vs ==> v.Sub? && Complete(entry, v.m)
    ensures Complete(Schema([Field(1, KMessage(entry), Repeated)]), Message([vs], []))
  {
    Assembled(Schema([Field(1, KMessage(entry), Repeated)]), Message([vs], []));
  }

  lemma NetworkListIsComplete(l: seq<NetworkInfo>)
    ensures Complete(NETWORK_LIST, Message([NetworkValues(l)], []))
  {
    hide Complete;
    forall v | v in NetworkValues(l) ensures v.Sub? && Complete(NETWORK, v.m) {
      var i :| 0 <= i < |l| && v == Sub(NetworkMessage(l[i]));
      NetworkIsComplete(l[i]);
    }
    ListIsComplete(NETWORK, NetworkValues(l));
  }

  lemma ServerListIsComplete(l: seq<ServerInfo>)
    ensures Complete(SERVER_LIST, Message([ServerValues(l)], []))
  {
    hide Complete;
    forall v | v in ServerValues(l) ensures v.Sub? && Complete(SERVER, v.m) {
      var i :| 0 <= i < |l| && v == Sub(ServerMessage(l[i]));
      ServerIsComplete(l[i]);
    }
    ListIsComplete(SERVER, ServerValues(l));
  }

  lemma ReplyPartIsComplete(r: Reply)
    requires !r.Status?
    ensures var (i, m) := ReplyPart(r);
      NODE_MESSAGE.fields[i].kind.KMessage? && Complete(NODE_MESSAGE.fields[i].kind.schema, m)
  {
    match r
    case Registered(u, n) => TextsAreComplete(NODE_REGISTER, [u, n]);
    case LoggedIn(c, n) => TextsAreComplete(NODE_LOGIN, [c, n]);
    case NetworkList(l) => NetworkListIsComplete(l);
    case MyNetworkList(l) => NetworkListIsComplete(l);
    case ServerList(l) => ServerListIsComplete(l);
    case KeyOf(k) => TextsAreComplete(NODE_USER_INFO, [k]);
    case ServerUpdated(s) => Assembled(NODE_UPDATE_SERVER, Message([[Int(s)]], []));
    case KeySigned(u) => TextsAreComplete(NODE_SIGN_KEY, [u]);
  }

  /** `NodeMessageFactory`: the message that carries a reply. */
  ghost function ReplyMessage(r: Reply): (m: Message)
    requires Code(r) in RESPONSE_TYPES
    ensures Complete(NODE_MESSAGE, m) && m.slots[0] == [Int(Code(r))]
    ensures !r.Status? ==> m.slots[ReplyPart(r).0] == [Sub(ReplyPart(r).1)]
  {
    EnvelopeSchemas();
    if r.Status? then
      BareIsComplete(NODE_MESSAGE, r.code);
      Bare(NODE_MESSAGE, r.code)
    else
      ReplyPartIsComplete(r);
      EnvelopeIsComplete(NODE_MESSAGE, OK, ReplyPart(r).0, ReplyPart(r).1);
      Envelope(NODE_MESSAGE, OK, ReplyPart(r).0, ReplyPart(r).1)
  }

  // ---- Requests ----------------------------------------------------------------------------

  /** A request as `handleRequest` sees it. `Incomplete` is one whose sub-message, or a field
      its handler asks for, is missing. */
  datatype Request =
    | Register(username: bytes, password: bytes, publicKey: bytes)
    | Unregister(cookie: bytes)
    | Login(username: bytes, password: bytes)
    | Logout(cookie: bytes)
    | ListNetworks(cookie: bytes)
    | ListMyNetworks(cookie: bytes)
    | ListServers(cookie: bytes, network: bytes)
    | CreateNetwork(cookie: bytes, name: bytes, isPublic: bool, visible: bool, participable: bool, email: bytes, protocol: bytes)
    | DeleteNetwork(cookie: bytes, name: bytes)
    | InviteUser(cookie: bytes, username: bytes, network: bytes)
    | RemoveUser(cookie: bytes, username: bytes, network: bytes)
    | UserInfo(cookie: bytes, username: bytes, network: bytes)
    | UpdateServer(cookie: bytes, network: bytes, port: int32)
    | StopServer(cookie: bytes, network: bytes)
    | SignKey(cookie: bytes, publicKey: bytes, network: bytes)
    | ChangePassword(cookie: bytes, oldPassword: bytes, newPassword: bytes)
    | Incomplete(requestType: int)

  /** The client's request builders: request type, and the part with its fields set. */
  function RequestPart(r: Request): (p: (nat, Message))
    requires !r.Incomplete?
    ensures p.0 < 16
  {
    match r
    case Register(u, p, k) => (0, Texts(CLIENT_REGISTER, [u, p, k]))
    case Unregister(c) => (1, Texts(COOKIE_ONLY, [c]))
    case Login(u, p) => (2, Texts(CLIENT_LOGIN, [u, p]))
    case Logout(c) => (3, Texts(COOKIE_ONLY, [c]))
    case ListNetworks(c) => (4, Texts(COOKIE_ONLY, [c]))
    case ListMyNetworks(c) => (5, Texts(COOKIE_ONLY, [c]))
    case ListServers(c, n) => (6, Texts(COOKIE_AND_NAME, [c, n]))
    case CreateNetwork(c, n, a, v, p, e, pr) =>
      (7, Message([[Str(c)], [Str(n)], [Int(if a then 1 else 2)], [Int(if v then 3 else 4)],
                   [Int(if p then 6 else 5)], [Str(e)], [Str(pr)]], []))
    case DeleteNetwork(c, n) => (8, Texts(COOKIE_AND_NAME, [c, n]))
    case InviteUser(c, u, n) => (9, Texts(COOKIE_USER_NETWORK, [c, u, n]))
    case RemoveUser(c, u, n) => (10, Texts(COOKIE_USER_NETWORK, [c, u, n]))
    case UserInfo(c, u, n) => (11, Texts(COOKIE_USER_NETWORK, [c, u, n]))
    case UpdateServer(c, n, port) => (12, Message([[Str(c)], [Str(n)], [Int(port)]], []))
    case StopServer(c, n) => (13, Texts(COOKIE_AND_NAME, [c, n]))
    case SignKey(c, k, n) => (14, Texts(COOKIE_AND_OPTIONAL, [c, k, n]))
    case ChangePassword(c, o, n) => (15, Texts(COOKIE_AND_OPTIONAL, [c, o, n]))
  }

  lemma RequestPartIsComplete(r: Request)
    requires !r.Incomplete?
    ensures var (k, m) := RequestPart(r);
      CLIENT_MESSAGE.fields[k + 1].kind.KMessage? && Complete(CLIENT_MESSAGE.fields[k + 1].kind.schema, m)
  {
    hide *;
    if r.CreateNetwork? {
      CreateNetworkRequest(r);
    } else if r.UpdateServer? {
      UpdateServerRequest(r);
    } else {
      TextRequest(r);
      var (k, m) := RequestPart(r);
      PartSchemas(k);
      TextsFill(CLIENT_MESSAGE.fields[k + 1].kind.schema, m);
    }
  }

  lemma CreateNetworkRequest(r: Request)
    requires r.CreateNetwork?
    ensures RequestPart(r).0 == 7 && CLIENT_MESSAGE.fields[8].kind == KMessage(CREATE_NETWORK)
    ensures Complete(CREATE_NETWORK, RequestPart(r).1)
  {
    Assembled(CREATE_NETWORK, RequestPart(r).1);
  }

  lemma UpdateServerRequest(r: Request)
    requires r.UpdateServer?
    ensures RequestPart(r).0 == 12 && CLIENT_MESSAGE.fields[13].kind == KMessage(UPDATE_SERVER)
    ensures Complete(UPDATE_SERVER, RequestPart(r).1)
  {
    Assembled(UPDATE_SERVER, RequestPart(r).1);
  }

  lemma TextsFill(s: Schema, m: Message)
    requires TextSchema(s) && |m.slots| == |s.fields| && m.unknown == []
    requires forall i :: 0 <= i < |s.fields| ==> |m.slots[i]| == 1 && m.slots[i][0].Str?
    ensures Complete(s, m)
  {
    Assembled(s, m);
  }

  /** Requests made of strings fill their fields in order. */
  lemma TextRequest(r: Request)
    requires !r.Incomplete? && !r.CreateNetwork? && !r.UpdateServer?
    ensures |CLIENT_MESSAGE.fields| == 17
    ensures var (k, m) := RequestPart(r);
      && k != 7 && k != 12 && CLIENT_MESSAGE.fields[k + 1].kind.KMessage?
      && var s := CLIENT_MESSAGE.fields[k + 1].kind.schema;
         |m.slots| == |s.fields| && m.unknown == []
         && forall i :: 0 <= i < |s.fields| ==> |m.slots[i]| == 1 && m.slots[i][0].Str?
  {
  }

  lemma PartSchemas(k: nat)
    requires k < 16 && k != 7 && k != 12
    ensures CLIENT_MESSAGE.fields[k + 1].kind.KMessage? && TextSchema(CLIENT_MESSAGE.fields[k + 1].kind.schema)
  {
  }

  ghost function RequestMessage(r: Request): (m: Message)
    requires !r.Incomplete?
    ensures Complete(CLIENT_MESSAGE, m)
    ensures m.slots[0] == [Int(RequestPart(r).0)] && m.slots[RequestPart(r).0 + 1] == [Sub(RequestPart(r).1)]
  {
    EnvelopeSchemas();
    RequestPartIsComplete(r);
    EnvelopeIsComplete(CLIENT_MESSAGE, RequestPart(r).0, RequestPart(r).0 + 1, RequestPart(r).1);
    Envelope(CLIENT_MESSAGE, RequestPart(r).0, RequestPart(r).0 + 1, RequestPart(r).1)
  }

  // ---- Reading requests --------------------------------------------------------------------

  /** `has_x()`. */
  predicate Has(m: Message, i: nat) { i < |m.slots| && m.slots[i] != [] }

  /** `x()` for a string, the empty one when it is not set. */
  function Text(m: Message, i: nat): bytes {
    if Has(m, i) && m.slots[i][0].Str? then m.slots[i][0].s else []
  }

  /** `x()` for a number or an enumeration, its default when it is not set. */
  function Number(m: Message, i: nat, default: int): int {
    if Has(m, i) && m.slots[i][0].Int? then m.slots[i][0].i else default
  }

  /** The switch of `handleRequest` with the tests each handler makes first. */
  function ReadRequest(m: Message): Request {
    var k := Number(m, 0, 0);
    if k < 0 || k >= 16 || !Has(m, k + 1) || !m.slots[k + 1][0].Sub? then Incomplete(k)
    else
      var p := m.slots[k + 1][0].m;
      var c := Text(p, 0);
      if k <= 9 && (!Has(p, 0) || (k in {0, 2, 6, 7, 8, 9} && !Has(p, 1)) || (k in {0, 7, 9} && !Has(p, 2))
                    || (k == 7 && (!Has(p, 3) || !Has(p, 4)))) then Incomplete(k)
      else match k
        case 0 => Register(c, Text(p, 1), Text(p, 2))
        case 1 => Unregister(c)
        case 2 => Login(c, Text(p, 1))
        case 3 => Logout(c)
        case 4 => ListNetworks(c)
        case 5 => ListMyNetworks(c)
        case 6 => ListServers(c, Text(p, 1))
        case 7 => CreateNetwork(c, Text(p, 1), Number(p, 2, 1) == 1, Number(p, 3, 3) == 3, Number(p, 4, 5) == 6,
                                Text(p, 5), Text(p, 6))
        case 8 => DeleteNetwork(c, Text(p, 1))
        case 9 => InviteUser(c, Text(p, 1), Text(p, 2))
        case 10 => RemoveUser(c, Text(p, 1), Text(p, 2))
        case 11 => UserInfo(c, Text(p, 1), Text(p, 2))
        case 12 => UpdateServer(c, Text(p, 1), ToInt32(Number(p, 2, 0)))
        case 13 => StopServer(c, Text(p, 1))
        case 14 => SignKey(c, Text(p, 1), Text(p, 2))
        case _ => ChangePassword(c, Text(p, 1), Text(p, 2))
  }

  /** The request with this type and part. */
  ghost predicate Carries(m: Message, r: Request)
    requires !r.Incomplete?
  {
    var (k, p) := RequestPart(r);
    k + 1 < |m.slots| && m.slots[0] == [Int(k)] && m.slots[k + 1] == [Sub(p)]
  }

  lemma ReadSessionRequest(m: Message, r: Request)
    requires !r.Incomplete? && RequestPart(r).0 < 6 && Carries(m, r)
    ensures ReadRequest(m) == r
  {
  }

  lemma ReadNetworkRequest(m: Message, r: Request)
    requires !r.Incomplete? && 6 <= RequestPart(r).0 < 11 && Carries(m, r)
    ensures ReadRequest(m) == r
  {
  }

  lemma ReadOtherRequest(m: Message, r: Request)
    requires !r.Incomplete? && 11 <= RequestPart(r).0 && Carries(m, r)
    ensures ReadRequest(m) == r
  {
  }

  lemma ReadRequestOfMessage(r: Request)
    requires !r.Incomplete?
    ensures ReadRequest(RequestMessage(r)) == r
  {
    hide RequestMessage, RequestPart, ReadRequest, Canonical, Initialized;
    var m := RequestMessage(r);
    assert Carries(m, r);
    if RequestPart(r).0 < 6 {
      ReadSessionRequest(m, r);
    } else if RequestPart(r).0 < 11 {
      ReadNetworkRequest(m, r);
    } else {
      ReadOtherRequest(m, r);
    }
  }

  /** What a client's builder makes, serialised and parsed by the tracker, is the request the
      client meant. */
  lemma RequestArrives(r: Request)
    requires !r.Incomplete? && |Serialize(CLIENT_MESSAGE, RequestMessage(r))| < TWO31
    ensures var o := Parse(CLIENT_MESSAGE, Serialize(CLIENT_MESSAGE, RequestMessage(r)));
      o.Some? && ReadRequest(o.value) == r
  {
    ClientMessageIsWf();
    ParseSerialized(CLIENT_MESSAGE, RequestMessage(r));
    ReadRequestOfMessage(r);
    hide ReadRequest, RequestMessage;
  }
}
