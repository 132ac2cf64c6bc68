/** `NodeMessageFactory`: the tracker builds each reply field by field on a fresh message. */
module NodeMessageFactory {
  import opened Bytes
  import opened Messages
  import opened Sp2pProtocol
  import opened Protocol
  import opened Statements

  /** `errorMesage`, and `badRequestMessage` for its one code. */
  method ErrorMessage(code: int) returns (m: Message)
    requires code in RESPONSE_TYPES
    ensures m == ReplyMessage(Status(code))
  {
    m := Empty(NODE_MESSAGE);
    m := Put(NODE_MESSAGE, m, 0, Int(code));
  }

  /** `set_response_type(OK)` and `set_allocated_...`. */
  method OkWith(i: nat, part: Message) returns (m: Message)
    requires 0 < i < 9 && NODE_MESSAGE.fields[i].kind.KMessage? && Typed(NODE_MESSAGE.fields[i].kind.schema, part)
    ensures m == Envelope(NODE_MESSAGE, OK, i, part)
  {
    hide Typed;
    m := Empty(NODE_MESSAGE);
    m := Put(NODE_MESSAGE, m, 0, Int(OK));
    m := Put(NODE_MESSAGE, m, i, Sub(part));
  }

  method RegisterResponse(userCertificate: bytes, nodeCertificate: bytes) returns (m: Message)
    ensures m == ReplyMessage(Registered(userCertificate, nodeCertificate))
  {
    var register := Empty(NODE_REGISTER);
    register := Put(NODE_REGISTER, register, 0, Str(userCertificate));
    register := Put(NODE_REGISTER, register, 1, Str(nodeCertificate));
    assert register.slots == Texts(NODE_REGISTER, [userCertificate, nodeCertificate]).slots;
    m := OkWith(1, register);
  }

  method LoginResponse(cookie: bytes, certificate: bytes) returns (m: Message)
    ensures m == ReplyMessage(LoggedIn(cookie, certificate))
  {
    var login := Empty(NODE_LOGIN);
    login := Put(NODE_LOGIN, login, 0, Str(cookie));
    login := Put(NODE_LOGIN, login, 1, Str(certificate));
    assert login.slots == Texts(NODE_LOGIN, [cookie, certificate]).slots;
    m := OkWith(2, login);
  }

  method UserInfoResponse(publicKey: bytes) returns (m: Message)
    ensures m == ReplyMessage(KeyOf(publicKey))
  {
    var info := Empty(NODE_USER_INFO);
    info := Put(NODE_USER_INFO, info, 0, Str(publicKey));
    assert info.slots == Texts(NODE_USER_INFO, [publicKey]).slots;
    m := OkWith(6, info);
  }

  method UpdateServerResponse(seconds: int32) returns (m: Message)
    ensures m == ReplyMessage(ServerUpdated(seconds))
  {
    var update := Empty(NODE_UPDATE_SERVER);
    update := Put(NODE_UPDATE_SERVER, update, 0, Int(seconds));
    assert update.slots == [[Int(seconds)]];
    m := OkWith(7, update);
  }

  method SignKeyResponse(userCertificate: bytes) returns (m: Message)
    ensures m == ReplyMessage(KeySigned(userCertificate))
  {
    var signed := Empty(NODE_SIGN_KEY);
    signed := Put(NODE_SIGN_KEY, signed, 0, Str(userCertificate));
    assert signed.slots == Texts(NODE_SIGN_KEY, [userCertificate]).slots;
    m := OkWith(8, signed);
  }

  /** The body of both list loops: one entry, set in the order of the code. */
  method Network(n: NetworkInfo) returns (currentNet: Message)
    ensures currentNet == NetworkMessage(n) && Typed(NETWORK, currentNet)
  {
    currentNet := Empty(NETWORK);
    currentNet := Put(NETWORK, currentNet, 0, Str(n.name));
    currentNet := Put(NETWORK, currentNet, 2, Str(n.email));
    currentNet := Put(NETWORK, currentNet, 1, Str(n.owner));
    if n.publicity {
      currentNet := Put(NETWORK, currentNet, 3, Int(1));
    } else {
      currentNet := Put(NETWORK, currentNet, 3, Int(2));
    }
    if n.participable {
      currentNet := Put(NETWORK, currentNet, 4, Int(6));
    } else {
      currentNet := Put(NETWORK, currentNet, 4, Int(5));
    }
    currentNet := Put(NETWORK, currentNet, 5, Str(n.protocol));
    assert currentNet.slots == NetworkMessage(n).slots;
  }

  method Networks(l: seq<NetworkInfo>) returns (response: Message)
    ensures response == Message([NetworkValues(l)], []) && Typed(NETWORK_LIST, response)
  {
    response := Empty(NETWORK_LIST);
    for i := 0 to |l|
      invariant Typed(NETWORK_LIST, response)
      invariant response == Message([NetworkValues(l[..i])], [])
    {
      var currentNet := Network(l[i]);
      assert l[..i + 1][..i] == l[..i];
      response := Put(NETWORK_LIST, response, 0, Sub(currentNet));
    }
    assert l[..|l|] == l;
  }

  method ListNetworksResponse(l: seq<NetworkInfo>) returns (m: Message)
    ensures m == ReplyMessage(NetworkList(l))
  {
    var response := Networks(l);
    m := OkWith(3, response);
  }

  method ListMyNetworksResponse(l: seq<NetworkInfo>) returns (m: Message)
    ensures m == ReplyMessage(MyNetworkList(l))
  {
    var response := Networks(l);
    m := OkWith(4, response);
  }

  method ListServersResponse(l: seq<ServerInfo>) returns (m: Message)
    ensures m == ReplyMessage(ServerList(l))
  {
    var response := Empty(SERVER_LIST);
    for i := 0 to |l|
      invariant Typed(SERVER_LIST, response)
      invariant response == Message([ServerValues(l[..i])], [])
    {
      var currentServer := Empty(SERVER);
      currentServer := Put(SERVER, currentServer, 1, Str(l[i].ip));
      currentServer := Put(SERVER, currentServer, 2, Int(l[i].port));
      currentServer := Put(SERVER, currentServer, 0, Str(l[i].network));
      assert currentServer.slots == ServerMessage(l[i]).slots;
      assert l[..i + 1][..i] == l[..i];
      response := Put(SERVER_LIST, response, 0, Sub(currentServer));
    }
    assert l[..|l|] == l;
    m := OkWith(5, response);
  }
}
