/** A request from a client's call to the value its promise gets, through the bytes on the wire. */
module EndToEnd {
  import opened Bytes
  import opened Messages
  import opened Codec
  import opened Sp2pProtocol
  import opened Wire
  import opened Framing
  import opened Protocol
  import opened Sessions
  import opened ClientTypes
  import T = Tracker
  import C = Connections
  import N = Nodes
  import S = Statements

  /** The message the tracker answers with, whatever the request and whatever fails: complete,
      so that it can be serialised and the client accepts it. */
  ghost function ReplyTo(st: T.State, req: Request, env: T.Env): (m: Message)
    ensures Complete(NODE_MESSAGE, m)
  {
    hide T.Handle, Complete;
    T.RepliesAreWellTyped(st, req, env);
    ReplyMessage(T.Handle(st, req, env).1)
  }

  /** Every reply decodes to what was sent. */
  lemma RepliesDecode(st: T.State, req: Request, env: T.Env)
    requires |Serialize(NODE_MESSAGE, ReplyTo(st, req, env))| < TWO31
    ensures Parse(NODE_MESSAGE, Serialize(NODE_MESSAGE, ReplyTo(st, req, env))) == Some(ReplyTo(st, req, env))
  {
    hide ReplyTo;
    NodeMessageIsWf();
    ParseSerialized(NODE_MESSAGE, ReplyTo(st, req, env));
  }

  /** A request built by a client reaches the handler as it was meant, and however the reply is
      cut on its way back, the client's promise gets exactly the handler's reply, once, with the
      parser ready for the next. */
  lemma ExchangeDelivers(st: T.State, req: Request, env: T.Env, chunks: seq<bytes>)
    requires !req.Incomplete? && |Serialize(CLIENT_MESSAGE, RequestMessage(req))| < TWO31
    requires |Serialize(NODE_MESSAGE, ReplyTo(st, req, env))| < TWO31
    requires CutOf(chunks, Frame(Serialize(NODE_MESSAGE, ReplyTo(st, req, env))))
    ensures var arrived := Parse(CLIENT_MESSAGE, Serialize(CLIENT_MESSAGE, RequestMessage(req)));
      && arrived.Some?
      && C.Run(C.Start(INITIAL), C.Reads(chunks)) ==
         Some(C.State(C.Nothing, INITIAL, true, C.Value(|chunks| - 1), 1,
                      C.Rounds(|chunks| - 1) + [ReplyTo(st, ReadRequest(arrived.value), env)]))
  {
    RequestArrives(req);
    var m := ReplyTo(st, req, env);
    assert Sendable(m);
    hide *;
    C.ReplyDelivered(m, chunks) by { assert Framed(m) == Frame(Serialize(NODE_MESSAGE, m)) by { FrameOf(m); } }
  }

  lemma FrameOf(m: Message)
    requires Sendable(m)
    ensures Framed(m) == Frame(Serialize(NODE_MESSAGE, m))
  {
  }

  // ---- Two replies in one chunk ------------------------------------------------------------

  lemma {:induction false} NoFields(s: Schema, m: Message, i: nat)
    requires Typed(s, m) && i <= |s.fields| && forall j :: i <= j < |s.fields| ==> m.slots[j] == []
    ensures FieldRecords(s, m, i) == []
    decreases |s.fields| - i
  {
    if i < |s.fields| { NoFields(s, m, i + 1); }
  }

  /** A message with only its enumeration set is one record. */
  lemma BareIsOneRecord(s: Schema, code: int)
    requires EnvelopeSchema(s) && code in s.fields[0].kind.valid
    ensures Serialize(s, Bare(s, code)) == WriteRecord(Record(s.fields[0].num, PVarint(ToUInt64(code))))
  {
    hide WfSchema, WriteRecord, Empty, Typed;
    var m, f := Bare(s, code), s.fields[0];
    BareIsComplete(s, code);
    BareIsAlone(s, code);
    var r := ValueRecord(f, Int(code));
    assert SlotRecords(f, [Int(code)]) == [r] by { assert [Int(code)][1..] == []; }
    assert Records(s, m) == [r];
    assert r == Record(f.num, PVarint(ToUInt64(code)));
    assert Serialize(s, m) == WriteAll([r]);
    WriteOne(r);
  }

  lemma WriteOne(r: Record)
    ensures WriteAll([r]) == WriteRecord(r)
  {
    assert [r][1..] == [];
    assert WriteAll([]) == [];
    assert WriteRecord(r) + [] == WriteRecord(r);
  }

  lemma BareIsAlone(s: Schema, code: int)
    requires EnvelopeSchema(s) && code in s.fields[0].kind.valid
    ensures var m := Bare(s, code); m.unknown == [] && FieldRecords(s, m, 1) == []
  {
    NoFields(s, Bare(s, code), 1);
  }

  /** A reply that is only a response type is three bytes long. */
  lemma StatusIsThreeBytes(code: int)
    requires code in RESPONSE_TYPES
    ensures |Serialize(NODE_MESSAGE, ReplyMessage(Status(code)))| == 3
  {
    hide Serialize, EnvelopeSchema, Bare;
    EnvelopeSchemas();
    BareIsOneRecord(NODE_MESSAGE, code);
    StatusRecord(code);
  }

  lemma StatusRecord(code: int)
    requires code in RESPONSE_TYPES
    ensures |WriteRecord(Record(1, PVarint(ToUInt64(code))))| == 3
  {
    assert ToUInt64(code) == code;
    assert |Varint(code)| == 2 && |Varint(Tag(1, 0))| == 1;
  }

  /** A reply with a bare status behind it in the same chunk is refused. */
  lemma PipelinedStatusIsLost(m: Message, code: int)
    requires Sendable(m) && code in RESPONSE_TYPES && |Framed(m)| + 7 < TWO31
    ensures |Serialize(NODE_MESSAGE, ReplyMessage(Status(code)))| < TWO31
    ensures Feed(INITIAL, Framed(m) + Frame(Serialize(NODE_MESSAGE, ReplyMessage(Status(code))))) == (INITIAL, Rejected)
  {
    hide Feed, Frame, Framed, Serialize, Sendable;
    StatusIsThreeBytes(code);
    PipelinedRepliesAreLost(m, Serialize(NODE_MESSAGE, ReplyMessage(Status(code))));
  }

  // ---- What the lists show -----------------------------------------------------------------

  /** A network as the client's list describes it: the owner's login twice over, once in the
      place of an e-mail address, and a visibility nobody set. */
  function Description(n: S.NetworkInfo, uninitialised: bool): NetworkDescription {
    NetworkDescription(n.publicity, uninitialised, n.participable, n.protocol, n.name, User(n.owner, n.owner))
  }

  lemma PartList(m: Message, i: nat, vs: seq<Value>)
    requires i < |m.slots| && m.slots[i] == [Sub(Message([vs], []))]
    ensures N.ListIn(m, i) == vs
  {
  }

  lemma NetworkRead(n: S.NetworkInfo, uninitialised: bool)
    ensures N.NetworkFromProto(NetworkMessage(n), uninitialised) == Description(n, uninitialised)
    ensures Description(n, uninitialised).creator.email == n.owner
  {
  }

  lemma NetworksRead(r: Reply, uninitialised: bool)
    requires r.NetworkList? || r.MyNetworkList?
    ensures var ds := N.NetworksIn(N.ListIn(ReplyMessage(r), if r.NetworkList? then 3 else 4), uninitialised);
      |ds| == |r.networks| && forall k :: 0 <= k < |ds| ==>
        && ds[k] == Description(r.networks[k], uninitialised)
        && (ds[k].creator.email == r.networks[k].email <==> r.networks[k].email == r.networks[k].owner)
  {
    var i, vs := if r.NetworkList? then 3 else 4, NetworkValues(r.networks);
    assert ReplyPart(r) == (i, Message([vs], []));
    assert Code(r) in RESPONSE_TYPES;
    hide *;
    PartList(ReplyMessage(r), i, vs);
    forall k | 0 <= k < |vs|
      ensures N.NetworksIn(vs, uninitialised)[k] == Description(r.networks[k], uninitialised)
      ensures N.NetworksIn(vs, uninitialised)[k].creator.email == r.networks[k].owner
    {
      NetworkRead(r.networks[k], uninitialised);
    }
  }

  lemma ServerRead(s: S.ServerInfo, network: bytes)
    ensures N.ServerFromProto(ServerMessage(s), network) == ServerDescription(s.network, network, s.ip)
  {
  }

  /** Of the servers of a network the client learns the address, but in the place of the
      owner's name it reads the network's. */
  lemma ServersRead(l: seq<S.ServerInfo>, network: bytes)
    ensures var ds := N.ServersIn(N.ListIn(ReplyMessage(ServerList(l)), 5), network);
      |ds| == |l| && forall k :: 0 <= k < |ds| ==> ds[k] == ServerDescription(l[k].network, network, l[k].ip)
  {
    var r, vs := ServerList(l), ServerValues(l);
    assert ReplyPart(r) == (5, Message([vs], []));
    assert Code(r) in RESPONSE_TYPES;
    hide *;
    PartList(ReplyMessage(r), 5, vs);
    forall k | 0 <= k < |vs| ensures N.ServersIn(vs, network)[k] == ServerDescription(l[k].network, network, l[k].ip) {
      ServerRead(l[k], network);
    }
  }

  /** The row behind a server the client is shown: its user is shown under its login exactly if
      that login is the network's name. */
  lemma ServerShown(t: S.Tables, name: bytes, bound: nat, k: nat)
    requires S.References(t) && k < |S.ServersOf(t, name, bound)|
    ensures var d := N.ServersIn(N.ListIn(ReplyMessage(ServerList(S.ServersOf(t, name, bound))), 5), name)[k];
      exists s: nat :: s in t.servers && d == ServerDescription(name, name, t.servers[s].data.ip)
        && (d.user == t.users[t.servers[s].user].login <==> t.users[t.servers[s].user].login == name)
  {
    hide N.ServersIn, N.ListIn, ReplyMessage, S.ServersOf, S.NetworkId;
    var l := S.ServersOf(t, name, bound);
    ServersRead(l, name);
    S.ServersExact(t, name, bound);
    assert l[k] in l && S.Serves(t, name, bound, l[k]);
    var s: nat :| s < bound && s in t.servers && S.NetworkId(t, name) == Some(t.servers[s].network)
      && l[k] == S.ServerInfo(name, t.servers[s].data.ip, t.servers[s].data.port);
    assert s in t.servers;
  }
}
