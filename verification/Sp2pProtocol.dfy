/** The message types of `sp2p_protocol.proto`, as the generated code declares them. */
module Sp2pProtocol {
  import opened Messages

  const RESPONSE_TYPES: set<int> := {200, 400, 500, 501, 502, 503, 504, 505, 506, 507}
  const REQUEST_TYPES: set<int> := {0, 1, 2, 3, 4, 5, 6, 7, 8, 9, 10, 11, 12, 13, 14, 15}
  const ACCESS_RIGHTS: set<int> := {1, 2}
  const VISIBILITY: set<int> := {3, 4}
  const PARTICIPATION_RIGHTS: set<int> := {5, 6}

  function Req(num: nat): Field { Field(num, KString, Required) }

  function Opt(num: nat): Field { Field(num, KString, Optional) }

  function Part(num: nat, s: Schema): Field { Field(num, KMessage(s), Optional) }

  // ---- NodeMessage ---------------------------------------------------------------------

  const NODE_REGISTER := Schema([Req(1), Req(2)])
  const NODE_LOGIN := Schema([Req(1), Opt(2)])
  const NETWORK := Schema([
    Req(1), Req(2), Opt(3),
    Field(4, KEnum(ACCESS_RIGHTS), Required),
    Field(5, KEnum(PARTICIPATION_RIGHTS), Required),
    Opt(6)])
  const NETWORK_LIST := Schema([Field(1, KMessage(NETWORK), Repeated)])
  const SERVER := Schema([Req(1), Req(2), Field(3, KInt32, Required)])
  const SERVER_LIST := Schema([Field(1, KMessage(SERVER), Repeated)])
  const NODE_USER_INFO := Schema([Req(1)])
  const NODE_UPDATE_SERVER := Schema([Field(1, KInt32, Required)])
  const NODE_SIGN_KEY := Schema([Req(1)])

  const NODE_MESSAGE := Schema([
    Field(1, KEnum(RESPONSE_TYPES), Required),
    Part(2, NODE_REGISTER), Part(3, NODE_LOGIN), Part(5, NETWORK_LIST), Part(6, NETWORK_LIST),
    Part(7, SERVER_LIST), Part(13, NODE_USER_INFO), Part(14, NODE_UPDATE_SERVER), Part(16, NODE_SIGN_KEY)])

  // ---- ClientMessage -------------------------------------------------------------------

  const COOKIE_ONLY := Schema([Req(1)])
  const COOKIE_AND_NAME := Schema([Req(1), Req(2)])
  const COOKIE_USER_NETWORK := Schema([Req(1), Req(2), Req(3)])
  const CLIENT_REGISTER := Schema([Req(1), Req(2), Req(3)])
  const CLIENT_LOGIN := Schema([Req(1), Req(2)])
  const CREATE_NETWORK := Schema([
    Req(1), Req(2),
    Field(3, KEnum(ACCESS_RIGHTS), Required),
    Field(4, KEnum(VISIBILITY), Required),
    Field(5, KEnum(PARTICIPATION_RIGHTS), Required),
    Opt(6), Opt(7)])
  const UPDATE_SERVER := Schema([Req(1), Req(2), Field(3, KInt32, Required)])
  const COOKIE_AND_OPTIONAL := Schema([Req(1), Req(2), Opt(3)])

  const CLIENT_MESSAGE := Schema([
    Field(1, KEnum(REQUEST_TYPES), Required),
    Part(2, CLIENT_REGISTER), Part(3, COOKIE_ONLY), Part(4, CLIENT_LOGIN), Part(5, COOKIE_ONLY),
    Part(6, COOKIE_ONLY), Part(7, COOKIE_ONLY), Part(8, COOKIE_AND_NAME), Part(9, CREATE_NETWORK),
    Part(10, COOKIE_AND_NAME), Part(11, COOKIE_USER_NETWORK), Part(12, COOKIE_USER_NETWORK),
    Part(13, COOKIE_USER_NETWORK), Part(14, UPDATE_SERVER), Part(15, COOKIE_AND_NAME),
    Part(16, COOKIE_AND_OPTIONAL), Part(17, COOKIE_AND_OPTIONAL)])

  lemma NodePartsAreWf()
    ensures WfSchema(NODE_REGISTER) && WfSchema(NODE_LOGIN) && WfSchema(NETWORK_LIST) && WfSchema(SERVER_LIST)
    ensures WfSchema(NODE_USER_INFO) && WfSchema(NODE_UPDATE_SERVER) && WfSchema(NODE_SIGN_KEY)
  {
    assert WfSchema(NETWORK);
    assert WfSchema(SERVER);
  }

  lemma ClientPartsAreWf()
    ensures WfSchema(COOKIE_ONLY) && WfSchema(COOKIE_AND_NAME) && WfSchema(COOKIE_USER_NETWORK)
    ensures WfSchema(CLIENT_REGISTER) && WfSchema(CLIENT_LOGIN)
    ensures WfSchema(UPDATE_SERVER) && WfSchema(COOKIE_AND_OPTIONAL)
  {
  }

  lemma CreateNetworkIsWf()
    ensures WfSchema(CREATE_NETWORK)
  {
  }

  lemma NodeMessageIsWf()
    ensures WfSchema(NODE_MESSAGE)
  {
    NodePartsAreWf();
    var fs := NODE_MESSAGE.fields;
    assert forall i :: 0 <= i < |fs| ==> fs[i].num == [1, 2, 3, 5, 6, 7, 13, 14, 16][i];
  }

  lemma ClientMessageIsWf()
    ensures WfSchema(CLIENT_MESSAGE)
  {
    ClientPartsAreWf();
    CreateNetworkIsWf();
    var fs := CLIENT_MESSAGE.fields;
    assert forall i :: 0 <= i < |fs| ==> fs[i].num == i + 1;
  }

  /** The constants the generated code hands to `ExpectTag`, and its required-field masks,
      are the ones the descriptors give. */
  lemma GeneratedConstants()
    ensures forall i :: 0 <= i < 9 ==> FieldTag(NODE_MESSAGE.fields[i]) == [8, 18, 26, 42, 50, 58, 106, 114, 130][i]
    ensures forall i :: 0 <= i < 6 ==> FieldTag(NETWORK.fields[i]) == [10, 18, 26, 32, 40, 50][i]
    ensures forall i :: 0 <= i < 3 ==> FieldTag(SERVER.fields[i]) == [10, 18, 24][i]
    ensures forall i :: 0 <= i < 6 ==> (NETWORK.fields[i].lbl == Required <==> 0x1b / [1, 2, 4, 8, 16, 32][i] % 2 == 1)
  {
    forall i | 0 <= i < 9 ensures FieldTag(NODE_MESSAGE.fields[i]) == [8, 18, 26, 42, 50, 58, 106, 114, 130][i] {
      if i == 0 || i == 1 || i == 2 || i == 3 || i == 4 {} else if i == 5 || i == 6 || i == 7 || i == 8 {}
    }
  }

  lemma ClientConstants()
    ensures forall i :: 0 <= i < 17 ==>
      FieldTag(CLIENT_MESSAGE.fields[i]) == [8, 18, 26, 34, 42, 50, 58, 66, 74, 82, 90, 98, 106, 114, 122, 130, 138][i]
    ensures forall i :: 0 <= i < 7 ==> FieldTag(CREATE_NETWORK.fields[i]) == [10, 18, 24, 32, 40, 50, 58][i]
    ensures forall i :: 0 <= i < 3 ==> FieldTag(UPDATE_SERVER.fields[i]) == [10, 18, 24][i]
  {
    forall i | 0 <= i < 17
      ensures FieldTag(CLIENT_MESSAGE.fields[i]) == [8, 18, 26, 34, 42, 50, 58, 66, 74, 82, 90, 98, 106, 114, 122, 130, 138][i]
    {
      if i == 0 {} else { assert CLIENT_MESSAGE.fields[i].num == i + 1; }
    }
  }

  /** The required fields of a message are the first `n`. */
  ghost predicate RequiresFirst(s: Schema, n: nat) {
    n <= |s.fields| && forall i :: 0 <= i < |s.fields| ==> (s.fields[i].lbl == Required <==> i < n)
  }

  /** The masks `IsInitialized` tests: 1, 3, 7 and 0x1f, and 0x1b for `Network`. */
  lemma RequiredMasks()
    ensures RequiresFirst(COOKIE_ONLY, 1) && RequiresFirst(CLIENT_LOGIN, 2) && RequiresFirst(CLIENT_REGISTER, 3)
    ensures RequiresFirst(COOKIE_AND_NAME, 2) && RequiresFirst(COOKIE_AND_OPTIONAL, 2) && RequiresFirst(COOKIE_USER_NETWORK, 3)
    ensures RequiresFirst(CREATE_NETWORK, 5) && RequiresFirst(UPDATE_SERVER, 3) && RequiresFirst(CLIENT_MESSAGE, 1)
    ensures RequiresFirst(NODE_REGISTER, 2) && RequiresFirst(NODE_LOGIN, 1) && RequiresFirst(NODE_USER_INFO, 1)
    ensures RequiresFirst(NODE_UPDATE_SERVER, 1) && RequiresFirst(NODE_SIGN_KEY, 1) && RequiresFirst(SERVER, 3)
    ensures RequiresFirst(NODE_MESSAGE, 1)
    ensures forall i :: 0 <= i < 6 ==> (NETWORK.fields[i].lbl == Required <==> i in {0, 1, 3, 4})
  {
  }
}
