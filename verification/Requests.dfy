/** What the handlers read out of any message that passed the parser, whoever built it. */
module Requests {
  import opened Bytes
  import opened Messages
  import opened Sp2pProtocol
  import opened Protocol

  /** A field as a handler reads it: an unset string is the empty one. */
  function AsRead(vs: seq<Value>): seq<Value> {
    if vs == [] then [Str([])] else vs
  }

  /** The request's own message has this part, field by field. */
  ghost predicate Says(r: Request, k: nat, p: Message) {
    && !r.Incomplete? && RequestPart(r).0 == k
    && |RequestPart(r).1.slots| == |p.slots|
    && forall i :: 0 <= i < |p.slots| ==> RequestPart(r).1.slots[i] == AsRead(p.slots[i])
  }

  ghost predicate Holds(s: Schema, p: Message) {
    Typed(s, p) && Initialized(s, p)
  }

  /** The part under request type `k`. */
  ghost predicate PartIs(m: Message, k: nat, p: Message) {
    k + 1 < |m.slots| && m.slots[0] == [Int(k)] && m.slots[k + 1] == [Sub(p)]
  }

  lemma SingularSlots(s: Schema, p: Message)
    requires Holds(s, p)
    ensures |p.slots| == |s.fields|
    ensures forall i :: 0 <= i < |s.fields| && s.fields[i].lbl != Repeated ==> |p.slots[i]| <= 1
    ensures forall i :: 0 <= i < |s.fields| && s.fields[i].lbl == Required ==> p.slots[i] != []
    ensures forall i :: 0 <= i < |s.fields| && p.slots[i] != [] ==> TypedValue(s.fields[i], p.slots[i][0])
  {
    forall i | 0 <= i < |s.fields|
      ensures s.fields[i].lbl != Repeated ==> |p.slots[i]| <= 1
      ensures s.fields[i].lbl == Required ==> p.slots[i] != []
      ensures p.slots[i] != [] ==> TypedValue(s.fields[i], p.slots[i][0])
    {
      assert TypedSlot(s.fields[i], p.slots[i]) && InitializedSlot(s.fields[i], p.slots[i]);
    }
  }

  lemma ReadCookieOnly(m: Message, k: nat, p: Message)
    requires PartIs(m, k, p) && k in {1, 3, 4, 5} && Holds(COOKIE_ONLY, p)
    ensures Says(ReadRequest(m), k, p)
  {
    SingularSlots(COOKIE_ONLY, p);
    hide Typed, Initialized;
  }

  lemma ReadCookieAndName(m: Message, k: nat, p: Message)
    requires PartIs(m, k, p) && k in {6, 8, 13} && Holds(COOKIE_AND_NAME, p)
    ensures Says(ReadRequest(m), k, p)
  {
    SingularSlots(COOKIE_AND_NAME, p);
    hide Typed, Initialized;
  }

  lemma ReadThree(m: Message, k: nat, p: Message)
    requires PartIs(m, k, p)
    requires (k == 0 && Holds(CLIENT_REGISTER, p)) || (k in {9, 10, 11} && Holds(COOKIE_USER_NETWORK, p))
    ensures Says(ReadRequest(m), k, p)
  {
    SingularSlots(if k == 0 then CLIENT_REGISTER else COOKIE_USER_NETWORK, p);
    hide Typed, Initialized;
  }

  lemma ReadLogin(m: Message, p: Message)
    requires PartIs(m, 2, p) && Holds(CLIENT_LOGIN, p)
    ensures Says(ReadRequest(m), 2, p)
  {
    SingularSlots(CLIENT_LOGIN, p);
    hide Typed, Initialized;
  }

  lemma ReadCreateNetwork(m: Message, p: Message)
    requires PartIs(m, 7, p) && Holds(CREATE_NETWORK, p)
    ensures Says(ReadRequest(m), 7, p)
  {
    SingularSlots(CREATE_NETWORK, p);
    hide Typed, Initialized;
  }

  lemma ReadUpdateServer(m: Message, p: Message)
    requires PartIs(m, 12, p) && Holds(UPDATE_SERVER, p)
    ensures Says(ReadRequest(m), 12, p)
  {
    SingularSlots(UPDATE_SERVER, p);
    hide Typed, Initialized;
  }

  lemma ReadWithOptional(m: Message, k: nat, p: Message)
    requires PartIs(m, k, p) && k in {14, 15} && Holds(COOKIE_AND_OPTIONAL, p)
    ensures Says(ReadRequest(m), k, p)
  {
    SingularSlots(COOKIE_AND_OPTIONAL, p);
    hide Typed, Initialized;
  }

  lemma ReadPart(m: Message, k: nat, p: Message)
    requires k < 16 && PartIs(m, k, p) && CLIENT_MESSAGE.fields[k + 1].kind.KMessage?
    requires Holds(CLIENT_MESSAGE.fields[k + 1].kind.schema, p)
    ensures Says(ReadRequest(m), k, p)
  {
    hide ReadRequest, Says, Holds, PartIs;
    if k in {1, 3, 4, 5} { ReadCookieOnly(m, k, p); }
    else if k in {6, 8, 13} { ReadCookieAndName(m, k, p); }
    else if k in {0, 9, 10, 11} { ReadThree(m, k, p); }
    else if k == 2 { ReadLogin(m, p); }
    else if k == 7 { ReadCreateNetwork(m, p); }
    else if k == 12 { ReadUpdateServer(m, p); }
    else { ReadWithOptional(m, k, p); }
  }

  lemma NoPart(m: Message, k: nat)
    requires k < 16 && k + 1 < |m.slots| && m.slots[0] == [Int(k)] && m.slots[k + 1] == []
    ensures ReadRequest(m) == Incomplete(k)
  {
  }

  ghost predicate ReadsPart(m: Message, k: nat, part: seq<Value>) {
    if part == [] then ReadRequest(m) == Incomplete(k) else part[0].Sub? && Says(ReadRequest(m), k, part[0].m)
  }

  /** A message that passed the parser is incomplete for the handlers exactly when the part its
      request type calls for is missing; the other parts do not matter. Otherwise the request
      they act on says what that part says, field by field. */
  lemma ReadExactly(m: Message)
    requires Typed(CLIENT_MESSAGE, m) && Initialized(CLIENT_MESSAGE, m)
    ensures exists k: nat :: k < 16 && k + 1 < |m.slots| && m.slots[0] == [Int(k)] && ReadsPart(m, k, m.slots[k + 1])
  {
    SingularSlots(CLIENT_MESSAGE, m);
    assert CLIENT_MESSAGE.fields[0] == Field(1, KEnum(REQUEST_TYPES), Required);
    var k: int := m.slots[0][0].i;
    assert k in REQUEST_TYPES && m.slots[0] == [Int(k)];
    PartOf(m, k);
    if m.slots[k + 1] == [] { NoPart(m, k); } else { ReadPart(m, k, m.slots[k + 1][0].m); }
  }

  lemma PartOf(m: Message, k: nat)
    requires Typed(CLIENT_MESSAGE, m) && Initialized(CLIENT_MESSAGE, m) && k < 16
    ensures |m.slots| == 17 && CLIENT_MESSAGE.fields[k + 1].kind.KMessage? && |m.slots[k + 1]| <= 1
    ensures m.slots[k + 1] != [] ==> m.slots[k + 1][0].Sub? && Holds(CLIENT_MESSAGE.fields[k + 1].kind.schema, m.slots[k + 1][0].m)
  {
    var f := CLIENT_MESSAGE.fields[k + 1];
    PartField(k);
    assert TypedSlot(f, m.slots[k + 1]) && InitializedSlot(f, m.slots[k + 1]);
    if m.slots[k + 1] != [] {
      var v := m.slots[k + 1][0];
      assert v in m.slots[k + 1] && TypedValue(f, v);
      assert InitializedSub(f.kind.schema, v.m);
    }
  }

  lemma PartField(k: nat)
    requires k < 16
    ensures CLIENT_MESSAGE.fields[k + 1].kind.KMessage? && CLIENT_MESSAGE.fields[k + 1].lbl == Optional
  {
    if k < 8 {} else {}
  }
}
