/** What the generated `IsInitialized` stands for: no message that can be reached through the
    slots lacks a required field. */
module Completeness {
  import opened Bytes
  import opened Wire
  import opened Messages
  import opened Codec
  import opened Sp2pProtocol

  /** A way down through sub-messages: at each level a field and the place of an element in it. */
  type Path = seq<(nat, nat)>

  /** The message at the end of a path, with its type. */
  function At(s: Schema, m: Message, path: Path): Option<(Schema, Message)>
    decreases |path|
  {
    if path == [] then Some((s, m))
    else
      var (i, k) := path[0];
      if i < |s.fields| && s.fields[i].kind.KMessage? && i < |m.slots| && k < |m.slots[i]| && m.slots[i][k].Sub?
      then At(s.fields[i].kind.schema, m.slots[i][k].m, path[1..]) else None
  }

  ghost predicate Lacks(s: Schema, m: Message) {
    exists i :: 0 <= i < |s.fields| && s.fields[i].lbl == Required && (i >= |m.slots| || m.slots[i] == [])
  }

  ghost predicate LacksAt(s: Schema, m: Message, path: Path) {
    var x := At(s, m, path);
    x.Some? && Lacks(x.value.0, x.value.1)
  }

  ghost predicate LacksNothing(s: Schema, m: Message) {
    forall path :: !LacksAt(s, m, path)
  }

  lemma {:induction false} NothingLacks(s: Schema, m: Message, path: Path)
    requires Typed(s, m) && Initialized(s, m)
    ensures !LacksAt(s, m, path)
    decreases |path|
  {
    if path == [] {
      assert forall i :: 0 <= i < |s.fields| ==> InitializedSlot(s.fields[i], m.slots[i]);
    } else if At(s, m, path).Some? {
      var (i, k) := path[0];
      assert InitializedSlot(s.fields[i], m.slots[i]) && TypedSlot(s.fields[i], m.slots[i]);
      assert TypedValue(s.fields[i], m.slots[i][k]);
      NothingLacks(s.fields[i].kind.schema, m.slots[i][k].m, path[1..]);
    }
  }

  lemma {:induction false} InitializedIfComplete(s: Schema, m: Message)
    requires Typed(s, m) && LacksNothing(s, m)
    ensures Initialized(s, m)
    decreases s
  {
    forall i | 0 <= i < |s.fields| ensures InitializedSlot(s.fields[i], m.slots[i]) {
      assert !LacksAt(s, m, []);
      if s.fields[i].kind.KMessage? { SubsInitialized(s, m, i); }
    }
  }

  lemma {:induction false} SubsInitialized(s: Schema, m: Message, i: nat)
    requires Typed(s, m) && LacksNothing(s, m) && i < |s.fields| && s.fields[i].kind.KMessage?
    ensures forall v :: v in m.slots[i] && v.Sub? ==> InitializedSub(s.fields[i].kind.schema, v.m)
    decreases s, 0
  {
    var sub := s.fields[i].kind.schema;
    assert TypedSlot(s.fields[i], m.slots[i]);
    forall v | v in m.slots[i] && v.Sub? ensures InitializedSub(sub, v.m) {
      var k: nat :| k < |m.slots[i]| && m.slots[i][k] == v;
      forall path ensures !LacksAt(sub, v.m, path) {
        var longer: Path := [(i, k)] + path;
        assert longer[1..] == path;
        assert !LacksAt(s, m, longer);
      }
      InitializedIfComplete(sub, v.m);
    }
  }

  lemma InitializedExactly(s: Schema, m: Message)
    requires Typed(s, m)
    ensures Initialized(s, m) <==> LacksNothing(s, m)
  {
    if Initialized(s, m) {
      forall path ensures !LacksAt(s, m, path) { NothingLacks(s, m, path); }
    } else if LacksNothing(s, m) {
      InitializedIfComplete(s, m);
    }
  }

  /** Bytes are accepted exactly when they are well-formed and nothing in the message they hold
      lacks a required field. */
  lemma ParseExactly(s: Schema, b: bytes)
    ensures var o := ParsePartial(s, b);
      Parse(s, b) == if o.Some? && LacksNothing(s, o.value) then o else None
  {
    hide LacksNothing, Initialized, ParsePartial;
    var o := ParsePartial(s, b);
    if o.Some? { InitializedExactly(s, o.value); }
  }

  /** What a sender that skips the check writes is refused if and only if something is missing. */
  lemma SentIncomplete(s: Schema, m: Message)
    requires WfSchema(s) && Typed(s, m) && Canonical(s, m) && |Serialize(s, m)| < TWO31
    ensures Parse(s, Serialize(s, m)) == if LacksNothing(s, m) then Some(m) else None
  {
    hide LacksNothing, ParsePartial, Typed, Canonical, Serialize;
    ParseSerialized(s, m);
    ParseExactly(s, Serialize(s, m));
  }

  // ---- Refusals --------------------------------------------------------------------------------

  /** An empty reply is no message. */
  lemma EmptyReplyRefused()
    ensures ParsePartial(NODE_MESSAGE, []) == Some(Empty(NODE_MESSAGE)) && Parse(NODE_MESSAGE, []) == None
  {
    ParseExactly(NODE_MESSAGE, []);
    assert ReadAll([]) == Some([]);
    assert ApplyAll(NODE_MESSAGE, [], Empty(NODE_MESSAGE)) == Some(Empty(NODE_MESSAGE));
    assert LacksAt(NODE_MESSAGE, Empty(NODE_MESSAGE), []) by { assert NODE_MESSAGE.fields[0].lbl == Required; }
  }

  /** A response type outside the enumeration goes to the unknown fields, so it is missing. */
  lemma UnknownCodeRefused(code: nat)
    requires code < TWO64
    ensures Parse(NODE_MESSAGE, WriteAll([Record(1, PVarint(code))])).Some? <==> ToInt32(code) in RESPONSE_TYPES
  {
    var s, r := NODE_MESSAGE, Record(1, PVarint(code));
    ReadAllOfWriteAll([r]);
    ParseExactly(s, WriteAll([r]));
    var m := ParsePartial(s, WriteAll([r]));
    CodeApplied(code);
    if ToInt32(code) in RESPONSE_TYPES {
      OnlyCode(m.value, ToInt32(code));
    } else {
      assert s.fields[0].lbl == Required && LacksAt(s, m.value, []);
    }
  }

  lemma CodeApplied(code: nat)
    requires code < TWO64
    ensures var (s, r, x) := (NODE_MESSAGE, Record(1, PVarint(code)), ToInt32(code));
      ApplyAll(s, [r], Empty(s)) ==
        Some(if x in RESPONSE_TYPES then Put(s, Empty(s), 0, Int(x)) else AddUnknown(Empty(s), KeptEnum(r)))
  {
    var (s, r) := (NODE_MESSAGE, Record(1, PVarint(code)));
    assert Claimant(s, r) == 0;
    assert s.fields[0].kind == KEnum(RESPONSE_TYPES);
    assert [r][1..] == [];
    assert Apply(s, r, Empty(s)) == ApplyField(s, 0, r, Empty(s));
    var n := ApplyField(s, 0, r, Empty(s)).value;
    assert ApplyAll(s, [], n) == Some(n);
  }

  lemma OnlyCode(m: Message, code: int)
    requires code in RESPONSE_TYPES && m == Put(NODE_MESSAGE, Empty(NODE_MESSAGE), 0, Int(code))
    ensures LacksNothing(NODE_MESSAGE, m)
  {
    forall path ensures !LacksAt(NODE_MESSAGE, m, path) {
      if path != [] { var (i, k) := path[0]; }
    }
  }

  /** One network without its name spoils the whole list. */
  lemma NamelessNetworkRefused(m: Message, list: Message, k: nat)
    requires Typed(NODE_MESSAGE, m) && Canonical(NODE_MESSAGE, m) && |Serialize(NODE_MESSAGE, m)| < TWO31
    requires m.slots[3] == [Sub(list)] && |list.slots| == 1
    requires k < |list.slots[0]| && list.slots[0][k].Sub?
    requires var network := list.slots[0][k].m; |network.slots| == 6 && network.slots[0] == []
    ensures Parse(NODE_MESSAGE, Serialize(NODE_MESSAGE, m)) == None
  {
    hide Canonical, Serialize, Parse, WfSchema;
    NodeMessageIsWf();
    SentIncomplete(NODE_MESSAGE, m);
    var path: Path := [(3, 0), (0, k)];
    assert path[1..] == [(0, k)] && path[1..][1..] == [];
    assert NODE_MESSAGE.fields[3].kind == KMessage(NETWORK_LIST);
    assert NETWORK_LIST.fields[0].kind == KMessage(NETWORK) && NETWORK.fields[0].lbl == Required;
    assert At(NETWORK, list.slots[0][k].m, []) == Some((NETWORK, list.slots[0][k].m));
    assert At(NETWORK_LIST, list, [(0, k)]) == At(NETWORK, list.slots[0][k].m, []);
    assert At(NODE_MESSAGE, m, path) == At(NETWORK_LIST, list, [(0, k)]);
    assert LacksAt(NODE_MESSAGE, m, path);
  }
}
