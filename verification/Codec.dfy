/** Parsing and serialising messages, as functions of the schema: the plain forms the
    imperative ones in `CodedStream` and `MessageNode` are proved against. */
module Codec {
  import opened Bytes
  import opened Wire
  import opened Messages

  // ---- Parsing -------------------------------------------------------------------------

  /** The record a parser keeps when an enumeration value is out of range. */
  function KeptEnum(r: Record): (k: Record)
    requires WfRecord(r) && r.payload.PVarint?
    ensures WfRecord(k)
  {
    Record(r.num, PVarint(ToUInt64(ToInt32(r.payload.v))))
  }

  /** One turn of the parse loop: every tag goes through the switch. */
  function Apply(s: Schema, r: Record, m: Message): (o: Option<Message>)
    requires Typed(s, m) && WfRecord(r)
    ensures o.Some? ==> Typed(s, o.value)
    decreases s, 1
  {
    var i := Claimant(s, r);
    if i == |s.fields| then Some(AddUnknown(m, r)) else ApplyField(s, i, r, m)
  }

  /** The case of field `i`. */
  function ApplyField(s: Schema, i: nat, r: Record, m: Message): (o: Option<Message>)
    requires Typed(s, m) && WfRecord(r) && i < |s.fields|
    requires KindWire(s.fields[i].kind) == WireType(r.payload)
    ensures o.Some? ==> Typed(s, o.value)
    decreases s, 0
  {
    match s.fields[i].kind
    case KString => Some(Put(s, m, i, Str(r.payload.b)))
    case KInt32 => Some(Put(s, m, i, Int(ToInt32(r.payload.v))))
    case KEnum(valid) =>
      var x := ToInt32(r.payload.v);
      if x in valid then Some(Put(s, m, i, Int(x))) else Some(AddUnknown(m, KeptEnum(r)))
    case KMessage(sub) =>
      match ParseInto(sub, r.payload.b, Target(s, m, i))
      case None => None
      case Some(x) => Some(Put(s, m, i, Sub(x)))
  }

  function AddUnknown(m: Message, r: Record): (n: Message)
  {
    m.(unknown := m.unknown + [r])
  }

  /** `mutable_x()` for a singular sub-message, `add_x()` for a repeated one. */
  function Target(s: Schema, m: Message, i: nat): (t: Message)
    requires Typed(s, m) && i < |s.fields| && s.fields[i].kind.KMessage?
    ensures Typed(s.fields[i].kind.schema, t)
  {
    assert TypedSlot(s.fields[i], m.slots[i]);
    if s.fields[i].lbl != Repeated && m.slots[i] != [] then
      assert TypedValue(s.fields[i], m.slots[i][0]);
      m.slots[i][0].m
    else Empty(s.fields[i].kind.schema)
  }

  function ApplyAll(s: Schema, rs: seq<Record>, m: Message): (o: Option<Message>)
    requires Typed(s, m) && forall r :: r in rs ==> WfRecord(r)
    ensures o.Some? ==> Typed(s, o.value)
    decreases s, 2, |rs|
  {
    if rs == [] then Some(m)
    else match Apply(s, rs[0], m)
      case None => None
      case Some(n) => ApplyAll(s, rs[1..], n)
  }

  /** `MergePartialFromStream`: parse all of `b` into a message that may hold fields already. */
  function ParseInto(s: Schema, b: bytes, m: Message): (o: Option<Message>)
    requires Typed(s, m)
    ensures o.Some? ==> Typed(s, o.value)
    decreases s, 3
  {
    match ReadAll(b)
    case None => None
    case Some(rs) => ApplyAll(s, rs, m)
  }

  function ParsePartial(s: Schema, b: bytes): (o: Option<Message>)
    ensures o.Some? ==> Typed(s, o.value)
  {
    ParseInto(s, b, Empty(s))
  }

  /** `ParseFromIstream`: a message that lacks a required field is refused. */
  function Parse(s: Schema, b: bytes): (o: Option<Message>)
    ensures o.Some? ==> Typed(s, o.value) && Initialized(s, o.value)
  {
    var o := ParsePartial(s, b);
    if o.Some? && Initialized(s, o.value) then o else None
  }

  // ---- The merge law -------------------------------------------------------------------

  function MergeInto(s: Schema, m: Message, o: Option<Message>): Option<Message>
    requires Typed(s, m) && (o.Some? ==> Typed(s, o.value))
  {
    match o case None => None case Some(n) => Some(Merge(s, m, n))
  }

  lemma MergePut(s: Schema, m: Message, i: nat, v: Value)
    requires Typed(s, m) && i < |s.fields| && TypedValue(s.fields[i], v)
    requires s.fields[i].kind.KMessage? && s.fields[i].lbl != Repeated ==> m.slots[i] == []
    ensures Merge(s, m, Put(s, Empty(s), i, v)) == Put(s, m, i, v)
  {
    var n := Put(s, Empty(s), i, v);
    forall j | 0 <= j < |s.fields| ensures Merge(s, m, n).slots[j] == Put(s, m, i, v).slots[j] {
      assert TypedSlot(s.fields[j], m.slots[j]);
      assert m.slots[j] + [] == m.slots[j];
    }
    assert Merge(s, m, n).slots == Put(s, m, i, v).slots;
    assert m.unknown + [] == m.unknown;
  }

  lemma MergePutSub(s: Schema, m: Message, i: nat, x: Message)
    requires Typed(s, m) && i < |s.fields| && s.fields[i].kind.KMessage?
    requires s.fields[i].lbl != Repeated && m.slots[i] != []
    requires Typed(s.fields[i].kind.schema, x)
    ensures Merge(s, m, Put(s, Empty(s), i, Sub(x)))
         == Put(s, m, i, Sub(Merge(s.fields[i].kind.schema, Target(s, m, i), x)))
  {
    var n := Put(s, Empty(s), i, Sub(x));
    var p := Put(s, m, i, Sub(Merge(s.fields[i].kind.schema, Target(s, m, i), x)));
    forall j | 0 <= j < |s.fields| ensures Merge(s, m, n).slots[j] == p.slots[j] {
      assert TypedSlot(s.fields[j], m.slots[j]);
      assert m.slots[j] + [] == m.slots[j];
    }
    assert Merge(s, m, n).slots == p.slots;
    assert m.unknown + [] == m.unknown;
  }

  lemma MergeAddUnknown(s: Schema, m: Message, r: Record)
    requires Typed(s, m) && WfRecord(r)
    ensures Merge(s, m, AddUnknown(Empty(s), r)) == AddUnknown(m, r)
  {
    MergeEmpty(s, m);
    var n := AddUnknown(Empty(s), r);
    assert Merge(s, m, n).slots == Merge(s, m, Empty(s)).slots;
  }

  lemma {:induction false} ApplyIsMerge(s: Schema, r: Record, m: Message)
    requires Typed(s, m) && WfRecord(r)
    ensures Apply(s, r, m) == MergeInto(s, m, Apply(s, r, Empty(s)))
    decreases s, 0
  {
    var i := Claimant(s, r);
    if i == |s.fields| {
      MergeAddUnknown(s, m, r);
    } else {
      match s.fields[i].kind
      case KString => MergePut(s, m, i, Str(r.payload.b));
      case KInt32 => MergePut(s, m, i, Int(ToInt32(r.payload.v)));
      case KEnum(valid) =>
        var x := ToInt32(r.payload.v);
        if x in valid { MergePut(s, m, i, Int(x)); } else { MergeAddUnknown(s, m, KeptEnum(r)); }
      case KMessage(sub) =>
        ParseIntoIsMerge(sub, r.payload.b, Target(s, m, i));
        var o := ParseInto(sub, r.payload.b, Empty(sub));
        if o.Some? {
          if s.fields[i].lbl != Repeated && m.slots[i] != [] {
            MergePutSub(s, m, i, o.value);
          } else {
            MergePut(s, m, i, Sub(o.value));
          }
        }
    }
  }

  lemma {:induction false} ApplyAllIsMerge(s: Schema, rs: seq<Record>, m: Message)
    requires Typed(s, m) && forall r :: r in rs ==> WfRecord(r)
    ensures ApplyAll(s, rs, m) == MergeInto(s, m, ApplyAll(s, rs, Empty(s)))
    decreases s, 1, |rs|
  {
    if rs == [] {
      MergeEmpty(s, m);
    } else {
      ApplyIsMerge(s, rs[0], m);
      var first := Apply(s, rs[0], Empty(s));
      if first.Some? {
        var n := Merge(s, m, first.value);
        ApplyAllIsMerge(s, rs[1..], n);
        ApplyAllIsMerge(s, rs[1..], first.value);
        var rest := ApplyAll(s, rs[1..], Empty(s));
        if rest.Some? { MergeAssociative(s, m, first.value, rest.value); }
      }
    }
  }

  /** Parsing into a message is parsing afresh and then calling `MergeFrom`. */
  lemma {:induction false} ParseIntoIsMerge(s: Schema, b: bytes, m: Message)
    requires Typed(s, m)
    ensures ParseInto(s, b, m) == MergeInto(s, m, ParsePartial(s, b))
    decreases s, 2
  {
    if ReadAll(b).Some? { ApplyAllIsMerge(s, ReadAll(b).value, m); }
  }

  lemma {:induction false} ApplyAllConcat(s: Schema, xs: seq<Record>, ys: seq<Record>, m: Message)
    requires Typed(s, m) && (forall r :: r in xs ==> WfRecord(r)) && (forall r :: r in ys ==> WfRecord(r))
    ensures ApplyAll(s, xs + ys, m) ==
            match ApplyAll(s, xs, m) { case None => None case Some(n) => ApplyAll(s, ys, n) }
    decreases |xs|
  {
    if xs == [] {
      assert xs + ys == ys;
    } else {
      assert (xs + ys)[1..] == xs[1..] + ys;
      var o := Apply(s, xs[0], m);
      if o.Some? { ApplyAllConcat(s, xs[1..], ys, o.value); }
    }
  }

  /** Parsing is a homomorphism from byte strings under concatenation to messages under
      `MergeFrom`: once `a` is accepted, `a + b` is accepted exactly when `b` is. */
  lemma ParseConcat(s: Schema, a: bytes, b: bytes)
    requires ParsePartial(s, a).Some?
    ensures ParsePartial(s, a + b) == MergeInto(s, ParsePartial(s, a).value, ParsePartial(s, b))
  {
    ReadAllConcat(a, b);
    var m := ParsePartial(s, a).value;
    ParseIntoIsMerge(s, b, m);
    if ReadAll(b).Some? {
      ApplyAllConcat(s, ReadAll(a).value, ReadAll(b).value, Empty(s));
    }
  }

  // ---- What a parser produces is canonical ---------------------------------------------

  lemma {:induction false} ApplyCanonical(s: Schema, r: Record, m: Message)
    requires Typed(s, m) && Canonical(s, m) && WfRecord(r) && Apply(s, r, m).Some?
    ensures Canonical(s, Apply(s, r, m).value)
    decreases s, 0
  {
    var i := Claimant(s, r);
    if i < |s.fields| {
      var f := s.fields[i];
      match f.kind
      case KString => PutCanonical(s, m, i, Str(r.payload.b));
      case KInt32 => PutCanonical(s, m, i, Int(ToInt32(r.payload.v)));
      case KEnum(valid) =>
        var x := ToInt32(r.payload.v);
        if x in valid {
          PutCanonical(s, m, i, Int(x));
        } else {
          SignExtensionRoundTrip(x);
          assert Claimant(s, KeptEnum(r)) == i;
        }
      case KMessage(sub) =>
        var t := Target(s, m, i);
        assert Canonical(sub, t) by {
          if f.lbl != Repeated && m.slots[i] != [] { assert CanonicalSub(sub, m.slots[i][0]); }
        }
        ParseIntoCanonical(sub, r.payload.b, t);
        PutCanonical(s, m, i, Sub(ParseInto(sub, r.payload.b, t).value));
    }
  }

  lemma {:induction false} ApplyAllCanonical(s: Schema, rs: seq<Record>, m: Message)
    requires Typed(s, m) && Canonical(s, m) && forall r :: r in rs ==> WfRecord(r)
    requires ApplyAll(s, rs, m).Some?
    ensures Canonical(s, ApplyAll(s, rs, m).value)
    decreases s, 1, |rs|
  {
    if rs != [] {
      ApplyCanonical(s, rs[0], m);
      ApplyAllCanonical(s, rs[1..], Apply(s, rs[0], m).value);
    }
  }

  lemma {:induction false} ParseIntoCanonical(s: Schema, b: bytes, m: Message)
    requires Typed(s, m) && Canonical(s, m) && ParseInto(s, b, m).Some?
    ensures Canonical(s, ParseInto(s, b, m).value)
    decreases s, 2
  {
    ApplyAllCanonical(s, ReadAll(b).value, m);
  }

  // ---- Serialising ---------------------------------------------------------------------

  function ValueRecord(f: Field, v: Value): (r: Record)
    requires TypedValue(f, v)
    ensures r.num == f.num && WireType(r.payload) == KindWire(f.kind)
    decreases f, 0
  {
    Record(f.num,
      match f.kind
      case KString => PLen(v.s)
      case KInt32 => PVarint(ToUInt64(v.i))
      case KEnum(_) => PVarint(ToUInt64(v.i))
      case KMessage(sub) => PLen(Serialize(sub, v.m)))
  }

  function SlotRecords(f: Field, vs: seq<Value>): (rs: seq<Record>)
    requires forall v :: v in vs ==> TypedValue(f, v)
    decreases f, 1, |vs|
  {
    if vs == [] then [] else [ValueRecord(f, vs[0])] + SlotRecords(f, vs[1..])
  }

  function FieldRecords(s: Schema, m: Message, from: nat): (rs: seq<Record>)
    requires Typed(s, m) && from <= |s.fields|
    decreases s, 0, |s.fields| - from
  {
    if from == |s.fields| then []
    else
      assert TypedSlot(s.fields[from], m.slots[from]);
      SlotRecords(s.fields[from], m.slots[from]) + FieldRecords(s, m, from + 1)
  }

  /** Declared fields in order, then the unknown ones. */
  function Records(s: Schema, m: Message): (rs: seq<Record>)
    requires Typed(s, m)
    decreases s, 1
  {
    FieldRecords(s, m, 0) + m.unknown
  }

  function Serialize(s: Schema, m: Message): (b: bytes)
    requires Typed(s, m)
    decreases s, 2
  {
    WriteAll(Records(s, m))
  }

  // ---- Round trip ----------------------------------------------------------------------

  /** What writing the records needs to be readable again: lengths that fit 31 bits. */
  lemma {:induction false} WriteAllBoundsRecords(rs: seq<Record>, r: Record)
    requires r in rs
    ensures |WriteRecord(r)| <= |WriteAll(rs)|
  {
    if rs[0] != r { WriteAllBoundsRecords(rs[1..], r); }
  }

  lemma {:induction false} SlotRecordsAreWf(f: Field, vs: seq<Value>, r: Record)
    requires WfField(f) && (forall v :: v in vs ==> TypedValue(f, v))
    requires r in SlotRecords(f, vs) && |WriteRecord(r)| < TWO31
    ensures WfRecord(r)
  {
    if r != ValueRecord(f, vs[0]) {
      SlotRecordsAreWf(f, vs[1..], r);
    }
  }

  lemma {:induction false} FieldRecordsAreWf(s: Schema, m: Message, from: nat, r: Record)
    requires WfSchema(s) && Typed(s, m) && from <= |s.fields|
    requires r in FieldRecords(s, m, from) && |WriteRecord(r)| < TWO31
    ensures WfRecord(r)
    decreases |s.fields| - from
  {
    assert TypedSlot(s.fields[from], m.slots[from]);
    if r in SlotRecords(s.fields[from], m.slots[from]) {
      SlotRecordsAreWf(s.fields[from], m.slots[from], r);
    } else {
      FieldRecordsAreWf(s, m, from + 1, r);
    }
  }

  lemma RecordsAreWf(s: Schema, m: Message)
    requires WfSchema(s) && Typed(s, m) && |Serialize(s, m)| < TWO31
    ensures forall r :: r in Records(s, m) ==> WfRecord(r)
  {
    forall r | r in Records(s, m) ensures WfRecord(r) {
      WriteAllBoundsRecords(Records(s, m), r);
      if r !in m.unknown { FieldRecordsAreWf(s, m, 0, r); }
    }
  }

  lemma {:induction false} FieldIndexOfField(fs: seq<Field>, i: nat, from: nat)
    requires from <= i < |fs|
    requires forall j, k :: 0 <= j < k < |fs| ==> fs[j].num != fs[k].num
    ensures FieldIndex(fs, fs[i].num, from) == i
    decreases |fs| - from
  {
    if from < i { FieldIndexOfField(fs, i, from + 1); }
  }

  /** Writing one value and reading it back sets that value. */
  lemma {:induction false} ApplyValueRecord(s: Schema, i: nat, v: Value, p: Message)
    requires WfSchema(s) && Typed(s, p) && i < |s.fields| && TypedValue(s.fields[i], v)
    requires s.fields[i].kind.KMessage? ==> CanonicalSub(s.fields[i].kind.schema, v)
    requires s.fields[i].lbl != Repeated ==> p.slots[i] == []
    requires WfRecord(ValueRecord(s.fields[i], v))
    ensures Apply(s, ValueRecord(s.fields[i], v), p) == Some(Put(s, p, i, v))
    decreases s, 0
  {
    var f := s.fields[i];
    FieldIndexOfField(s.fields, i, 0);
    assert Claimant(s, ValueRecord(f, v)) == i;
    assert WfField(f);
    match f.kind
    case KString =>
    case KInt32 => SignExtensionRoundTrip(v.i);
    case KEnum(_) => SignExtensionRoundTrip(v.i);
    case KMessage(sub) => ParseSerialized(sub, v.m);
  }

  lemma {:induction false} ApplySlotRecords(s: Schema, i: nat, vs: seq<Value>, p: Message)
    requires WfSchema(s) && Typed(s, p) && i < |s.fields| && TypedSlot(s.fields[i], vs)
    requires s.fields[i].kind.KMessage? ==> forall v :: v in vs ==> CanonicalSub(s.fields[i].kind.schema, v)
    requires s.fields[i].lbl != Repeated ==> p.slots[i] == []
    requires forall r :: r in SlotRecords(s.fields[i], vs) ==> WfRecord(r)
    ensures ApplyAll(s, SlotRecords(s.fields[i], vs), p) == Some(p.(slots := p.slots[i := p.slots[i] + vs]))
    decreases s, 1, |vs|
  {
    if vs == [] {
      assert p.slots[i] + vs == p.slots[i];
      assert p.slots[i := p.slots[i]] == p.slots;
    } else {
      var rs := SlotRecords(s.fields[i], vs);
      assert rs[1..] == SlotRecords(s.fields[i], vs[1..]);
      ApplyValueRecord(s, i, vs[0], p);
      var q := Put(s, p, i, vs[0]);
      if s.fields[i].lbl == Repeated {
        assert p.slots[i] + vs == p.slots[i] + [vs[0]] + vs[1..];
        ApplySlotRecords(s, i, vs[1..], q);
        assert q.slots[i := q.slots[i] + vs[1..]] == p.slots[i := p.slots[i] + vs];
      } else {
        assert vs == [vs[0]] && rs[1..] == [];
        assert p.slots[i] + vs == [vs[0]];
      }
    }
  }

  lemma {:induction false} ApplyUnknown(s: Schema, rs: seq<Record>, p: Message)
    requires Typed(s, p) && forall r :: r in rs ==> WfRecord(r) && Unclaimed(s, r)
    ensures ApplyAll(s, rs, p) == Some(p.(unknown := p.unknown + rs))
    decreases |rs|
  {
    if rs == [] {
      assert p.unknown + rs == p.unknown;
    } else {
      assert Apply(s, rs[0], p) == Some(AddUnknown(p, rs[0]));
      ApplyUnknown(s, rs[1..], AddUnknown(p, rs[0]));
      assert p.unknown + [rs[0]] + rs[1..] == p.unknown + rs;
    }
  }

  /** With the first `from` slots restored, the remaining records restore the rest. */
  lemma {:induction false} ApplyFieldRecords(s: Schema, m: Message, from: nat, p: Message)
    requires WfSchema(s) && Typed(s, m) && Canonical(s, m) && from <= |s.fields|
    requires p.unknown == [] && |p.slots| == |s.fields|
    requires forall j :: 0 <= j < from ==> p.slots[j] == m.slots[j]
    requires forall j :: from <= j < |s.fields| ==> p.slots[j] == []
    requires forall r :: r in FieldRecords(s, m, from) ==> WfRecord(r)
    ensures Typed(s, p)
    ensures ApplyAll(s, FieldRecords(s, m, from), p) == Some(Message(m.slots, []))
    decreases s, 2, |s.fields| - from
  {
    if from == |s.fields| {
      assert p.slots == m.slots;
    } else {
      var f := s.fields[from];
      assert TypedSlot(f, m.slots[from]);
      assert Typed(s, p) by {
        forall j | 0 <= j < |s.fields| ensures TypedSlot(s.fields[j], p.slots[j]) {
          assert TypedSlot(s.fields[j], m.slots[j]);
        }
      }
      var head := SlotRecords(f, m.slots[from]);
      ApplySlotRecords(s, from, m.slots[from], p);
      var q := p.(slots := p.slots[from := [] + m.slots[from]]);
      ApplyFieldRecords(s, m, from + 1, q);
      ApplyAllConcat(s, head, FieldRecords(s, m, from + 1), p);
    }
  }

  lemma {:induction false} ParseSerialized(s: Schema, m: Message)
    requires WfSchema(s) && Typed(s, m) && Canonical(s, m) && |Serialize(s, m)| < TWO31
    ensures ParsePartial(s, Serialize(s, m)) == Some(m)
    decreases s, 3
  {
    RecordsAreWf(s, m);
    ReadAllOfWriteAll(Records(s, m));
    var fields := FieldRecords(s, m, 0);
    assert forall r :: r in fields ==> r in Records(s, m);
    ApplyFieldRecords(s, m, 0, Empty(s));
    ApplyAllConcat(s, fields, m.unknown, Empty(s));
    var q := Message(m.slots, []);
    ApplyUnknown(s, m.unknown, q);
    assert [] + m.unknown == m.unknown;
  }

  /** Serialising and parsing gives a message back exactly when its unknown fields are ones
      the parser leaves unclaimed, at every level; every parsed message is of that kind. */
  lemma RoundTrip(s: Schema, m: Message)
    requires WfSchema(s) && Typed(s, m) && |Serialize(s, m)| < TWO31
    ensures ParsePartial(s, Serialize(s, m)) == Some(m) <==> Canonical(s, m)
  {
    if Canonical(s, m) { ParseSerialized(s, m); }
    var o := ParsePartial(s, Serialize(s, m));
    if o.Some? { ParseIntoCanonical(s, Serialize(s, m), Empty(s)); }
  }
}
