/** Message types as descriptors, and messages as values.

    The generated C++ classes are one template instantiated per message type; a `Schema`
    holds what an instance differs in: the declared fields in order, with their numbers,
    types and labels. */
module Messages {
  import opened Bytes
  import opened Wire

  datatype Label = Required | Optional | Repeated

  datatype Kind =
    | KString
    | KInt32
    | KEnum(valid: set<int>)
    | KMessage(schema: Schema)

  datatype Field = Field(num: nat, kind: Kind, lbl: Label)

  datatype Schema = Schema(fields: seq<Field>)

  /** A scalar member or an owned sub-message. */
  datatype Value = Str(s: bytes) | Int(i: int) | Sub(m: Message)

  /** One slot per declared field. A singular field's slot holds at most one value and is
      empty exactly when its has-bit is clear; a repeated field's slot holds its elements.
      `unknown` is the unknown field set. */
  datatype Message = Message(slots: seq<seq<Value>>, unknown: seq<Record>)

  function KindWire(k: Kind): (w: nat)
    ensures w == 0 || w == 2
  {
    if k.KString? || k.KMessage? then 2 else 0
  }

  function FieldTag(f: Field): nat { Tag(f.num, KindWire(f.kind)) }

  /** The `case` a field number selects, or `|fs|` for the `default` one. */
  function FieldIndex(fs: seq<Field>, num: nat, from: nat): (i: nat)
    requires from <= |fs|
    ensures from <= i <= |fs|
    ensures i < |fs| ==> fs[i].num == num
    ensures forall j :: from <= j < i ==> fs[j].num != num
    decreases |fs| - from
  {
    if from == |fs| || fs[from].num == num then from else FieldIndex(fs, num, from + 1)
  }

  /** The field that claims a record: its number and its wire type both agree. */
  function Claimant(s: Schema, r: Record): (i: nat)
    ensures i <= |s.fields|
    ensures i < |s.fields| ==> s.fields[i].num == r.num && KindWire(s.fields[i].kind) == WireType(r.payload)
  {
    var i := FieldIndex(s.fields, r.num, 0);
    if i < |s.fields| && KindWire(s.fields[i].kind) == WireType(r.payload) then i else |s.fields|
  }

  /** Field numbers are positive, below 2^29 and distinct; enumerations hold 32-bit values. */
  ghost predicate WfSchema(s: Schema) {
    && (forall i :: 0 <= i < |s.fields| ==> WfField(s.fields[i]))
    && (forall i, j :: 0 <= i < j < |s.fields| ==> s.fields[i].num != s.fields[j].num)
  }

  ghost predicate WfField(f: Field) {
    && 1 <= f.num < MAX_FIELD
    && (f.kind.KEnum? ==> forall x :: x in f.kind.valid ==> IsInt32(x))
    && (f.kind.KMessage? ==> WfSchema(f.kind.schema))
  }

  // ---- What setters can build, and what a parser can produce ---------------------------

  /** The C++ type of a message: what its setters let a program store. */
  ghost predicate Typed(s: Schema, m: Message) {
    && |m.slots| == |s.fields|
    && (forall i :: 0 <= i < |s.fields| ==> TypedSlot(s.fields[i], m.slots[i]))
    && (forall r :: r in m.unknown ==> WfRecord(r))
  }

  ghost predicate TypedSlot(f: Field, vs: seq<Value>) {
    && (f.lbl != Repeated ==> |vs| <= 1)
    && (forall v :: v in vs ==> TypedValue(f, v))
  }

  ghost predicate TypedValue(f: Field, v: Value) {
    match f.kind
    case KString => v.Str?
    case KInt32 => v.Int? && IsInt32(v.i)
    case KEnum(valid) => v.Int? && v.i in valid
    case KMessage(sub) => v.Sub? && Typed(sub, v.m)
  }

  /** An unknown record no `case` of the parser would have claimed, or an out-of-range
      enumeration value kept sign-extended. */
  predicate Unclaimed(s: Schema, r: Record) {
    var i := Claimant(s, r);
    i < |s.fields| ==>
      && s.fields[i].kind.KEnum?
      && r.payload == PVarint(ToUInt64(ToInt32(r.payload.v)))
      && ToInt32(r.payload.v) !in s.fields[i].kind.valid
  }

  /** At every level the unknown fields are ones the parser leaves unclaimed. */
  ghost predicate Canonical(s: Schema, m: Message)
    requires Typed(s, m)
  {
    && (forall r :: r in m.unknown ==> Unclaimed(s, r))
    && (forall i, v :: 0 <= i < |s.fields| && v in m.slots[i] && s.fields[i].kind.KMessage? ==>
          CanonicalSub(s.fields[i].kind.schema, v))
  }

  ghost predicate CanonicalSub(sub: Schema, v: Value) {
    v.Sub? && Typed(sub, v.m) && Canonical(sub, v.m)
  }

  // ---- Building ------------------------------------------------------------------------

  /** A freshly constructed message: every has-bit clear, every list empty. */
  function Empty(s: Schema): (m: Message)
    ensures Typed(s, m) && Canonical(s, m)
    ensures forall i :: 0 <= i < |m.slots| ==> m.slots[i] == []
  {
    Message(seq(|s.fields|, _ => []), [])
  }

  /** `set_x` for a singular field, `add_x` for a repeated one. */
  function Put(s: Schema, m: Message, i: nat, v: Value): (r: Message)
    requires Typed(s, m) && i < |s.fields| && TypedValue(s.fields[i], v)
    ensures Typed(s, r) && r.unknown == m.unknown
    ensures forall j :: 0 <= j < |m.slots| && j != i ==> r.slots[j] == m.slots[j]
    ensures r.slots[i] == if s.fields[i].lbl == Repeated then m.slots[i] + [v] else [v]
  {
    var vs := if s.fields[i].lbl == Repeated then m.slots[i] + [v] else [v];
    assert TypedSlot(s.fields[i], m.slots[i]);
    assert TypedSlot(s.fields[i], vs);
    m.(slots := m.slots[i := vs])
  }

  lemma PutCanonical(s: Schema, m: Message, i: nat, v: Value)
    requires Typed(s, m) && Canonical(s, m) && i < |s.fields| && TypedValue(s.fields[i], v)
    requires s.fields[i].kind.KMessage? ==> CanonicalSub(s.fields[i].kind.schema, v)
    ensures Canonical(s, Put(s, m, i, v))
  {
  }

  /** Every required field is set, here and in every sub-message. */
  predicate Initialized(s: Schema, m: Message)
    requires |m.slots| == |s.fields|
    decreases s, 0
  {
    forall i :: 0 <= i < |s.fields| ==> InitializedSlot(s.fields[i], m.slots[i])
  }

  predicate InitializedSlot(f: Field, vs: seq<Value>)
    decreases f, 2
  {
    && (f.lbl == Required ==> vs != [])
    && (f.kind.KMessage? ==> forall v :: v in vs && v.Sub? ==> InitializedSub(f.kind.schema, v.m))
  }

  predicate InitializedSub(s: Schema, m: Message)
    decreases s, 1
  {
    |m.slots| == |s.fields| && Initialized(s, m)
  }

  // ---- Merging -------------------------------------------------------------------------

  /** `MergeFrom`: scalars last-wins, sub-messages merge, repeated and unknown fields
      concatenate. */
  function Merge(s: Schema, m: Message, n: Message): (r: Message)
    requires Typed(s, m) && Typed(s, n)
    ensures Typed(s, r)
    ensures forall i :: 0 <= i < |s.fields| ==> r.slots[i] == MergeSlot(s.fields[i], m.slots[i], n.slots[i])
    ensures r.unknown == m.unknown + n.unknown
    decreases s, 0
  {
    Message(
      seq(|s.fields|, i requires 0 <= i < |s.fields| => MergeSlot(s.fields[i], m.slots[i], n.slots[i])),
      m.unknown + n.unknown)
  }

  function MergeSlot(f: Field, a: seq<Value>, b: seq<Value>): (c: seq<Value>)
    requires TypedSlot(f, a) && TypedSlot(f, b)
    ensures TypedSlot(f, c)
    decreases f, 1
  {
    if f.lbl == Repeated then a + b
    else if b == [] then a
    else if f.kind.KMessage? && a != [] then
      assert TypedValue(f, a[0]) && TypedValue(f, b[0]);
      [Sub(Merge(f.kind.schema, a[0].m, b[0].m))]
    else b
  }

  lemma MergeEmpty(s: Schema, m: Message)
    requires Typed(s, m)
    ensures Merge(s, m, Empty(s)) == m && Merge(s, Empty(s), m) == m
  {
    forall i | 0 <= i < |s.fields|
      ensures MergeSlot(s.fields[i], m.slots[i], []) == m.slots[i] == MergeSlot(s.fields[i], [], m.slots[i])
    {
      assert TypedSlot(s.fields[i], m.slots[i]);
      assert m.slots[i] + [] == m.slots[i] == [] + m.slots[i];
    }
    var e := Empty(s);
    assert Merge(s, m, e).slots == m.slots;
    assert Merge(s, e, m).slots == m.slots;
    assert m.unknown + [] == m.unknown == [] + m.unknown;
  }

  lemma {:induction false} MergeAssociative(s: Schema, a: Message, b: Message, c: Message)
    requires Typed(s, a) && Typed(s, b) && Typed(s, c)
    ensures Merge(s, Merge(s, a, b), c) == Merge(s, a, Merge(s, b, c))
    decreases s, 0
  {
    var l, r := Merge(s, Merge(s, a, b), c), Merge(s, a, Merge(s, b, c));
    forall i | 0 <= i < |s.fields| ensures l.slots[i] == r.slots[i] {
      MergeSlotAssociative(s.fields[i], a.slots[i], b.slots[i], c.slots[i]);
    }
    assert l.slots == r.slots;
  }

  lemma {:induction false} MergeSlotAssociative(f: Field, a: seq<Value>, b: seq<Value>, c: seq<Value>)
    requires TypedSlot(f, a) && TypedSlot(f, b) && TypedSlot(f, c)
    ensures MergeSlot(f, MergeSlot(f, a, b), c) == MergeSlot(f, a, MergeSlot(f, b, c))
    decreases f, 1
  {
    if f.lbl == Repeated {
      assert a + b + c == a + (b + c);
    } else if f.kind.KMessage? && a != [] && b != [] && c != [] {
      assert TypedValue(f, a[0]) && TypedValue(f, b[0]) && TypedValue(f, c[0]);
      MergeAssociative(f.kind.schema, a[0].m, b[0].m, c[0].m);
    }
  }
}
