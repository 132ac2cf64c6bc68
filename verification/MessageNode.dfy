/** Message objects on the heap while they are being sized and written: everything but
    `_cached_size_` is constant, as in the `const` member functions of the generated code. */
module MessageNodes {
  import opened Bytes
  import opened Wire
  import opened Messages
  import opened Codec

  /** `CodedOutputStream::VarintSize32/64`. */
  function VarintSize(v: nat): (n: nat)
    ensures n == |Varint(v)|
  {
    if v < 128 then 1 else 1 + VarintSize(v / 128)
  }

  /** `WireFormat::ComputeUnknownFieldsSize`, one field at a time. */
  function RecordSize(r: Record): (n: nat)
    ensures n == |WriteRecord(r)|
  {
    VarintSize(Tag(r.num, WireType(r.payload))) +
    match r.payload
      case PVarint(v) => VarintSize(v)
      case PFixed64(b) => |b|
      case PLen(b) => VarintSize(|b|) + |b|
      case PFixed32(b) => |b|
  }

  // ---- Lengths of the parts of an encoding -----------------------------------------------

  /** The bytes of one field. */
  function SlotBytes(f: Field, vs: seq<Value>): bytes
    requires forall v :: v in vs ==> TypedValue(f, v)
  {
    WriteAll(SlotRecords(f, vs))
  }

  lemma SlotBytesStep(f: Field, vs: seq<Value>, j: nat)
    requires j < |vs| && forall v :: v in vs ==> TypedValue(f, v)
    ensures SlotBytes(f, vs[j..]) == WriteRecord(ValueRecord(f, vs[j])) + SlotBytes(f, vs[j + 1..])
  {
    assert vs[j..][1..] == vs[j + 1..];
  }

  /** What is left to write from field `i` on. */
  function Remaining(s: Schema, m: Message, i: nat): bytes
    requires Typed(s, m) && i <= |s.fields|
  {
    WriteAll(FieldRecords(s, m, i) + m.unknown)
  }

  lemma RemainingStep(s: Schema, m: Message, i: nat)
    requires Typed(s, m) && i < |s.fields|
    ensures TypedSlot(s.fields[i], m.slots[i])
    ensures Remaining(s, m, i) == SlotBytes(s.fields[i], m.slots[i]) + Remaining(s, m, i + 1)
  {
    assert TypedSlot(s.fields[i], m.slots[i]);
    var head, tail := SlotRecords(s.fields[i], m.slots[i]), FieldRecords(s, m, i + 1);
    assert head + tail + m.unknown == head + (tail + m.unknown);
    WriteAllConcat(head, tail + m.unknown);
  }

  lemma RemainingStart(s: Schema, m: Message)
    requires Typed(s, m)
    ensures Remaining(s, m, 0) == Serialize(s, m)
  {
  }

  lemma RemainingEnd(s: Schema, m: Message)
    requires Typed(s, m)
    ensures Remaining(s, m, |s.fields|) == WriteAll(m.unknown)
  {
    assert [] + m.unknown == m.unknown;
  }

  /** The length of the fields before `i` that are repeated, or of those that are not. */
  function PrefixLength(s: Schema, m: Message, i: nat, repeated: bool): nat
    requires Typed(s, m) && i <= |s.fields|
  {
    if i == 0 then 0
    else
      assert TypedSlot(s.fields[i - 1], m.slots[i - 1]);
      PrefixLength(s, m, i - 1, repeated) +
        if (s.fields[i - 1].lbl == Repeated) == repeated then |SlotBytes(s.fields[i - 1], m.slots[i - 1])| else 0
  }

  lemma {:induction false} LengthSplit(s: Schema, m: Message, i: nat)
    requires Typed(s, m) && i <= |s.fields|
    ensures PrefixLength(s, m, i, false) + PrefixLength(s, m, i, true) + |Remaining(s, m, i)| == |Remaining(s, m, 0)|
  {
    hide Remaining, SlotBytes;
    if i > 0 {
      LengthSplit(s, m, i - 1);
      RemainingStep(s, m, i - 1);
    }
  }

  // ---- The objects -----------------------------------------------------------------------

  datatype Cell = Text(s: bytes) | Number(i: int) | Child(n: MessageNode)

  class OutputStream {
    var written: bytes

    constructor ()
      ensures written == []
    {
      written := [];
    }
  }

  class MessageNode {
    const schema: Schema
    const hasBits: seq<bool>
    const cells: seq<seq<Cell>>
    const unknown: seq<Record>
    ghost const repr: set<MessageNode>
    var cachedSize: nat

    constructor (schema: Schema, hasBits: seq<bool>, cells: seq<seq<Cell>>, unknown: seq<Record>)
      ensures this.schema == schema && this.hasBits == hasBits && this.cells == cells && this.unknown == unknown
      ensures cachedSize == 0
      ensures repr == {this} + set i, c, n | 0 <= i < |cells| && c in cells[i] && c.Child? && n in c.n.repr :: n
    {
      this.schema, this.hasBits, this.cells, this.unknown := schema, hasBits, cells, unknown;
      this.cachedSize := 0;
      this.repr := {this} + set i, c, n | 0 <= i < |cells| && c in cells[i] && c.Child? && n in c.n.repr :: n;
    }

    /** A tree of the schema's shape. A member may keep a stale value while its has-bit is
        clear; when the bit is set it holds exactly one. */
    ghost predicate Tree()
      decreases schema, 1
    {
      && |cells| == |schema.fields| == |hasBits|
      && this in repr
      && (forall i, c :: 0 <= i < |cells| && c in cells[i] ==> TreeCell(schema.fields[i], c, repr))
      && (forall i :: 0 <= i < |cells| && schema.fields[i].lbl != Repeated && hasBits[i] ==> |cells[i]| == 1)
      && (forall r :: r in unknown ==> WfRecord(r))
    }

    static ghost predicate TreeCell(f: Field, c: Cell, bound: set<MessageNode>)
      decreases f, 0
    {
      match f.kind
      case KString => c.Text?
      case KInt32 => c.Number? && IsInt32(c.i)
      case KEnum(valid) => c.Number? && c.i in valid
      case KMessage(sub) => c.Child? && c.n.schema == sub && c.n.repr <= bound && c.n.Tree()
    }

    static ghost function CellValue(f: Field, c: Cell, bound: set<MessageNode>): (v: Value)
      requires TreeCell(f, c, bound)
      ensures TypedValue(f, v)
      decreases f, 0
    {
      match c
      case Text(s) => Str(s)
      case Number(i) => Int(i)
      case Child(n) => Sub(n.View())
    }

    predicate Shown(i: nat)
      requires i < |schema.fields| && i < |hasBits|
    {
      schema.fields[i].lbl == Repeated || hasBits[i]
    }

    static ghost function CellValues(f: Field, cs: seq<Cell>, bound: set<MessageNode>): (vs: seq<Value>)
      requires forall c :: c in cs ==> TreeCell(f, c, bound)
      ensures |vs| == |cs|
      ensures forall j :: 0 <= j < |cs| ==> vs[j] == CellValue(f, cs[j], bound)
      ensures forall v :: v in vs ==> TypedValue(f, v)
      decreases f, 1
    {
      seq(|cs|, j requires 0 <= j < |cs| => CellValue(f, cs[j], bound))
    }

    ghost function Slot(i: nat): (vs: seq<Value>)
      requires Tree() && i < |cells|
      ensures TypedSlot(schema.fields[i], vs)
      decreases schema, 0
    {
      if Shown(i) then CellValues(schema.fields[i], cells[i], repr) else []
    }

    /** The message the object stands for. */
    ghost function View(): (m: Message)
      requires Tree()
      ensures Typed(schema, m) && m.unknown == unknown
      ensures forall i :: 0 <= i < |cells| ==> m.slots[i] == Slot(i)
      decreases schema, 1
    {
      Message(seq(|cells|, i requires 0 <= i < |cells| => Slot(i)), unknown)
    }

    ghost function Size(): nat
      requires Tree()
    {
      |Serialize(schema, View())|
    }

    static ghost function CellWritten(f: Field, c: Cell, bound: set<MessageNode>): (ns: set<MessageNode>)
      requires TreeCell(f, c, bound)
      ensures ns <= bound
      decreases f, 0
    {
      if c.Child? then c.n.Written() else {}
    }

    static ghost function CellsWritten(f: Field, cs: seq<Cell>, bound: set<MessageNode>): (ns: set<MessageNode>)
      requires forall c :: c in cs ==> TreeCell(f, c, bound)
      ensures ns <= bound
      decreases f, 1, |cs|
    {
      if cs == [] then {} else CellWritten(f, cs[0], bound) + CellsWritten(f, cs[1..], bound)
    }

    ghost function WrittenBefore(i: nat, repeated: bool): (ns: set<MessageNode>)
      requires Tree() && i <= |cells|
      ensures ns <= repr
      decreases schema, 0, i
    {
      if i == 0 then {}
      else
        WrittenBefore(i - 1, repeated) +
          if Shown(i - 1) && (schema.fields[i - 1].lbl == Repeated) == repeated
          then CellsWritten(schema.fields[i - 1], cells[i - 1], repr) else {}
    }

    /** The objects a serialiser visits. */
    ghost function Written(): (ns: set<MessageNode>)
      requires Tree()
      ensures ns <= repr
      decreases schema, 1
    {
      {this} + WrittenBefore(|cells|, false) + WrittenBefore(|cells|, true)
    }

    /** Every object that will be written caches its own length. */
    ghost predicate AllCached()
      requires Tree()
      reads repr
    {
      AllRight(Written())
    }

    static ghost predicate AllRight(ns: set<MessageNode>)
      reads ns
    {
      forall n :: n in ns ==> n.Right()
    }

    /** The cached size is the encoded length. */
    ghost predicate Right()
      reads this
    {
      Tree() && cachedSize == Size()
    }

    // ---- ByteSize ------------------------------------------------------------------------

    /** The test on a word of has-bits, eight declared fields at a time. */
    predicate GroupSet(g: nat)
    {
      exists i :: 8 * g <= i < 8 * g + 8 && i < |hasBits| && hasBits[i]
    }

    /** Tag plus payload of one value; a sub-message is sized on the way. */
    method CellSize(f: Field, c: Cell) returns (n: nat)
      requires TreeCell(f, c, repr)
      modifies repr`cachedSize
      ensures n == |WriteRecord(ValueRecord(f, CellValue(f, c, repr)))|
      ensures AllRight(CellWritten(f, c, repr))
      ensures forall x :: x in repr ==> x.cachedSize == old(x.cachedSize) || x.Right()
      decreases f, 1
    {
      var tagSize := VarintSize(FieldTag(f));
      match c {
        case Text(s) => n := tagSize + VarintSize(|s|) + |s|;
        case Number(i) => n := tagSize + VarintSize(ToUInt64(i));
        case Child(node) =>
          var size := node.ByteSize();
          n := tagSize + VarintSize(size) + size;
      }
    }

    method SlotSize(f: Field, cs: seq<Cell>) returns (total: nat)
      requires forall c :: c in cs ==> TreeCell(f, c, repr)
      modifies repr`cachedSize
      ensures total == |SlotBytes(f, CellValues(f, cs, repr))|
      ensures AllRight(CellsWritten(f, cs, repr))
      ensures forall x :: x in repr ==> x.cachedSize == old(x.cachedSize) || x.Right()
      decreases f, 2
    {
      total := 0;
      ghost var vs := CellValues(f, cs, repr);
      assert vs[0..] == vs && cs[0..] == cs;
      ghost var done: set<MessageNode> := {};
      for j := 0 to |cs|
        invariant total + |SlotBytes(f, vs[j..])| == |SlotBytes(f, vs)|
        invariant done + CellsWritten(f, cs[j..], repr) == CellsWritten(f, cs, repr)
        invariant done <= repr && AllRight(done)
        invariant forall x :: x in repr ==> x.cachedSize == old(x.cachedSize) || x.Right()
      {
        var n := CellSize(f, cs[j]);
        SlotBytesStep(f, vs, j);
        total := total + n;
        assert cs[j..][1..] == cs[j + 1..];
        done := done + CellWritten(f, cs[j], repr);
      }
    }

    lemma SkippedField(m: Message, i: nat)
      requires Tree() && m == View() && i < |cells| && !hasBits[i]
      ensures PrefixLength(schema, m, i + 1, false) == PrefixLength(schema, m, i, false)
      ensures WrittenBefore(i + 1, false) == WrittenBefore(i, false)
    {
      hide View;
      if schema.fields[i].lbl != Repeated {
        assert m.slots[i] == Slot(i) == [];
        assert SlotBytes(schema.fields[i], []) == [];
      }
    }

    /** A group whose test fails holds no field to size: skipping it skips nothing. */
    lemma {:induction false} SkippedGroup(m: Message, lo: nat, hi: nat)
      requires Tree() && m == View() && |cells| == |schema.fields| == |hasBits| && lo <= hi <= |cells|
      requires forall k :: lo <= k < hi ==> !hasBits[k]
      ensures PrefixLength(schema, m, hi, false) == PrefixLength(schema, m, lo, false)
      ensures WrittenBefore(hi, false) == WrittenBefore(lo, false)
      decreases hi
    {
      hide Tree, View, PrefixLength, WrittenBefore;
      if lo < hi {
        SkippedGroup(m, lo, hi - 1);
        SkippedField(m, hi - 1);
      }
    }

    /** The fields before `i` that are repeated, or those that are not, have been sized: their
        encodings are `total` bytes long, and the objects below them cache their own lengths. */
    ghost predicate SizedBefore(i: nat, repeated: bool, total: nat)
      reads repr
    {
      && Tree() && i <= |cells|
      && total == PrefixLength(schema, View(), i, repeated)
      && AllRight(WrittenBefore(i, repeated))
    }

    lemma NothingSized(repeated: bool)
      requires Tree()
      ensures SizedBefore(0, repeated, 0) && |cells| == |schema.fields| == |hasBits|
    {
    }

    lemma SkippedSized(lo: nat, hi: nat, total: nat)
      requires SizedBefore(lo, false, total) && lo <= hi <= |cells| == |schema.fields| == |hasBits|
      requires forall k :: lo <= k < hi ==> !hasBits[k]
      ensures SizedBefore(hi, false, total)
    {
      hide Tree, PrefixLength, WrittenBefore, View, AllRight;
      SkippedGroup(View(), lo, hi);
    }

    /** `if (has_x()) total_size += ...`, or the loop over a repeated field, when the field is
        of the kind asked for. */
    method FieldSize(i: nat, repeated: bool, before: nat) returns (total: nat)
      requires SizedBefore(i, repeated, before) && i < |cells|
      modifies repr`cachedSize
      ensures SizedBefore(i + 1, repeated, total)
      ensures forall x :: x in repr ==> x.cachedSize == old(x.cachedSize) || x.Right()
      decreases schema, 1
    {
      total := before;
      if (schema.fields[i].lbl == Repeated) == repeated && (repeated || hasBits[i]) {
        var n := SlotSize(schema.fields[i], cells[i]);
        total := total + n;
      }
    }

    /** The singular fields of one group. */
    method GroupSize(lo: nat, hi: nat, before: nat) returns (total: nat)
      requires SizedBefore(lo, false, before) && lo <= hi <= |cells|
      modifies repr`cachedSize
      ensures SizedBefore(hi, false, total)
      ensures forall x :: x in repr ==> x.cachedSize == old(x.cachedSize) || x.Right()
      decreases schema, 2
    {
      hide SizedBefore;
      total := before;
      for i := lo to hi
        invariant SizedBefore(i, false, total)
        invariant forall x :: x in repr ==> x.cachedSize == old(x.cachedSize) || x.Right()
      {
        total := FieldSize(i, false, total);
      }
    }

    /** The singular fields, a word of has-bits at a time. */
    method SingularSize() returns (total: nat)
      requires Tree()
      modifies repr`cachedSize
      ensures SizedBefore(|cells|, false, total)
      ensures forall x :: x in repr ==> x.cachedSize == old(x.cachedSize) || x.Right()
      decreases schema, 3
    {
      hide SizedBefore, Tree;
      NothingSized(false);
      total := 0;
      var i := 0;
      while i < |cells|
        invariant i == |cells| || (i < |cells| && i % 8 == 0)
        invariant SizedBefore(i, false, total)
        invariant forall x :: x in repr ==> x.cachedSize == old(x.cachedSize) || x.Right()
      {
        var next := if i + 8 <= |cells| then i + 8 else |cells|;
        if GroupSet(i / 8) {
          total := GroupSize(i, next, total);
        } else {
          SkippedSized(i, next, total);
        }
        i := next;
      }
    }

    method RepeatedSize() returns (total: nat)
      requires Tree()
      modifies repr`cachedSize
      ensures SizedBefore(|cells|, true, total)
      ensures forall x :: x in repr ==> x.cachedSize == old(x.cachedSize) || x.Right()
      decreases schema, 3
    {
      hide SizedBefore, Tree;
      NothingSized(true);
      total := 0;
      for j := 0 to |cells|
        invariant SizedBefore(j, true, total)
        invariant forall x :: x in repr ==> x.cachedSize == old(x.cachedSize) || x.Right()
      {
        total := FieldSize(j, true, total);
      }
    }

    static method UnknownSize(unknown: seq<Record>) returns (total: nat)
      ensures total == |WriteAll(unknown)|
    {
      total := 0;
      assert unknown[0..] == unknown;
      for k := 0 to |unknown|
        invariant total + |WriteAll(unknown[k..])| == |WriteAll(unknown)|
      {
        total := total + RecordSize(unknown[k]);
        assert unknown[k..][1..] == unknown[k + 1..];
      }
    }

    lemma SizeSplit()
      requires Tree()
      ensures Size() == PrefixLength(schema, View(), |cells|, false)
                        + PrefixLength(schema, View(), |cells|, true) + |WriteAll(unknown)|
    {
      var m := View();
      RemainingStart(schema, m);
      LengthSplit(schema, m, |cells|);
      RemainingEnd(schema, m);
    }

    /** Returns the encoded length and leaves every visited object caching its own. */
    method ByteSize() returns (total: nat)
      requires Tree()
      modifies repr`cachedSize
      ensures total == Size()
      ensures AllCached()
      ensures forall x :: x in repr ==> x.cachedSize == old(x.cachedSize) || x.Right()
      decreases schema, 4
    {
      hide WrittenBefore, PrefixLength, WriteAll, View, Size;
      var singular := SingularSize();
      var repeated := RepeatedSize();
      var other := UnknownSize(unknown);
      total := singular + repeated + other;
      SizeSplit();
      cachedSize := total;
    }

    // ---- Writing -------------------------------------------------------------------------

    lemma ChildIsCached(f: Field, cs: seq<Cell>, j: nat)
      requires j < |cs| && forall c :: c in cs ==> TreeCell(f, c, repr)
      ensures CellWritten(f, cs[j], repr) <= CellsWritten(f, cs, repr)
    {
      if j > 0 {
        ChildIsCached(f, cs[1..], j - 1);
      }
    }

    lemma {:induction false} ShownIsWritten(i: nat, n: nat)
      requires Tree() && i < n <= |cells| && Shown(i)
      ensures CellsWritten(schema.fields[i], cells[i], repr) <= WrittenBefore(n, schema.fields[i].lbl == Repeated)
    {
      if i < n - 1 { ShownIsWritten(i, n - 1); }
    }

    /** What is written for one value. */
    lemma CellBytes(f: Field, c: Cell, bound: set<MessageNode>)
      requires TreeCell(f, c, bound)
      ensures WriteRecord(ValueRecord(f, CellValue(f, c, bound))) == Varint(FieldTag(f)) +
        match c
          case Text(s) => Varint(|s|) + s
          case Number(i) => Varint(ToUInt64(i))
          case Child(n) => Varint(|Serialize(n.schema, n.View())|) + Serialize(n.schema, n.View())
    {
      hide Serialize, Varint, Tree, View;
    }

    lemma ChildIsReady(f: Field, c: Cell, bound: set<MessageNode>)
      requires TreeCell(f, c, bound) && AllRight(CellWritten(f, c, bound)) && c.Child?
      ensures f.kind.KMessage? && c.n.schema == f.kind.schema
      ensures c.n.Tree() && c.n.AllCached() && c.n.cachedSize == |Serialize(c.n.schema, c.n.View())|
    {
      assert c.n in CellWritten(f, c, bound);
      hide Serialize, Tree, View;
    }

    /** `WriteString`, `WriteEnum`, `WriteInt32`, or a tag, the cached size of the
        sub-message as length prefix, and the sub-message. */
    method WriteCell(f: Field, c: Cell, output: OutputStream)
      requires TreeCell(f, c, repr) && AllRight(CellWritten(f, c, repr))
      modifies output
      ensures output.written == old(output.written) + WriteRecord(ValueRecord(f, CellValue(f, c, repr)))
      decreases f, 1
    {
      hide *;
      CellBytes(f, c, repr);
      var tag := Varint(FieldTag(f));
      ghost var before := output.written;
      match c {
        case Text(s) =>
          output.written := output.written + tag + Varint(|s|) + s;
          Regroup(before, tag, Varint(|s|), s);
        case Number(i) =>
          output.written := output.written + tag + Varint(ToUInt64(i));
          Associative(before, tag, Varint(ToUInt64(i)));
        case Child(node) =>
          ChildIsReady(f, c, repr);
          ghost var body := Serialize(node.schema, node.View());
          output.written := output.written + tag + Varint(node.cachedSize);
          node.SerializeWithCachedSizes(output);
          Regroup(before, tag, Varint(|body|), body);
      }
    }

    static lemma Regroup(a: bytes, b: bytes, c: bytes, d: bytes)
      ensures a + b + c + d == a + (b + (c + d))
    {
    }

    method WriteCells(f: Field, cs: seq<Cell>, output: OutputStream)
      requires (forall c :: c in cs ==> TreeCell(f, c, repr)) && AllRight(CellsWritten(f, cs, repr))
      modifies output
      ensures output.written == old(output.written) + SlotBytes(f, CellValues(f, cs, repr))
      decreases f, 2
    {
      ghost var vs := CellValues(f, cs, repr);
      assert vs[0..] == vs;
      assert SlotBytes(f, []) == [];
      hide SlotBytes, WriteRecord, ValueRecord, Tree, CellValue, CellsWritten, CellWritten, TreeCell, TypedValue;
      ghost var before := output.written;
      assert before + SlotBytes(f, vs[0..]) == before + SlotBytes(f, vs);
      for j := 0 to |cs|
        invariant output.written + SlotBytes(f, vs[j..]) == before + SlotBytes(f, vs)
      {
        ghost var b := output.written;
        ChildIsCached(f, cs, j);
        SlotBytesStep(f, vs, j);
        WriteCell(f, cs[j], output);
        Associative(b, WriteRecord(ValueRecord(f, vs[j])), SlotBytes(f, vs[j + 1..]));
      }
      assert output.written + [] == output.written;
    }

    static lemma WriteAllStep(rs: seq<Record>, k: nat)
      requires k <= |rs|
      ensures k < |rs| ==> WriteAll(rs[k..]) == WriteRecord(rs[k]) + WriteAll(rs[k + 1..])
      ensures k == |rs| ==> WriteAll(rs[k..]) == []
      ensures rs[0..] == rs
    {
      hide WriteRecord;
      if k < |rs| { assert rs[k..][1..] == rs[k + 1..]; }
    }

    static method WriteUnknown(unknown: seq<Record>, output: OutputStream)
      modifies output
      ensures output.written == old(output.written) + WriteAll(unknown)
    {
      hide *;
      ghost var before, done := output.written, [];
      WriteAllStep(unknown, 0);
      assert before + [] == before && [] + WriteAll(unknown) == WriteAll(unknown);
      for k := 0 to |unknown|
        invariant output.written == before + done && done + WriteAll(unknown[k..]) == WriteAll(unknown)
      {
        WriteAllStep(unknown, k);
        ghost var record := WriteRecord(unknown[k]);
        Associative(done, record, WriteAll(unknown[k + 1..]));
        Associative(before, done, record);
        output.written := output.written + WriteRecord(unknown[k]);
        done := done + record;
      }
      WriteAllStep(unknown, |unknown|);
      assert done + [] == done;
    }

    /** `if (has_x()) ...` for a singular field, the loop over the list for a repeated one. */
    method WriteField(i: nat, output: OutputStream)
      requires Tree() && AllCached() && i < |cells|
      modifies output
      ensures TypedSlot(schema.fields[i], View().slots[i])
      ensures output.written == old(output.written) + SlotBytes(schema.fields[i], View().slots[i])
      decreases schema, 3
    {
      if schema.fields[i].lbl == Repeated || hasBits[i] {
        ShownIsWritten(i, |cells|);
        WriteCells(schema.fields[i], cells[i], output);
      } else {
        assert Slot(i) == [];
      }
    }

    lemma WriteStart()
      requires Tree()
      ensures |cells| == |schema.fields| == |View().slots|
      ensures Remaining(schema, View(), 0) == Serialize(schema, View())
      ensures Size() == |Serialize(schema, View())|
    {
      hide Serialize, FieldRecords, WriteAll;
      RemainingStart(schema, View());
    }

    method SerializeWithCachedSizes(output: OutputStream)
      requires Tree() && AllCached()
      modifies output
      ensures output.written == old(output.written) + Serialize(schema, View())
      decreases schema, 4
    {
      hide *;
      WriteStart();
      ghost var m := View();
      ghost var before, all, done := output.written, Serialize(schema, m), [];
      assert before + [] == before && [] + all == all;
      for i := 0 to |cells|
        invariant output.written == before + done && done + Remaining(schema, m, i) == all
      {
        RemainingStep(schema, m, i);
        ghost var field := SlotBytes(schema.fields[i], m.slots[i]);
        Associative(done, field, Remaining(schema, m, i + 1));
        Associative(before, done, field);
        WriteField(i, output);
        done := done + field;
      }
      RemainingEnd(schema, m);
      WriteUnknown(unknown, output);
      Associative(before, done, WriteAll(unknown));
    }

    // ---- Writing to a flat array ---------------------------------------------------------

    /** `b` has been written at `at`, and nothing else. */
    static ghost predicate Wrote(now: bytes, before: bytes, at: nat, b: bytes, end: nat) {
      end == at + |b| <= |before| && now == before[..at] + b + before[end..]
    }

    static lemma WroteNothing(before: bytes, at: nat)
      requires at <= |before|
      ensures Wrote(before, before, at, [], at)
    {
      assert before == before[..at] + [] + before[at..];
    }

    static lemma WroteMore(before: bytes, at: nat, b: bytes, mid: bytes, middle: nat, c: bytes, now: bytes, end: nat)
      requires Wrote(mid, before, at, b, middle) && Wrote(now, mid, middle, c, end)
      ensures Wrote(now, before, at, b + c, end)
    {
      assert mid[..middle] == before[..at] + b;
      assert mid[end..] == before[end..];
      Associative(before[..at], b, c);
    }

    /** Copies `b` to `target` at `at`: the library's `Write...ToArray` routines. */
    static method CopyTo(b: bytes, target: array<byte>, at: nat) returns (end: nat)
      requires at + |b| <= target.Length
      modifies target
      ensures Wrote(target[..], old(target[..]), at, b, end)
    {
      end := at + |b|;
      for k := 0 to |b|
        invariant forall j :: 0 <= j < target.Length ==>
          target[j] == if at <= j < at + k then b[j - at] else old(target[j])
      {
        target[at + k] := b[k];
      }
      assert target[..] == old(target[..])[..at] + b + old(target[..])[end..];
    }

    method WriteCellToArray(f: Field, c: Cell, target: array<byte>, at: nat) returns (end: nat)
      requires TreeCell(f, c, repr) && AllRight(CellWritten(f, c, repr))
      requires at + |WriteRecord(ValueRecord(f, CellValue(f, c, repr)))| <= target.Length
      modifies target
      ensures Wrote(target[..], old(target[..]), at, WriteRecord(ValueRecord(f, CellValue(f, c, repr))), end)
      decreases f, 1
    {
      hide *;
      CellBytes(f, c, repr);
      var tag := Varint(FieldTag(f));
      match c {
        case Text(s) => end := CopyTo(tag + (Varint(|s|) + s), target, at);
        case Number(i) => end := CopyTo(tag + Varint(ToUInt64(i)), target, at);
        case Child(node) =>
          ChildIsReady(f, c, repr);
          SizeOf(node);
          ghost var before := target[..];
          ghost var body := Serialize(node.schema, node.View());
          var prefix := tag + Varint(node.cachedSize);
          Associative(tag, Varint(|body|), body);
          var middle := CopyTo(prefix, target, at);
          ghost var mid := target[..];
          assert middle == at + |prefix| by { WroteEnds(mid, before, at, prefix, middle); }
          end := node.SerializeWithCachedSizesToArray(target, middle);
          WroteMore(before, at, prefix, mid, middle, body, target[..], end);
      }
    }

    static lemma WroteEnds(now: bytes, before: bytes, at: nat, b: bytes, end: nat)
      requires Wrote(now, before, at, b, end)
      ensures end == at + |b| <= |before| == |now|
    {
    }

    static lemma SizeOf(n: MessageNode)
      requires n.Tree()
      ensures n.Size() == |Serialize(n.schema, n.View())|
    {
    }

    method WriteCellsToArray(f: Field, cs: seq<Cell>, target: array<byte>, at: nat) returns (end: nat)
      requires (forall c :: c in cs ==> TreeCell(f, c, repr)) && AllRight(CellsWritten(f, cs, repr))
      requires at + |SlotBytes(f, CellValues(f, cs, repr))| <= target.Length
      modifies target
      ensures Wrote(target[..], old(target[..]), at, SlotBytes(f, CellValues(f, cs, repr)), end)
      decreases f, 2
    {
      ghost var vs := CellValues(f, cs, repr);
      assert vs[0..] == vs && vs[|cs|..] == [];
      assert SlotBytes(f, []) == [];
      hide *;
      ghost var before, all, done := target[..], SlotBytes(f, vs), [];
      WroteNothing(before, at);
      assert [] + all == all;
      end := at;
      for j := 0 to |cs|
        invariant Wrote(target[..], before, at, done, end) && done + SlotBytes(f, vs[j..]) == all
      {
        ghost var mid, cell, rest := target[..], WriteRecord(ValueRecord(f, vs[j])), SlotBytes(f, vs[j + 1..]);
        WroteEnds(mid, before, at, done, end);
        ChildIsCached(f, cs, j);
        SlotBytesStep(f, vs, j);
        Associative(done, cell, rest);
        var next := WriteCellToArray(f, cs[j], target, end);
        WroteMore(before, at, done, mid, end, cell, target[..], next);
        done, end := done + cell, next;
      }
      assert done + [] == done;
    }

    method WriteFieldToArray(i: nat, target: array<byte>, at: nat) returns (end: nat)
      requires Tree() && AllCached() && i < |cells|
      requires TypedSlot(schema.fields[i], View().slots[i])
      requires at + |SlotBytes(schema.fields[i], View().slots[i])| <= target.Length
      modifies target
      ensures Wrote(target[..], old(target[..]), at, SlotBytes(schema.fields[i], View().slots[i]), end)
      decreases schema, 3
    {
      if schema.fields[i].lbl == Repeated || hasBits[i] {
        ShownIsWritten(i, |cells|);
        end := WriteCellsToArray(schema.fields[i], cells[i], target, at);
      } else {
        assert Slot(i) == [];
        WroteNothing(target[..], at);
        end := at;
      }
    }

    static method WriteUnknownToArray(unknown: seq<Record>, target: array<byte>, at: nat) returns (end: nat)
      requires at + |WriteAll(unknown)| <= target.Length
      modifies target
      ensures Wrote(target[..], old(target[..]), at, WriteAll(unknown), end)
    {
      hide *;
      ghost var before, all, done := target[..], WriteAll(unknown), [];
      WriteAllStep(unknown, 0);
      WroteNothing(before, at);
      assert [] + all == all;
      end := at;
      for k := 0 to |unknown|
        invariant Wrote(target[..], before, at, done, end) && done + WriteAll(unknown[k..]) == all
      {
        WriteAllStep(unknown, k);
        ghost var mid, record := target[..], WriteRecord(unknown[k]);
        WroteEnds(mid, before, at, done, end);
        Associative(done, record, WriteAll(unknown[k + 1..]));
        var next := CopyTo(WriteRecord(unknown[k]), target, end);
        WroteMore(before, at, done, mid, end, record, target[..], next);
        done, end := done + record, next;
      }
      WriteAllStep(unknown, |unknown|);
      assert done + [] == done;
    }

    /** Emits the same bytes as the stream form, into `Size()` cells of the array. */
    method SerializeWithCachedSizesToArray(target: array<byte>, at: nat) returns (end: nat)
      requires Tree() && AllCached() && at + Size() <= target.Length
      modifies target
      ensures end == at + Size()
      ensures Wrote(target[..], old(target[..]), at, Serialize(schema, View()), end)
      decreases schema, 4
    {
      hide *;
      WriteStart();
      ghost var m := View();
      ghost var before, all, done := target[..], Serialize(schema, m), [];
      WroteNothing(before, at);
      assert [] + all == all;
      end := at;
      for i := 0 to |cells|
        invariant Wrote(target[..], before, at, done, end) && done + Remaining(schema, m, i) == all
      {
        RemainingStep(schema, m, i);
        ghost var mid, field, rest := target[..], SlotBytes(schema.fields[i], m.slots[i]), Remaining(schema, m, i + 1);
        WroteEnds(mid, before, at, done, end);
        Associative(done, field, rest);
        var next := WriteFieldToArray(i, target, end);
        WroteMore(before, at, done, mid, end, field, target[..], next);
        done, end := done + field, next;
      }
      RemainingEnd(schema, m);
      ghost var mid := target[..];
      WroteEnds(mid, before, at, done, end);
      var next := WriteUnknownToArray(unknown, target, end);
      WroteMore(before, at, done, mid, end, WriteAll(unknown), target[..], next);
      end := next;
      WroteEnds(target[..], before, at, all, end);
    }
  }
}
