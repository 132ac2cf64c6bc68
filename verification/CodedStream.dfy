/** The generated parse loops over a `CodedInputStream`: a switch on the field number whose
    cases jump to one another while `ExpectTag` sees the next declared tag. */
module CodedStream {
  import opened Bytes
  import opened Wire
  import opened Messages
  import opened Codec

  // ---- One record at a time ------------------------------------------------------------

  /** What is left to do once a non-zero tag has been read. */
  function AfterTag(s: Schema, tag: nat, rest: bytes, m: Message): (o: Option<Message>)
    requires Typed(s, m) && 0 < tag < TWO32
    ensures o.Some? ==> Typed(s, o.value)
  {
    match ReadPayload(tag % 8, rest)
    case Bad => None
    case Got(p, rest') =>
      match Apply(s, Record(tag / 8, p), m)
      case None => None
      case Some(n) => ParseInto(s, rest', n)
  }

  lemma ParseStep(s: Schema, b: bytes, m: Message, tag: nat, rest: bytes)
    requires Typed(s, m) && ReadTag(b) == Got(tag, rest)
    ensures ParseInto(s, b, m) == if tag == 0 then None else AfterTag(s, tag, rest, m)
  {
    if tag != 0 && ReadRecord(b).Got? {
      var Got(r, rest') := ReadRecord(b);
      ReadAllStep(b, r, rest');
      hide ReadRecord, ReadPayload;
      if ReadAll(rest').Some? {
        assert ReadAll(b).value[1..] == ReadAll(rest').value;
      }
    }
  }

  lemma ParseEnds(s: Schema, b: bytes, m: Message)
    requires Typed(s, m)
    ensures b == [] ==> ParseInto(s, b, m) == Some(m)
    ensures b != [] && ReadTag(b).Bad? ==> ParseInto(s, b, m) == None
    ensures b != [] && ReadTag(b).Got? ==>
              var Got(tag, rest) := ReadTag(b);
              ParseInto(s, b, m) == if tag == 0 || tag % 8 == 4 then None else AfterTag(s, tag, rest, m)
  {
    if b != [] && ReadTag(b).Got? { ParseStep(s, b, m, ReadTag(b).value, ReadTag(b).rest); }
  }

  /** What the case of field `i` does: the bytes it leaves and the message it makes. */
  function FieldResult(s: Schema, i: nat, rest: bytes, m: Message): (o: Option<(bytes, Message)>)
    requires WfSchema(s) && Typed(s, m) && i < |s.fields|
    ensures o.Some? ==> Typed(s, o.value.1) && |o.value.0| <= |rest|
  {
    assert WfField(s.fields[i]);
    match ReadPayload(KindWire(s.fields[i].kind), rest)
    case Bad => None
    case Got(p, rest') =>
      match ApplyField(s, i, Record(s.fields[i].num, p), m)
      case None => None
      case Some(n) => Some((rest', n))
  }

  /** What is left to do once the tag of a declared field has been read. */
  function AfterField(s: Schema, i: nat, rest: bytes, m: Message): (o: Option<Message>)
    requires WfSchema(s) && Typed(s, m) && i < |s.fields|
  {
    match FieldResult(s, i, rest, m)
    case None => None
    case Some((rest', n)) => ParseInto(s, rest', n)
  }

  lemma AfterFieldTag(s: Schema, i: nat, rest: bytes, m: Message)
    requires WfSchema(s) && Typed(s, m) && i < |s.fields|
    ensures 0 < FieldTag(s.fields[i]) < TWO32
    ensures AfterTag(s, FieldTag(s.fields[i]), rest, m) == AfterField(s, i, rest, m)
  {
    FieldIndexOfField(s.fields, i, 0);
    assert WfField(s.fields[i]);
    TagParts(s.fields[i].num, KindWire(s.fields[i].kind));
    hide ReadPayload, ParseInto, ApplyField, Tag, Typed, KindWire;
  }

  /** A tag that `ExpectTag` recognises is one the switch would have read. */
  lemma ExpectedTag(s: Schema, i: nat, rest: bytes, m: Message)
    requires WfSchema(s) && Typed(s, m) && i < |s.fields|
    ensures ParseInto(s, Varint(FieldTag(s.fields[i])) + rest, m) == AfterField(s, i, rest, m)
  {
    var tag := FieldTag(s.fields[i]);
    AfterFieldTag(s, i, rest, m);
    hide *;
    TagRoundTrip(tag, rest);
    ParseStep(s, Varint(tag) + rest, m, tag, rest);
  }

  // ---- CodedInputStream ----------------------------------------------------------------

  class CodedInputStream {
    const buffer: bytes
    var pos: nat
    var limit: nat
    var legitimateEnd: bool

    constructor (buffer: bytes)
      ensures Valid() && this.buffer == buffer && Rest() == buffer
      ensures pos == 0 && limit == |buffer|
    {
      this.buffer := buffer;
      pos, limit, legitimateEnd := 0, |buffer|, false;
    }

    ghost predicate Valid()
      reads this
    {
      pos <= limit <= |buffer|
    }

    /** The bytes up to the current limit. */
    ghost function Rest(): (b: bytes)
      requires Valid()
      reads this
      ensures |b| == limit - pos
    {
      buffer[pos..limit]
    }

    method ReadVarint64() returns (ok: bool, v: nat)
      requires Valid()
      modifies this`pos
      ensures Valid()
      ensures |Rest()| <= old(|Rest()|)
      ensures ok == ReadVarint(old(Rest())).Got?
      ensures ok ==> ReadVarint(old(Rest())) == Got(v, Rest())
    {
      v := 0;
      var k: nat, scale: nat := 0, 1;
      ghost var b := Rest();
      while k < 10 && pos < limit
        invariant Valid() && k <= 10 && |Rest()| <= |b|
        invariant match ReadGroups(Rest(), 10 - k) {
                    case Bad => ReadGroups(b, 10) == Bad
                    case Got(high, rest) => ReadGroups(b, 10) == Got(v + scale * high, rest)
                  }
        decreases 10 - k
      {
        ghost var before := Rest();
        var byte := buffer[pos];
        pos := pos + 1;
        assert before[1..] == Rest();
        if byte < 128 {
          return true, (v + scale * byte) % TWO64;
        }
        GroupArithmetic(v, scale, byte, Rest(), 9 - k);
        v, scale, k := v + scale * (byte - 128), scale * 128, k + 1;
      }
      return false, 0;
    }

    static lemma GroupArithmetic(v: nat, scale: nat, byte: nat, rest: bytes, k: nat)
      requires byte >= 128
      ensures ReadGroups(rest, k).Got? ==>
        var high := ReadGroups(rest, k).value;
        v + scale * (byte - 128 + 128 * high) == v + scale * (byte - 128) + scale * 128 * high
    {
    }

    /** Zero when there is no further tag; `ConsumedEntireMessage` then tells a legitimate end
        from a malformed tag. */
    method ReadTag() returns (tag: nat)
      requires Valid()
      modifies this`pos, this`legitimateEnd
      ensures Valid() && |Rest()| <= old(|Rest()|)
      ensures old(Rest()) == [] ==> tag == 0 && legitimateEnd && Rest() == []
      ensures old(Rest()) != [] ==> !legitimateEnd
      ensures old(Rest()) != [] && tag == 0 ==>
                Wire.ReadTag(old(Rest())).Bad? || Wire.ReadTag(old(Rest())).value == 0
      ensures tag != 0 ==> Wire.ReadTag(old(Rest())) == Got(tag, Rest())
    {
      if pos == limit {
        legitimateEnd := true;
        return 0;
      }
      legitimateEnd := false;
      var ok, v := ReadVarint64();
      tag := if ok then v % TWO32 else 0;
    }

    method ReadRaw(n: nat) returns (ok: bool, b: bytes)
      requires Valid()
      modifies this`pos
      ensures Valid()
      ensures ok == Take(old(Rest()), n).Got?
      ensures ok ==> Take(old(Rest()), n) == Got(b, Rest())
    {
      if limit - pos < n { return false, []; }
      ghost var before := Rest();
      ok, b := true, buffer[pos..pos + n];
      pos := pos + n;
      assert b == before[..n] && Rest() == before[n..];
    }

    /** `ReadString`: a 32-bit length that must not be negative as an `int`. */
    method ReadString() returns (ok: bool, b: bytes)
      requires Valid()
      modifies this`pos
      ensures Valid()
      ensures ok == ReadLengthDelimited(old(Rest())).Got?
      ensures ok ==> ReadLengthDelimited(old(Rest())) == Got(b, Rest())
    {
      var n;
      ok, n := ReadVarint64();
      if !ok { return false, []; }
      if n % TWO32 >= TWO31 { return false, []; }
      ok, b := ReadRaw(n % TWO32);
    }

    method SkipField(tag: nat) returns (ok: bool, p: Payload)
      requires Valid() && tag < TWO32
      modifies this`pos
      ensures Valid()
      ensures ok == ReadPayload(tag % 8, old(Rest())).Got?
      ensures ok ==> ReadPayload(tag % 8, old(Rest())) == Got(p, Rest())
    {
      ok, p := false, PVarint(0);
      var b;
      match tag % 8 {
        case 0 => var v; ok, v := ReadVarint64(); p := PVarint(v);
        case 1 => ok, b := ReadRaw(8); p := PFixed64(b);
        case 2 => ok, b := ReadString(); p := PLen(b);
        case 5 => ok, b := ReadRaw(4); p := PFixed32(b);
        case _ =>
      }
    }

    /** Looks at the bytes in the buffer at hand for the one- or two-byte form of `tag`. It
        may answer no although the tag is there: the bytes may lie past a buffer boundary. */
    method ExpectTag(tag: nat) returns (yes: bool)
      requires Valid()
      modifies this`pos
      ensures Valid()
      ensures yes ==> old(Rest()) == Varint(tag) + Rest()
      ensures !yes ==> pos == old(pos)
    {
      var visible: bool := *;
      var size := if tag < 0x80 then 1 else 2;
      if !visible || tag >= 0x4000 || limit - pos < size { return false; }
      ghost var b := Rest();
      if tag < 0x80 {
        if buffer[pos] != tag { return false; }
      } else if buffer[pos] != 128 + tag % 128 || buffer[pos + 1] != tag / 128 {
        return false;
      }
      pos := pos + size;
      assert b == b[..size] + Rest();
      assert b[..size] == Varint(tag);
      return true;
    }

    /** True only at the limit, and not always then. */
    method ExpectAtEnd() returns (yes: bool)
      requires Valid()
      modifies this`legitimateEnd
      ensures yes ==> pos == limit && legitimateEnd
      ensures !yes ==> legitimateEnd == old(legitimateEnd)
    {
      var visible: bool := *;
      yes := visible && pos == limit;
      if yes { legitimateEnd := true; }
    }

    /** Confines reading to the next `n` bytes. */
    method PushLimit(n: nat) returns (outer: nat)
      requires Valid() && n <= limit - pos
      modifies this`limit
      ensures Valid() && outer == old(limit) && limit == pos + n
      ensures old(Rest()) == Rest() + buffer[limit..outer]
    {
      outer := limit;
      limit := pos + n;
    }

    method PopLimit(outer: nat)
      requires limit <= outer <= |buffer| && Valid()
      modifies this`limit, this`legitimateEnd
      ensures Valid() && limit == outer && !legitimateEnd
    {
      limit, legitimateEnd := outer, false;
    }
  }

  // ---- Messages being parsed -----------------------------------------------------------

  class ParsedMessage {
    const schema: Schema
    var slots: seq<seq<Value>>
    var unknown: seq<Record>

    constructor (schema: Schema, m: Message)
      requires Typed(schema, m)
      ensures this.schema == schema && Valid() && Current() == m
    {
      this.schema := schema;
      slots, unknown := m.slots, m.unknown;
    }

    ghost function Current(): Message
      reads this
    {
      Message(slots, unknown)
    }

    ghost predicate Valid()
      reads this
    {
      Typed(schema, Current())
    }

    method Set(i: nat, v: Value)
      requires Valid() && i < |schema.fields| && TypedValue(schema.fields[i], v)
      modifies this
      ensures Valid() && Current() == Put(schema, old(Current()), i, v)
    {
      slots := Put(schema, Message(slots, unknown), i, v).slots;
    }

    method Keep(r: Record)
      requires Valid() && WfRecord(r)
      modifies this
      ensures Valid() && Current() == AddUnknown(old(Current()), r)
    {
      unknown := unknown + [r];
    }

    /** One `case`, its tag just consumed. */
    method ReadField(i: nat, input: CodedInputStream) returns (ok: bool)
      requires Valid() && input.Valid() && WfSchema(schema) && i < |schema.fields|
      modifies this, input
      ensures Valid() && input.Valid()
      ensures ok == FieldResult(schema, i, old(input.Rest()), old(Current())).Some?
      ensures ok ==> input.limit == old(input.limit)
      ensures ok ==> FieldResult(schema, i, old(input.Rest()), old(Current())) == Some((input.Rest(), Current()))
      decreases schema, 1
    {
      match schema.fields[i].kind {
        case KMessage(sub) => ok := ReadMessage(i, sub, input);
        case _ => ok := ReadScalar(i, input);
      }
    }

    method ReadScalar(i: nat, input: CodedInputStream) returns (ok: bool)
      requires Valid() && input.Valid() && WfSchema(schema) && i < |schema.fields|
      requires !schema.fields[i].kind.KMessage?
      modifies this, input`pos
      ensures Valid() && input.Valid()
      ensures ok == FieldResult(schema, i, old(input.Rest()), old(Current())).Some?
      ensures ok ==> FieldResult(schema, i, old(input.Rest()), old(Current())) == Some((input.Rest(), Current()))
    {
      var f := schema.fields[i];
      assert WfField(f);
      hide ReadVarint, ReadLengthDelimited, Typed, Put, WfSchema;
      var b, v;
      match f.kind {
        case KString =>
          ok, b := input.ReadString();
          if ok { Set(i, Str(b)); }
        case KInt32 =>
          ok, v := input.ReadVarint64();
          if ok { Set(i, Int(ToInt32(v))); }
        case KEnum(valid) =>
          ok, v := input.ReadVarint64();
          if ok {
            if ToInt32(v) in valid {
              Set(i, Int(ToInt32(v)));
            } else {
              Keep(Record(f.num, PVarint(ToUInt64(ToInt32(v)))));
            }
          }
      }
    }

    /** `ReadMessageNoVirtual`: the sub-message is parsed in place, up to a limit it must
        reach at the end of a field. */
    method ReadMessage(i: nat, sub: Schema, input: CodedInputStream) returns (ok: bool)
      requires Valid() && input.Valid() && WfSchema(schema) && i < |schema.fields|
      requires schema.fields[i].kind == KMessage(sub)
      modifies this, input
      ensures Valid() && input.Valid()
      ensures ok == FieldResult(schema, i, old(input.Rest()), old(Current())).Some?
      ensures ok ==> input.limit == old(input.limit)
      ensures ok ==> FieldResult(schema, i, old(input.Rest()), old(Current())) == Some((input.Rest(), Current()))
      decreases schema, 0
    {
      assert WfField(schema.fields[i]);
      hide ReadVarint, Typed, Put, ParseInto, WfSchema;
      var n;
      ok, n := input.ReadVarint64();
      n := n % TWO32;
      if !ok || n >= TWO31 || n > input.limit - input.pos { return false; }
      ghost var all := input.Rest();
      var outer := input.PushLimit(n);
      assert all[..n] == input.Rest() && all[n..] == input.buffer[input.limit..outer];
      var m := new ParsedMessage(sub, Target(schema, Message(slots, unknown), i));
      ok := m.MergePartialFromCodedStream(input);
      if !ok || !input.legitimateEnd { return false; }
      input.PopLimit(outer);
      Set(i, Sub(Message(m.slots, m.unknown)));
    }

    /** The parse loop. Whatever `ExpectTag` and `ExpectAtEnd` answer, it accepts the bytes
        up to the limit exactly when the plain form does, with the same message. */
    method MergePartialFromCodedStream(input: CodedInputStream) returns (ok: bool)
      requires Valid() && input.Valid() && WfSchema(schema)
      modifies this, input
      ensures Valid() && input.Valid()
      ensures (ok && input.legitimateEnd) == ParseInto(schema, old(input.Rest()), old(Current())).Some?
      ensures ok && input.legitimateEnd ==>
                && ParseInto(schema, old(input.Rest()), old(Current())) == Some(Current())
                && input.limit == old(input.limit) && input.pos == input.limit
      decreases schema, 4
    {
      ghost var goal := ParseInto(schema, input.Rest(), Current());
      ghost var limit := input.limit;
      var done := false;
      while !done
        invariant Valid() && input.Valid() && input.limit == limit
        invariant ParseInto(schema, input.Rest(), Current()) == goal
        invariant done ==> input.legitimateEnd && input.Rest() == []
        decreases !done, |input.Rest()|
      {
        ParseEnds(schema, input.Rest(), Current());
        hide ParseInto, ReadTag;
        var tag := input.ReadTag();
        if tag == 0 || tag % 8 == 4 { return true; }
        ok, done := Dispatch(tag, input, goal);
        if !ok { return false; }
      }
      return true;
    }

    /** The switch on a tag just read. */
    method Dispatch(tag: nat, input: CodedInputStream, ghost goal: Option<Message>) returns (ok: bool, done: bool)
      requires Valid() && input.Valid() && WfSchema(schema) && 0 < tag < TWO32
      requires AfterTag(schema, tag, input.Rest(), Current()) == goal
      modifies this, input
      ensures Valid() && input.Valid()
      ensures !ok ==> goal == None
      ensures ok ==> input.limit == old(input.limit) && |input.Rest()| <= old(|input.Rest()|)
      ensures ok ==> ParseInto(schema, input.Rest(), Current()) == goal
      ensures ok && done ==> input.legitimateEnd && input.Rest() == []
      decreases schema, 3
    {
      var i := FieldIndex(schema.fields, tag / 8, 0);
      if i < |schema.fields| && tag % 8 == KindWire(schema.fields[i].kind) {
        AfterFieldTag(schema, i, input.Rest(), Current());
        ok, done := FastPath(i, input, goal);
      } else {
        hide ParseInto, ReadPayload;
        var p;
        ok, p := input.SkipField(tag);
        if ok { Keep(Record(tag / 8, p)); }
        done := false;
      }
    }

    /** The `goto` chain from case `first` on, its tag just consumed: after each field the
        next declared tag, or the same one when the field is repeated, is looked for. */
    method FastPath(first: nat, input: CodedInputStream, ghost goal: Option<Message>) returns (ok: bool, done: bool)
      requires Valid() && input.Valid() && WfSchema(schema) && first < |schema.fields|
      requires AfterField(schema, first, input.Rest(), Current()) == goal
      modifies this, input
      ensures Valid() && input.Valid()
      ensures !ok ==> goal == None
      ensures ok ==> input.limit == old(input.limit) && |input.Rest()| <= old(|input.Rest()|)
      ensures ok ==> ParseInto(schema, input.Rest(), Current()) == goal
      ensures ok && done ==> input.legitimateEnd && input.Rest() == []
      decreases schema, 2
    {
      hide ParseInto, FieldResult, WfSchema, Typed;
      var i: nat, again := first, true;
      ghost var limit, size := input.limit, |input.Rest()|;
      ok, done := true, false;
      while again
        invariant ok && !done && Valid() && input.Valid() && input.limit == limit && i < |schema.fields|
        invariant |input.Rest()| <= size
        invariant if again then AfterField(schema, i, input.Rest(), Current()) == goal
                  else ParseInto(schema, input.Rest(), Current()) == goal
        decreases again, |input.Rest()|
      {
        ok := ReadField(i, input);
        if !ok { return; }
        again := false;
        if schema.fields[i].lbl == Repeated {
          again := Expect(i, input, goal);
        }
        if !again {
          if i + 1 == |schema.fields| {
            done := input.ExpectAtEnd();
            return;
          }
          again := Expect(i + 1, input, goal);
          i := if again then i + 1 else i;
        }
      }
    }

    method Expect(i: nat, input: CodedInputStream, ghost goal: Option<Message>) returns (yes: bool)
      requires Valid() && input.Valid() && WfSchema(schema) && i < |schema.fields|
      requires ParseInto(schema, input.Rest(), Current()) == goal
      modifies input`pos
      ensures input.Valid()
      ensures yes ==> |input.Rest()| < old(|input.Rest()|)
      ensures yes ==> AfterField(schema, i, input.Rest(), Current()) == goal
      ensures !yes ==> input.pos == old(input.pos)
    {
      yes := input.ExpectTag(FieldTag(schema.fields[i]));
      if yes {
        ExpectedTag(schema, i, input.Rest(), Current());
        hide *;
      }
    }

    /** `ParseFromIstream`: the message is cleared, the whole input parsed, and the required
        fields checked. */
    method ParseFromIstream(data: bytes) returns (ok: bool)
      requires Valid() && WfSchema(schema)
      modifies this
      ensures Valid()
      ensures ok == Parse(schema, data).Some?
      ensures ok ==> Parse(schema, data) == Some(Current())
    {
      slots, unknown := Empty(schema).slots, Empty(schema).unknown;
      var input := new CodedInputStream(data);
      ok := MergePartialFromCodedStream(input);
      ok := ok && input.legitimateEnd && Initialized(schema, Message(slots, unknown));
    }

    /** `MergeFrom`, member by member. */
    method MergeFrom(from: ParsedMessage)
      requires Valid() && from.Valid() && from != this && from.schema == schema
      modifies this
      ensures Valid() && Current() == Merge(schema, old(Current()), from.Current())
    {
      ghost var before := slots;
      for i := 0 to |schema.fields|
        invariant unchanged(`unknown) && |slots| == |before|
        invariant forall k :: 0 <= k < i ==> slots[k] == Merge(schema, old(Current()), from.Current()).slots[k]
        invariant forall k :: i <= k < |slots| ==> slots[k] == before[k]
      {
        assert TypedSlot(schema.fields[i], before[i]) && TypedSlot(schema.fields[i], from.slots[i]);
        slots := slots[i := MergeSlot(schema.fields[i], slots[i], from.slots[i])];
      }
      unknown := unknown + from.unknown;
    }
  }
}
