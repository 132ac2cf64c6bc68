/** The wire level of the Protocol Buffers encoding: base-128 varints, tags and
    length-delimited payloads, as records that know nothing of message types. */
module Wire {
  import opened Bytes

  /** What a reader hands back: a value and the bytes after it, or failure. */
  datatype Read<+T> = Bad | Got(value: T, rest: bytes)

  lemma Associative(a: bytes, b: bytes, c: bytes)
    ensures a + (b + c) == a + b + c
  {
  }

  // ---- Varints -----------------------------------------------------------------------

  /** Low-order group first; every byte but the last has its top bit set. */
  function Varint(v: nat): (b: bytes)
    ensures |b| >= 1
  {
    if v < 128 then [v] else [128 + v % 128] + Varint(v / 128)
  }

  /** At most `k` groups of seven bits. */
  function ReadGroups(b: bytes, k: nat): (r: Read<nat>)
    ensures r.Got? ==> |r.rest| < |b|
  {
    if k == 0 || b == [] then Bad
    else if b[0] < 128 then Got(b[0], b[1..])
    else match ReadGroups(b[1..], k - 1)
      case Bad => Bad
      case Got(high, rest) => Got(b[0] - 128 + 128 * high, rest)
  }

  /** `CodedInputStream::ReadVarint64`: ten bytes at most, bits past the 64th dropped. */
  function ReadVarint(b: bytes): (r: Read<nat>)
    ensures r.Got? ==> |r.rest| < |b| && r.value < TWO64
  {
    match ReadGroups(b, 10)
    case Bad => Bad
    case Got(v, rest) => Got(v % TWO64, rest)
  }

  function Pow128(k: nat): (p: nat)
    ensures p >= 1
  {
    if k == 0 then 1 else 128 * Pow128(k - 1)
  }

  lemma {:induction false} ReadGroupsOfVarint(v: nat, k: nat, rest: bytes)
    requires k >= 1 && v < Pow128(k)
    ensures ReadGroups(Varint(v) + rest, k) == Got(v, rest)
  {
    var b := Varint(v) + rest;
    if v < 128 {
      assert b[1..] == rest;
    } else {
      ReadGroupsOfVarint(v / 128, k - 1, rest);
      assert b[1..] == Varint(v / 128) + rest;
    }
  }

  lemma TenGroups()
    ensures Pow128(10) >= TWO64
  {
    assert Pow128(2) == 0x4000;
    assert Pow128(4) == 0x1000_0000;
    assert Pow128(6) == 0x400_0000_0000;
    assert Pow128(8) == 0x100_0000_0000_0000;
  }

  lemma VarintRoundTrip(v: nat, rest: bytes)
    requires v < TWO64
    ensures ReadVarint(Varint(v) + rest) == Got(v, rest)
  {
    TenGroups();
    hide Pow128, Varint, ReadGroups;
    ReadGroupsOfVarint(v, 10, rest);
  }

  lemma {:induction false} ReadGroupsPrefix(a: bytes, k: nat, more: bytes)
    requires ReadGroups(a, k).Got?
    ensures ReadGroups(a + more, k) == Got(ReadGroups(a, k).value, ReadGroups(a, k).rest + more)
  {
    if a[0] < 128 {
      assert (a + more)[1..] == a[1..] + more;
    } else {
      assert (a + more)[1..] == a[1..] + more;
      ReadGroupsPrefix(a[1..], k - 1, more);
    }
  }

  /** The number written in the first `k` groups. */
  function GroupSum(b: bytes, k: nat): nat
    requires k <= |b|
  {
    if k == 0 then 0 else GroupSum(b, k - 1) + b[k - 1] % 128 * Pow128(k - 1)
  }

  /** The `k`th byte is the first without its top bit. */
  predicate Ends(b: bytes, k: nat) {
    1 <= k <= |b| && b[k - 1] < 128 && forall i :: 0 <= i < k - 1 ==> b[i] >= 128
  }

  lemma {:induction false} GroupSumShifts(b: bytes, k: nat)
    requires 1 <= k <= |b|
    ensures GroupSum(b, k) == b[0] % 128 + 128 * GroupSum(b[1..], k - 1)
  {
    if k > 1 {
      GroupSumShifts(b, k - 1);
      calc {
        GroupSum(b, k);
        b[0] % 128 + 128 * GroupSum(b[1..], k - 2) + b[k - 1] % 128 * (128 * Pow128(k - 2));
        b[0] % 128 + 128 * (GroupSum(b[1..], k - 2) + b[k - 1] % 128 * Pow128(k - 2));
      }
    }
  }

  lemma {:induction false} ReadGroupsExactly(b: bytes, n: nat, k: nat)
    requires Ends(b, k)
    ensures ReadGroups(b, n) == if k <= n then Got(GroupSum(b, k), b[k..]) else Bad
  {
    GroupSumShifts(b, k);
    if k > 1 && n > 0 {
      assert b[0] >= 128;
      ReadGroupsExactly(b[1..], n - 1, k - 1);
      assert b[1..][k - 1..] == b[k..];
    }
  }

  lemma {:induction false} NoLastGroup(b: bytes, n: nat)
    requires forall i :: 0 <= i < |b| ==> b[i] >= 128
    ensures ReadGroups(b, n) == Bad
  {
    if b != [] && n > 0 { NoLastGroup(b[1..], n - 1); }
  }

  lemma {:induction false} FirstEnd(b: bytes) returns (k: nat)
    ensures Ends(b, k) || (k == 0 && forall i :: 0 <= i < |b| ==> b[i] >= 128)
  {
    k := 0;
    if b != [] {
      if b[0] < 128 {
        k := 1;
      } else {
        k := FirstEnd(b[1..]);
        if k > 0 { k := k + 1; }
        assert forall i :: 1 <= i < |b| ==> b[i] == b[1..][i - 1];
      }
    }
  }

  /** What a varint is, minimal or not: at most ten groups of seven bits, the least significant
      first, up to the first byte without a top bit, of which the low 64 bits count. */
  lemma ReadVarintExactly(b: bytes)
    ensures forall k :: 1 <= k <= 10 && Ends(b, k) ==> ReadVarint(b) == Got(GroupSum(b, k) % TWO64, b[k..])
    ensures ReadVarint(b).Got? <==> exists k: nat :: k <= 10 && Ends(b, k)
  {
    hide GroupSum, ReadGroups;
    forall k | 1 <= k <= 10 && Ends(b, k) ensures ReadVarint(b) == Got(GroupSum(b, k) % TWO64, b[k..]) {
      ReadGroupsExactly(b, 10, k);
    }
    var k := FirstEnd(b);
    if k > 0 { ReadGroupsExactly(b, 10, k); } else { NoLastGroup(b, 10); }
  }

  // ---- Records -----------------------------------------------------------------------

  datatype Payload =
    | PVarint(v: nat)
    | PFixed64(b: bytes)
    | PLen(b: bytes)
    | PFixed32(b: bytes)

  datatype Record = Record(num: nat, payload: Payload)

  function WireType(p: Payload): (w: nat)
    ensures w < 8
  {
    match p
    case PVarint(_) => 0
    case PFixed64(_) => 1
    case PLen(_) => 2
    case PFixed32(_) => 5
  }

  const MAX_FIELD: nat := 0x2000_0000

  predicate WfPayload(p: Payload) {
    match p
    case PVarint(v) => v < TWO64
    case PFixed64(b) => |b| == 8
    case PLen(b) => |b| < TWO31
    case PFixed32(b) => |b| == 4
  }

  /** What a reader can return: the tag is never zero, since a zero tag ends a message. */
  predicate WfRecord(r: Record) {
    r.num < MAX_FIELD && WfPayload(r.payload) && !(r.num == 0 && r.payload.PVarint?)
  }

  function WritePayload(p: Payload): bytes {
    match p
    case PVarint(v) => Varint(v)
    case PFixed64(b) => b
    case PLen(b) => Varint(|b|) + b
    case PFixed32(b) => b
  }

  function Tag(num: nat, wireType: nat): nat { num * 8 + wireType }

  lemma TagParts(num: nat, wireType: nat)
    requires wireType < 8
    ensures Tag(num, wireType) / 8 == num && Tag(num, wireType) % 8 == wireType
    ensures num < MAX_FIELD ==> Tag(num, wireType) < TWO32
  {
  }

  function WriteRecord(r: Record): (b: bytes)
    ensures |b| >= 1
  {
    Varint(Tag(r.num, WireType(r.payload))) + WritePayload(r.payload)
  }

  function Take(b: bytes, n: nat): (r: Read<bytes>)
    ensures r.Got? <==> n <= |b|
    ensures r.Got? ==> |r.value| == n && b == r.value + r.rest
  {
    if n <= |b| then Got(b[..n], b[n..]) else Bad
  }

  /** Lengths are read as 32-bit unsigned values and used as signed ones. */
  function ReadLengthDelimited(b: bytes): (r: Read<bytes>)
    ensures r.Got? ==> |r.rest| < |b| && |r.value| < |b| && |r.value| < TWO31
  {
    match ReadVarint(b)
    case Bad => Bad
    case Got(v, rest) => if v % TWO32 < TWO31 then Take(rest, v % TWO32) else Bad
  }

  /** `WireFormat::SkipField` by wire type. End-group, start-group and the two unused wire
      types are refused. */
  function ReadPayload(wireType: nat, b: bytes): (r: Read<Payload>)
    ensures r.Got? ==> |r.rest| <= |b| && WfPayload(r.value) && WireType(r.value) == wireType
    ensures r.Got? && r.value.PLen? ==> |r.value.b| < |b|
  {
    match wireType
    case 0 => (match ReadVarint(b) case Bad => Bad case Got(v, rest) => Got(PVarint(v), rest))
    case 1 => (match Take(b, 8) case Bad => Bad case Got(x, rest) => Got(PFixed64(x), rest))
    case 2 => (match ReadLengthDelimited(b) case Bad => Bad case Got(x, rest) => Got(PLen(x), rest))
    case 5 => (match Take(b, 4) case Bad => Bad case Got(x, rest) => Got(PFixed32(x), rest))
    case _ => Bad
  }

  /** `CodedInputStream::ReadTag`: a varint cut to 32 bits. */
  function ReadTag(b: bytes): (r: Read<nat>)
    ensures r.Got? ==> |r.rest| < |b| && r.value < TWO32
  {
    match ReadVarint(b)
    case Bad => Bad
    case Got(v, rest) => Got(v % TWO32, rest)
  }

  lemma TagRoundTrip(tag: nat, rest: bytes)
    requires tag < TWO32
    ensures ReadTag(Varint(tag) + rest) == Got(tag, rest)
  {
    hide Varint, ReadVarint;
    VarintRoundTrip(tag, rest);
  }

  function ReadRecord(b: bytes): (r: Read<Record>)
    ensures r.Got? ==> |r.rest| < |b| && WfRecord(r.value)
    ensures r.Got? && r.value.payload.PLen? ==> |r.value.payload.b| < |b|
  {
    match ReadTag(b)
    case Bad => Bad
    case Got(tag, rest) =>
      if tag == 0 then Bad
      else match ReadPayload(tag % 8, rest)
        case Bad => Bad
        case Got(p, rest') => Got(Record(tag / 8, p), rest')
  }

  lemma PayloadRoundTrip(p: Payload, rest: bytes)
    requires WfPayload(p)
    ensures ReadPayload(WireType(p), WritePayload(p) + rest) == Got(p, rest)
  {
    match p
    case PVarint(v) => VarintRoundTrip(v, rest);
    case PLen(b) =>
      VarintRoundTrip(|b|, b + rest);
      Associative(Varint(|b|), b, rest);
      hide Varint, ReadVarint;
      assert ReadLengthDelimited(Varint(|b|) + (b + rest)) == Take(b + rest, |b|);
    case PFixed64(b) =>
    case PFixed32(b) =>
  }

  lemma RecordRoundTrip(r: Record, rest: bytes)
    requires WfRecord(r)
    ensures ReadRecord(WriteRecord(r) + rest) == Got(r, rest)
  {
    hide Varint, ReadTag, WritePayload, ReadPayload, WfPayload, Tag;
    var w, body := WireType(r.payload), WritePayload(r.payload);
    var tag := Tag(r.num, w);
    TagParts(r.num, w);
    TagRoundTrip(tag, body + rest);
    Associative(Varint(tag), body, rest);
    PayloadRoundTrip(r.payload, rest);
    assert WriteRecord(r) + rest == Varint(tag) + (body + rest);
    ReadParts(WriteRecord(r) + rest, tag, body + rest, r.payload, rest);
  }

  /** A record is its tag and its payload. */
  lemma ReadParts(b: bytes, tag: nat, after: bytes, p: Payload, rest: bytes)
    requires ReadTag(b) == Got(tag, after) && tag != 0 && ReadPayload(tag % 8, after) == Got(p, rest)
    ensures ReadRecord(b) == Got(Record(tag / 8, p), rest)
  {
    hide ReadTag, ReadPayload;
  }

  lemma VarintPrefix(a: bytes, more: bytes)
    requires ReadVarint(a).Got?
    ensures ReadVarint(a + more) == Got(ReadVarint(a).value, ReadVarint(a).rest + more)
  {
    ReadGroupsPrefix(a, 10, more);
  }

  lemma TakePrefix(a: bytes, n: nat, more: bytes)
    requires n <= |a|
    ensures Take(a + more, n) == Got(a[..n], a[n..] + more)
  {
    assert (a + more)[..n] == a[..n];
    assert (a + more)[n..] == a[n..] + more;
  }

  /** Reading one record never looks past its last byte. */
  lemma RecordPrefix(a: bytes, more: bytes)
    requires ReadRecord(a).Got?
    ensures ReadRecord(a + more) == Got(ReadRecord(a).value, ReadRecord(a).rest + more)
  {
    VarintPrefix(a, more);
    var tag, b := ReadTag(a).value, ReadTag(a).rest;
    match tag % 8
    case 0 => VarintPrefix(b, more);
    case 1 => TakePrefix(b, 8, more);
    case 2 =>
      VarintPrefix(b, more);
      var n := ReadVarint(b).value % TWO32;
      TakePrefix(ReadVarint(b).rest, n, more);
    case 5 => TakePrefix(b, 4, more);
    case _ =>
  }

  // ---- Whole byte strings ---------------------------------------------------------------

  function WriteAll(rs: seq<Record>): bytes {
    if rs == [] then [] else WriteRecord(rs[0]) + WriteAll(rs[1..])
  }

  function Cons(x: Record, tail: Option<seq<Record>>): Option<seq<Record>> {
    match tail case None => None case Some(xs) => Some([x] + xs)
  }

  function ReadAll(b: bytes): (r: Option<seq<Record>>)
    ensures r.Some? ==> forall x :: x in r.value ==> WfRecord(x)
    ensures r.Some? ==> forall x :: x in r.value && x.payload.PLen? ==> |x.payload.b| < |b|
    decreases |b|
  {
    if b == [] then Some([])
    else match ReadRecord(b)
      case Bad => None
      case Got(x, rest) => Cons(x, ReadAll(rest))
  }

  lemma ReadAllStep(b: bytes, x: Record, rest: bytes)
    requires b != [] && ReadRecord(b) == Got(x, rest)
    ensures ReadAll(b) == Cons(x, ReadAll(rest))
  {
  }

  lemma {:induction false} ReadAllOfWriteAll(rs: seq<Record>)
    requires forall x :: x in rs ==> WfRecord(x)
    ensures ReadAll(WriteAll(rs)) == Some(rs)
  {
    if rs != [] {
      RecordRoundTrip(rs[0], WriteAll(rs[1..]));
      ReadAllOfWriteAll(rs[1..]);
      ReadAllStep(WriteAll(rs), rs[0], WriteAll(rs[1..]));
      assert [rs[0]] + rs[1..] == rs;
    }
  }

  function Both(xs: Option<seq<Record>>, ys: Option<seq<Record>>): Option<seq<Record>> {
    if xs.Some? && ys.Some? then Some(xs.value + ys.value) else None
  }

  lemma ConsBoth(x: Record, xs: Option<seq<Record>>, ys: Option<seq<Record>>)
    ensures Cons(x, Both(xs, ys)) == Both(Cons(x, xs), ys)
  {
    if xs.Some? && ys.Some? {
      assert [x] + (xs.value + ys.value) == [x] + xs.value + ys.value;
    }
  }

  /** Reading is a homomorphism: once `a` is accepted, `a + b` reads as `a`'s records
      followed by whatever `b` reads as. */
  lemma {:induction false} ReadAllConcat(a: bytes, b: bytes)
    requires ReadAll(a).Some?
    ensures ReadAll(a + b) == Both(ReadAll(a), ReadAll(b))
    decreases |a|
  {
    if a == [] {
      assert a + b == b;
      if ReadAll(b).Some? { assert [] + ReadAll(b).value == ReadAll(b).value; }
    } else {
      var Got(x, rest) := ReadRecord(a);
      RecordPrefix(a, b);
      hide ReadRecord;
      ReadAllStep(a, x, rest);
      ReadAllStep(a + b, x, rest + b);
      hide ReadAll;
      ReadAllConcat(rest, b);
      ConsBoth(x, ReadAll(rest), ReadAll(b));
    }
  }

  lemma {:induction false} WriteAllConcat(xs: seq<Record>, ys: seq<Record>)
    ensures WriteAll(xs + ys) == WriteAll(xs) + WriteAll(ys)
  {
    if xs == [] {
      assert xs + ys == ys;
    } else {
      assert (xs + ys)[1..] == xs[1..] + ys;
      WriteAllConcat(xs[1..], ys);
      assert WriteRecord(xs[0]) + (WriteAll(xs[1..]) + WriteAll(ys)) == WriteAll(xs) + WriteAll(ys);
    }
  }
}
