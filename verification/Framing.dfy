/** The four-byte length frame around a reply, and the client's incremental parser. */
module Framing {
  import opened Bytes
  import opened Wire
  import opened Messages
  import opened Codec
  import opened Sp2pProtocol
  import opened CodedStream
  import opened MessageNodes

  // ---- Writing -------------------------------------------------------------------------

  function Frame(body: bytes): (b: bytes)
    requires |body| < TWO31
    ensures |b| == 4 + |body|
  {
    LittleEndian32(|body|) + body
  }

  /** `Response::parseIntoOstream`, and `Connection::send` for requests. */
  method WriteFramed(message: MessageNode, stream: OutputStream)
    requires message.Tree() && message.Size() < TWO31
    modifies stream, message.repr`cachedSize
    ensures stream.written == old(stream.written) + Frame(Serialize(message.schema, message.View()))
  {
    var size := message.ByteSize();
    stream.written := stream.written + LittleEndian32(size);
    message.SerializeWithCachedSizes(stream);
  }

  // ---- Reading -------------------------------------------------------------------------

  const MAX_BUFFER_SIZE := 0xffff_ffff

  /** `message_size` and the unread contents of the stream buffer. */
  datatype ParserState = ParserState(size: int, sb: bytes)

  const INITIAL := ParserState(-1, [])

  datatype Outcome = Good(m: Message) | Rejected | Indeterminate

  /** One call of `parse`: what it does to the parser and what it makes of the message. */
  function Feed(st: ParserState, data: bytes): (r: (ParserState, Outcome))
    ensures r.1.Good? ==> Typed(NODE_MESSAGE, r.1.m)
  {
    var sb := st.sb + data;
    if |sb| > MAX_BUFFER_SIZE then (INITIAL, Rejected)
    else
      var next := ReadLength(st.size, sb);
      if next.size <= ToInt32(|next.sb|) && next.size != -1 then
        match Parse(NODE_MESSAGE, next.sb)
        case Some(m) => (INITIAL, Good(m))
        case None => (INITIAL, Rejected)
      else (next, Indeterminate)
  }

  function ReadLength(size: int, sb: bytes): ParserState {
    if size == -1 && |sb| >= 4
    then ParserState(ToInt32(FromLittleEndian32(sb[..4])), sb[4..])
    else ParserState(size, sb)
  }

  class NodeResponseParser {
    var messageSize: int
    var sb: bytes

    constructor ()
      ensures State() == INITIAL
    {
      messageSize, sb := -1, [];
    }

    ghost function State(): ParserState
      reads this
    {
      ParserState(messageSize, sb)
    }

    method Reset()
      modifies this
      ensures State() == INITIAL
    {
      sb := [];
      messageSize := -1;
    }

    method Parse(message: ParsedMessage, data: bytes) returns (r: Outcome)
      requires message.Valid() && message.schema == NODE_MESSAGE
      modifies this, message
      ensures message.Valid()
      ensures (State(), r) == Feed(old(State()), data)
      ensures r.Good? ==> message.Current() == r.m
      ensures r.Indeterminate? ==> message.Current() == old(message.Current())
    {
      sb := sb + data;
      if |sb| > MAX_BUFFER_SIZE {
        Reset();
        return Rejected;
      }
      if messageSize == -1 && |sb| >= 4 {
        messageSize := ToInt32(FromLittleEndian32(sb[..4]));
        sb := sb[4..];
      }
      if messageSize <= ToInt32(|sb|) && messageSize != -1 {
        NodeMessageIsWf();
        var ok := message.ParseFromIstream(sb);
        sb := [];
        if ok {
          messageSize := -1;
          r := Good(Message(message.slots, message.unknown));
        } else {
          Reset();
          r := Rejected;
        }
      } else {
        r := Indeterminate;
      }
    }
  }

  // ---- Frames cut into chunks ------------------------------------------------------------

  /** A reply that can travel: initialised, of the kind a parser can produce, and short
      enough for its size to be a positive `int`. */
  ghost predicate Sendable(m: Message) {
    && Typed(NODE_MESSAGE, m) && Canonical(NODE_MESSAGE, m) && Initialized(NODE_MESSAGE, m)
    && |Serialize(NODE_MESSAGE, m)| < TWO31
  }

  ghost function Framed(m: Message): (b: bytes)
    requires Sendable(m)
    ensures |b| >= 4
  {
    Frame(Serialize(NODE_MESSAGE, m))
  }

  /** What the parser makes of a whole body. */
  function Verdict(body: bytes): (o: Outcome)
    ensures o.Good? ==> Typed(NODE_MESSAGE, o.m)
  {
    match Parse(NODE_MESSAGE, body)
    case Some(m) => Good(m)
    case None => Rejected
  }

  lemma SentIsGood(m: Message)
    requires Sendable(m)
    ensures Framed(m) == Frame(Serialize(NODE_MESSAGE, m)) && Verdict(Serialize(NODE_MESSAGE, m)) == Good(m)
  {
    hide ParsePartial, Typed, Canonical, Initialized;
    NodeMessageIsWf();
    ParseSerialized(NODE_MESSAGE, m);
  }

  /** The parser after a proper prefix `p` of the frame of `body`. */
  function Halfway(body: bytes, p: bytes): ParserState {
    if |p| < 4 then ParserState(-1, p) else ParserState(|body|, p[4..])
  }

  lemma LengthOfFrame(body: bytes)
    requires |body| < TWO31
    ensures FromLittleEndian32(Frame(body)[..4]) == |body|
    ensures Frame(body)[4..] == body
  {
    LittleEndianRoundTrip(|body|);
    assert Frame(body)[..4] == LittleEndian32(|body|);
  }

  /** The buffered bytes of a frame that has arrived up to `q`, with the length taken off. */
  lemma LengthIsRead(body: bytes, p: bytes, data: bytes)
    requires |body| < TWO31 && |p| < |Frame(body)| && p <= Frame(body)
    requires p + data <= Frame(body) || Frame(body) <= p + data
    ensures var st := Halfway(body, p); ReadLength(st.size, st.sb + data) == Halfway(body, p + data)
  {
    LengthOfFrame(body);
    var q := p + data;
    if |p| < 4 {
      if |q| >= 4 { assert q[..4] == Frame(body)[..4]; }
    } else {
      assert p[4..] + data == q[4..];
    }
  }

  lemma FeedPrefix(body: bytes, p: bytes, data: bytes)
    requires |body| < TWO31 && p <= Frame(body) && p + data <= Frame(body) && |p| < |Frame(body)|
    ensures Feed(Halfway(body, p), data) ==
            if |p + data| < |Frame(body)| then (Halfway(body, p + data), Indeterminate) else (INITIAL, Verdict(body))
  {
    LengthIsRead(body, p, data);
    if p + data == Frame(body) { LengthOfFrame(body); }
  }

  function Concat(chunks: seq<bytes>): bytes {
    if chunks == [] then [] else chunks[0] + Concat(chunks[1..])
  }

  function FeedAll(st: ParserState, chunks: seq<bytes>): (r: (ParserState, seq<Outcome>))
    decreases |chunks|
  {
    if chunks == [] then (st, [])
    else
      var (st', o) := Feed(st, chunks[0]);
      var (end, os) := FeedAll(st', chunks[1..]);
      (end, [o] + os)
  }

  /** Waiting on every chunk but the last, which yields the outcome. */
  function Expected(n: nat, o: Outcome): seq<Outcome> {
    if n == 0 then [] else if n == 1 then [o] else [Indeterminate] + Expected(n - 1, o)
  }

  /** `chunks` is `b` cut in pieces, the last of which is not empty. */
  ghost predicate CutOf(chunks: seq<bytes>, b: bytes) {
    chunks != [] && Concat(chunks) == b && chunks[|chunks| - 1] != []
  }

  lemma {:induction false} LastPiece(chunks: seq<bytes>)
    requires |chunks| > 1 && chunks[|chunks| - 1] != []
    ensures |Concat(chunks[1..])| > 0
  {
    if |chunks| > 2 { LastPiece(chunks[1..]); }
  }

  lemma {:induction false} FeedChunks(body: bytes, p: bytes, chunks: seq<bytes>)
    requires |body| < TWO31 && |p| < |Frame(body)|
    requires chunks != [] && chunks[|chunks| - 1] != [] && p + Concat(chunks) == Frame(body)
    ensures FeedAll(Halfway(body, p), chunks) == (INITIAL, Expected(|chunks|, Verdict(body)))
    decreases |chunks|
  {
    hide Verdict, Feed;
    var d, rest := chunks[0], chunks[1..];
    Associative(p, d, Concat(rest));
    FeedPrefix(body, p, d);
    if rest == [] {
      assert p + d == Frame(body);
      assert FeedAll(INITIAL, rest) == (INITIAL, []);
      assert [Verdict(body)] + [] == [Verdict(body)];
    } else {
      LastPiece(chunks);
      FeedChunks(body, p + d, rest);
    }
  }

  /** However a frame is cut, the parser waits until its last byte, then judges the body by the
      plain parse and is back in its initial state, also after a body it refuses. */
  lemma ChunkedFrame(body: bytes, chunks: seq<bytes>)
    requires |body| < TWO31 && CutOf(chunks, Frame(body))
    ensures FeedAll(INITIAL, chunks) == (INITIAL, Expected(|chunks|, Verdict(body)))
  {
    assert [] + Concat(chunks) == Frame(body);
    FeedChunks(body, [], chunks);
  }

  /** However a framed reply is cut, the parser waits until its last byte and then delivers
      exactly the message sent, back in its initial state. */
  lemma ChunkedReply(m: Message, chunks: seq<bytes>)
    requires Sendable(m) && CutOf(chunks, Framed(m))
    ensures FeedAll(INITIAL, chunks) == (INITIAL, Expected(|chunks|, Good(m)))
  {
    SentIsGood(m);
    ChunkedFrame(Serialize(NODE_MESSAGE, m), chunks);
  }

  function Flatten<T>(xss: seq<seq<T>>): seq<T> {
    if xss == [] then [] else xss[0] + Flatten(xss[1..])
  }

  ghost function ExpectedAll(ms: seq<Message>, cuts: seq<seq<bytes>>): seq<Outcome>
    requires |ms| == |cuts|
  {
    if ms == [] then [] else Expected(|cuts[0]|, Good(ms[0])) + ExpectedAll(ms[1..], cuts[1..])
  }

  lemma {:induction false} FeedAllConcat(st: ParserState, xs: seq<bytes>, ys: seq<bytes>)
    ensures FeedAll(st, xs + ys) ==
            (FeedAll(FeedAll(st, xs).0, ys).0, FeedAll(st, xs).1 + FeedAll(FeedAll(st, xs).0, ys).1)
    decreases |xs|
  {
    if xs == [] {
      assert xs + ys == ys;
      assert [] + FeedAll(st, ys).1 == FeedAll(st, ys).1;
    } else {
      assert (xs + ys)[1..] == xs[1..] + ys;
      hide Feed;
      var (st', o) := Feed(st, xs[0]);
      FeedAllConcat(st', xs[1..], ys);
      var (mid, os) := FeedAll(st', xs[1..]);
      assert [o] + (os + FeedAll(mid, ys).1) == [o] + os + FeedAll(mid, ys).1;
    }
  }

  /** Any number of replies, each cut at will, no chunk crossing a reply boundary. */
  lemma {:induction false} ChunkedReplies(ms: seq<Message>, cuts: seq<seq<bytes>>)
    requires |ms| == |cuts|
    requires forall k :: 0 <= k < |ms| ==> Sendable(ms[k]) && CutOf(cuts[k], Framed(ms[k]))
    ensures FeedAll(INITIAL, Flatten(cuts)) == (INITIAL, ExpectedAll(ms, cuts))
    decreases |ms|
  {
    if ms != [] {
      assert Sendable(ms[0]) && CutOf(cuts[0], Framed(ms[0]));
      ChunkedReply(ms[0], cuts[0]);
      FeedAllConcat(INITIAL, cuts[0], Flatten(cuts[1..]));
      ChunkedReplies(ms[1..], cuts[1..]);
    }
  }

  // ---- A chunk that runs past the reply ---------------------------------------------------

  /** The whole buffer is parsed, so bytes after the reply are merged into it: the parser then
      delivers the sent message only if they parse and change nothing. */
  lemma Overrun(m: Message, p: bytes, data: bytes, extra: bytes)
    requires Sendable(m) && |p| < |Framed(m)| && p + data == Framed(m)
    requires |Framed(m)| + |extra| < TWO31
    ensures var x := ParsePartial(NODE_MESSAGE, extra);
            Feed(Halfway(Serialize(NODE_MESSAGE, m), p), data + extra) ==
            if x.Some? && Initialized(NODE_MESSAGE, Merge(NODE_MESSAGE, m, x.value))
            then (INITIAL, Good(Merge(NODE_MESSAGE, m, x.value)))
            else (INITIAL, Rejected)
  {
    var body := Serialize(NODE_MESSAGE, m);
    Associative(p, data, extra);
    LengthIsRead(body, p, data + extra);
    LengthOfFrame(body);
    NodeMessageIsWf();
    ParseSerialized(NODE_MESSAGE, m);
    assert (Framed(m) + extra)[4..] == body + extra;
    ParseConcat(NODE_MESSAGE, body, extra);
  }

  /** Two replies in one chunk are refused when the second is three bytes long: its length byte
      reads as a start-group tag. */
  lemma PipelinedRepliesAreLost(m: Message, second: bytes)
    requires Sendable(m) && |second| == 3
    requires |Framed(m)| + 7 < TWO31
    ensures Feed(INITIAL, Framed(m) + Frame(second)) == (INITIAL, Rejected)
  {
    var extra := Frame(second);
    StartGroup(second);
    assert [] + Framed(m) == Framed(m);
    hide ParsePartial, Feed, Framed, Frame, Merge;
    Overrun(m, [], Framed(m), extra);
    NothingHeld(m);
  }

  /** The length byte 3 is the tag of a start-group. */
  lemma StartGroup(second: bytes)
    requires |second| == 3
    ensures ParsePartial(NODE_MESSAGE, Frame(second)) == None
  {
    var extra := Frame(second);
    assert extra[0] == 3;
    assert ReadGroups(extra, 10) == Got(3, extra[1..]);
    assert ReadRecord(extra).Bad?;
  }

  lemma NothingHeld(m: Message)
    requires Sendable(m)
    ensures Halfway(Serialize(NODE_MESSAGE, m), []) == INITIAL
  {
  }
}
