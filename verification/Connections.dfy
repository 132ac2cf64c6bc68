/** One request over a `Connection`: the completions of its asynchronous operations, and the
    promise its caller waits on. */
module Connections {
  import opened Bytes
  import opened Messages
  import opened Codec
  import opened Sp2pProtocol
  import opened CodedStream
  import opened Framing

  /** The operation whose completion handler is installed. */
  datatype Operation = Writing | Reading | Nothing

  datatype Event =
    | WriteDone(ok: bool)
    | ReadDone(ok: bool, data: bytes)

  datatype Result = Unresolved | Value(round: int) | Exception

  /** `rounds` are the response objects allocated so far, one per completed read. */
  datatype State = State(
    pending: Operation,
    parser: ParserState,
    active: bool,
    result: Result,
    resolutions: nat,
    rounds: seq<Message>)

  predicate Enabled(c: State, e: Event) {
    match e
    case WriteDone(_) => c.pending == Writing
    case ReadDone(_, _) => c.pending == Reading
  }

  function Resolve(c: State, r: Result): State {
    c.(result := r, resolutions := c.resolutions + 1, pending := Nothing)
  }

  /** One completion. `after` is the state of a response object whose parse was rejected,
      which the code leaves open. */
  function Step(c: State, e: Event, after: Message): State
    requires Enabled(c, e)
  {
    match e
    case WriteDone(ok) =>
      if ok then c.(pending := Reading) else Resolve(c, Exception).(active := false)
    case ReadDone(ok, data) =>
      if !ok then Resolve(c, Exception).(active := false)
      else
        var (p, o) := Feed(c.parser, data);
        Settled(c.(parser := p, rounds := c.rounds + [ParsedAs(o, after)]), o)
  }

  /** The response object of a round once it has been through the parser. */
  function ParsedAs(o: Outcome, after: Message): Message {
    match o
    case Good(m) => m
    case Rejected => after
    case Indeterminate => Empty(NODE_MESSAGE)
  }

  function Settled(c: State, o: Outcome): State {
    match o
    case Good(_) => Resolve(c, Value(|c.rounds| - 1))
    case Rejected => Resolve(c, Exception).(active := false)
    case Indeterminate => c
  }

  // ---- The objects -----------------------------------------------------------------------

  class Connection {
    const parser: NodeResponseParser
    var pending: Operation
    var isActive: bool
    var result: Result
    var resolutions: nat
    var responses: seq<ParsedMessage>

    /** `sendRequest`: the promise is fresh and the write under way. */
    constructor (parser: NodeResponseParser)
      ensures this.parser == parser && Valid() && responses == []
      ensures Current() == Start(parser.State())
    {
      this.parser := parser;
      pending, isActive, result, resolutions, responses := Writing, true, Unresolved, 0, [];
    }

    ghost predicate Valid()
      reads this, set r | r in responses
    {
      forall r :: r in responses ==> r.Valid() && r.schema == NODE_MESSAGE
    }

    ghost function Current(): State
      reads this, parser, set r | r in responses
    {
      State(pending, parser.State(), isActive, result, resolutions, Contents(responses))
    }

    static ghost function Contents(rs: seq<ParsedMessage>): (ms: seq<Message>)
      reads set r | r in rs
      ensures |ms| == |rs|
    {
      if rs == [] then [] else Contents(rs[..|rs| - 1]) + [rs[|rs| - 1].Current()]
    }

    static lemma ContentsAppend(rs: seq<ParsedMessage>, r: ParsedMessage)
      ensures Contents(rs + [r]) == Contents(rs) + [r.Current()]
    {
      assert (rs + [r])[..|rs|] == rs;
    }

    /** `sendHandler`, and the error handler that stops the connection. */
    method SendHandler(ok: bool)
      requires Valid() && pending == Writing
      modifies this
      ensures Valid() && responses == old(responses)
      ensures Current() == Step(old(Current()), WriteDone(ok), Empty(NODE_MESSAGE))
    {
      if !ok {
        Fail();
      } else {
        pending := Reading;
      }
    }

    /** The error branches: `set_exception`, and `stop()` by the error handler. */
    method Fail()
      modifies this`result, this`resolutions, this`pending, this`isActive
      ensures result == Exception && resolutions == old(resolutions) + 1 && pending == Nothing && !isActive
    {
      result, resolutions := Exception, resolutions + 1;
      pending, isActive := Nothing, false;
    }

    /** What follows a parse, by its result. */
    method Settle(o: Outcome)
      requires Valid() && pending == Reading
      modifies this`result, this`resolutions, this`pending, this`isActive
      ensures Valid() && Current() == Settled(old(Current()), o)
    {
      match o {
        case Good(_) =>
          result, resolutions := Value(|responses| - 1), resolutions + 1;
          pending := Nothing;
        case Rejected => Fail();
        case Indeterminate =>
      }
    }

    /** The completion of `async_read_some` in `readMessage`. */
    method ReadCompleted(ok: bool, data: bytes) returns (ghost after: Message)
      requires Valid() && pending == Reading
      modifies this, parser
      ensures Valid()
      ensures Current() == Step(old(Current()), ReadDone(ok, data), after)
      ensures old(responses) <= responses
    {
      hide Feed, Typed, NODE_MESSAGE, Empty, Settled, Contents;
      after := Empty(NODE_MESSAGE);
      if !ok {
        Fail();
      } else {
        var response := new ParsedMessage(NODE_MESSAGE, Empty(NODE_MESSAGE));
        var o := parser.Parse(response, data);
        after := response.Current();
        ContentsAppend(responses, response);
        responses := responses + [response];
        Settle(o);
      }
    }
  }

  // ---- Runs ------------------------------------------------------------------------------

  function Start(parser: ParserState): State {
    State(Writing, parser, true, Unresolved, 0, [])
  }

  /** A completion, and what a rejected parse made of its response object. */
  datatype Arrival = Arrival(e: Event, after: Message)

  /** The state after the completions `es`, if each arrives while its handler is installed. */
  function Run(c: State, es: seq<Arrival>): Option<State> {
    if es == [] then Some(c)
    else
      var n := |es| - 1;
      match Run(c, es[..n])
      case None => None
      case Some(d) => if Enabled(d, es[n].e) then Some(Step(d, es[n].e, es[n].after)) else None
  }

  /** What every completion keeps: the promise is resolved exactly when no operation is left,
      and then once; the response objects of earlier rounds are as they were allocated. */
  ghost predicate Consistent(c: State) {
    && c.resolutions == (if c.pending == Nothing then 1 else 0)
    && (c.result == Unresolved <==> c.pending != Nothing)
    && (c.active <==> c.pending != Nothing || c.result.Value?)
    && (c.pending == Writing ==> c.rounds == [])
    && (c.result.Value? ==> c.result.round == |c.rounds| - 1 && c.parser == INITIAL)
    && (forall k :: 0 <= k < |c.rounds| - 1 ==> c.rounds[k] == Empty(NODE_MESSAGE))
    && (c.pending != Nothing ==> forall k :: 0 <= k < |c.rounds| ==> c.rounds[k] == Empty(NODE_MESSAGE))
  }

  lemma {:induction false} RunsAreConsistent(p: ParserState, es: seq<Arrival>)
    requires Run(Start(p), es).Some?
    ensures Consistent(Run(Start(p), es).value)
  {
    if es != [] {
      RunsAreConsistent(p, es[..|es| - 1]);
      hide Feed, Run;
    }
  }

  /** The completion is a failure, or brings data that the parser refuses. */
  predicate Fails(c: State, e: Event) {
    match e
    case WriteDone(ok) => !ok
    case ReadDone(ok, data) => !ok || Feed(c.parser, data).1.Rejected?
  }

  /** The completion brings the end of a message the parser accepts. */
  predicate Delivers(c: State, e: Event, m: Message) {
    e.ReadDone? && e.ok && Feed(c.parser, e.data).1 == Good(m)
  }

  /** Over every run the promise is resolved at most once, and exactly once when the run comes
      to an end: with an exception if and only if the last completion failed or its data was
      refused, and with a value if and only if the parser said GOOD on the object of the last
      read. */
  lemma ResolvedOnce(p: ParserState, es: seq<Arrival>)
    requires Run(Start(p), es).Some?
    ensures var c := Run(Start(p), es).value;
      && c.resolutions == (if c.pending == Nothing then 1 else 0)
      && (c.pending == Nothing <==> c.result != Unresolved)
      && (es == [] ==> c.result == Unresolved)
      && (es != [] ==>
            var (d, e) := (Run(Start(p), es[..|es| - 1]).value, es[|es| - 1].e);
            && (c.result == Exception <==> Fails(d, e))
            && (c.result.Value? <==> exists m :: Delivers(d, e, m))
            && (c.result.Value? ==> c.result.round == |c.rounds| - 1 && Delivers(d, e, c.rounds[c.result.round]) && c.parser == INITIAL))
      && (forall k :: 0 <= k < |c.rounds| - 1 ==> c.rounds[k] == Empty(NODE_MESSAGE))
  {
    RunsAreConsistent(p, es);
    if es != [] {
      RunsAreConsistent(p, es[..|es| - 1]);
      StepResolves(Run(Start(p), es[..|es| - 1]).value, es[|es| - 1].e, es[|es| - 1].after);
    }
  }

  lemma StepResolves(c: State, e: Event, after: Message)
    requires Enabled(c, e) && c.result == Unresolved
    ensures var d := Step(c, e, after);
      && (d.result == Exception <==> Fails(c, e))
      && (d.result.Value? <==> exists m :: Delivers(c, e, m))
      && (d.result.Value? ==> d.rounds != [] && Delivers(c, e, d.rounds[|d.rounds| - 1]))
  {
    hide NODE_MESSAGE, Empty, Feed;
    if e.ReadDone? && e.ok && Feed(c.parser, e.data).1.Good? {
      assert Delivers(c, e, Feed(c.parser, e.data).1.m);
    }
  }

  // ---- A reply that arrives in pieces ------------------------------------------------------

  /** The write completes and `chunks` are read one by one. */
  function Reads(chunks: seq<bytes>): (es: seq<Arrival>)
    ensures |es| == |chunks| + 1
  {
    if chunks == [] then [Arrival(WriteDone(true), Empty(NODE_MESSAGE))]
    else Reads(chunks[..|chunks| - 1])
         + [Arrival(ReadDone(true, chunks[|chunks| - 1]), Empty(NODE_MESSAGE))]
  }

  function Rounds(n: nat): (ms: seq<Message>)
    ensures |ms| == n
  {
    seq(n, _ => Empty(NODE_MESSAGE))
  }

  lemma {:induction false} ConcatLast(chunks: seq<bytes>, c: bytes)
    ensures Concat(chunks + [c]) == Concat(chunks) + c
  {
    if chunks == [] {
      assert [c][1..] == [] && [c] == [c];
      assert c + [] == c;
    } else {
      assert (chunks + [c])[1..] == chunks[1..] + [c];
      ConcatLast(chunks[1..], c);
      assert chunks[0] + (Concat(chunks[1..]) + c) == chunks[0] + Concat(chunks[1..]) + c;
    }
  }

  lemma LastRead(chunks: seq<bytes>, d: bytes, c: State)
    requires Run(Start(INITIAL), Reads(chunks)) == Some(c) && c.pending == Reading
    ensures Run(Start(INITIAL), Reads(chunks + [d])) == Some(Step(c, ReadDone(true, d), Empty(NODE_MESSAGE)))
  {
    var all := chunks + [d];
    assert all[..|all| - 1] == chunks;
    var es := Reads(all);
    assert es[..|es| - 1] == Reads(chunks);
    hide Feed, NODE_MESSAGE, Empty, Reads;
  }

  lemma {:induction false} StillReading(body: bytes, chunks: seq<bytes>)
    requires |body| < TWO31 && Concat(chunks) <= Frame(body) && |Concat(chunks)| < |Frame(body)|
    ensures Run(Start(INITIAL), Reads(chunks)) ==
            Some(State(Reading, Halfway(body, Concat(chunks)), true, Unresolved, 0, Rounds(|chunks|)))
  {
    hide Run, Reads, Feed, Halfway, Frame, Verdict, NODE_MESSAGE, Concat, Empty;
    if chunks == [] {
      NothingRead(body);
    } else {
      var n := |chunks| - 1;
      var front, d := chunks[..n], chunks[n];
      assert chunks == front + [d];
      ConcatLast(front, d);
      StillReading(body, front);
      FeedPrefix(body, Concat(front), d);
      var c := State(Reading, Halfway(body, Concat(front)), true, Unresolved, 0, Rounds(n));
      LastRead(front, d, c);
      OneMoreRead(c, d, n);
    }
  }

  lemma NothingRead(body: bytes)
    ensures Concat([]) == []
    ensures Run(Start(INITIAL), Reads([])) == Some(State(Reading, Halfway(body, []), true, Unresolved, 0, Rounds(0)))
  {
    hide Feed;
    assert Reads([])[..0] == [];
  }

  lemma OneMoreRead(c: State, d: bytes, n: nat)
    requires c == State(Reading, c.parser, true, Unresolved, 0, Rounds(n)) && Feed(c.parser, d).1.Indeterminate?
    ensures Step(c, ReadDone(true, d), Empty(NODE_MESSAGE)) == c.(parser := Feed(c.parser, d).0, rounds := Rounds(n + 1))
  {
    hide Feed, NODE_MESSAGE, Empty;
    assert Rounds(n) + [Empty(NODE_MESSAGE)] == Rounds(n + 1);
  }

  /** How an exchange of `n` reads ends, by what the parser makes of the last. */
  function Ended(n: nat, o: Outcome): State
    requires n > 0 && !o.Indeterminate?
  {
    if o.Good? then State(Nothing, INITIAL, true, Value(n - 1), 1, Rounds(n - 1) + [o.m])
    else State(Nothing, INITIAL, false, Exception, 1, Rounds(n))
  }

  lemma FinalRead(body: bytes, front: seq<bytes>, d: bytes)
    requires |body| < TWO31 && d != [] && Concat(front) + d == Frame(body)
    ensures Run(Start(INITIAL), Reads(front + [d])) == Some(Ended(|front| + 1, Verdict(body)))
  {
    hide *;
    var p := Concat(front);
    assert p <= p + d;
    StillReading(body, front);
    FeedPrefix(body, p, d);
    var c := State(Reading, Halfway(body, p), true, Unresolved, 0, Rounds(|front|));
    LastRead(front, d, c);
    FinalStep(c, d, |front|, Verdict(body)) by { NeverWaits(body); }
  }

  lemma NeverWaits(body: bytes)
    ensures !Verdict(body).Indeterminate?
  {
  }

  lemma FinalStep(c: State, d: bytes, n: nat, o: Outcome)
    requires c == State(Reading, c.parser, true, Unresolved, 0, Rounds(n))
    requires Feed(c.parser, d) == (INITIAL, o) && !o.Indeterminate?
    ensures Step(c, ReadDone(true, d), Empty(NODE_MESSAGE)) == Ended(n + 1, o)
  {
    hide Feed, NODE_MESSAGE, Empty;
    assert Rounds(n) + [Empty(NODE_MESSAGE)] == Rounds(n + 1);
  }

  lemma CutLast(chunks: seq<bytes>, b: bytes)
    requires CutOf(chunks, b)
    ensures var n := |chunks| - 1;
      && n >= 0 && chunks[n] != []
      && chunks == chunks[..n] + [chunks[n]] && Concat(chunks[..n]) + chunks[n] == b
  {
    var n := |chunks| - 1;
    assert chunks == chunks[..n] + [chunks[n]];
    hide Concat;
    ConcatLast(chunks[..n], chunks[n]);
  }

  /** However what the tracker sends is cut on its way, after one read per piece the caller's
      promise gets the message in it, or an exception if the parser refuses it. */
  lemma FrameDelivered(body: bytes, chunks: seq<bytes>)
    requires |body| < TWO31 && CutOf(chunks, Frame(body))
    ensures !Verdict(body).Indeterminate?
    ensures Run(Start(INITIAL), Reads(chunks)) == Some(Ended(|chunks|, Verdict(body)))
  {
    hide *;
    NeverWaits(body);
    CutLast(chunks, Frame(body));
    FinalRead(body, chunks[..|chunks| - 1], chunks[|chunks| - 1]);
  }

  /** A message the tracker can send is delivered as it was sent. */
  lemma ReplyDelivered(m: Message, chunks: seq<bytes>)
    requires Sendable(m) && CutOf(chunks, Framed(m))
    ensures Run(Start(INITIAL), Reads(chunks)) ==
            Some(State(Nothing, INITIAL, true, Value(|chunks| - 1), 1, Rounds(|chunks| - 1) + [m]))
  {
    hide Run, Reads, Framed, Frame, Verdict, CutOf, Typed, Canonical, Initialized;
    SentIsGood(m);
    FrameDelivered(Serialize(NODE_MESSAGE, m), chunks);
  }
}
