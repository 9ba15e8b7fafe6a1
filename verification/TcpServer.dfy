/** The simulator's FINS/TCP connection loop (server.go:325-368). */
module TcpServer {
  import opened Bytes
  import opened Driver
  import opened Server
  import opened Transport

  /** How a connection ends: at a read error, at a first frame that is no handshake, or in a panic. */
  datatype End = ReadError(error: ParseError) | NoHandshake | Panicked

  datatype Session<+M> = Session(state: M, output: seq<byte>, end: End)

  /** What serves the n-th data frame: new state and reply bytes, or None for a panic. */
  type Service<!M> = (M, seq<byte>, nat) -> (M, Option<seq<byte>>)

  type SimulatorMemory = m: Memory | WellFormed(m) ghost witness InitialMemory()

  /** Clock readings, one for each data frame. */
  type Clock = nat -> seq<byte>

  function Simulator(clock: Clock): Service<SimulatorMemory> {
    (m: SimulatorMemory, frame: seq<byte>, n: nat) => var s := Serve(m, frame, clock(n)); (s.memory, s.reply)
  }

  // ---------- The connection as a function of its input ----------

  function After<M>(output: seq<byte>, s: Session<M>): Session<M> { s.(output := output + s.output) }

  function DataFrame(reply: seq<byte>): seq<byte> { Frame(DATA_COMMAND, 0, reply) }

  /** The loop over the frames that follow the handshake. */
  function ServeFrames<M>(serve: Service<M>, m: M, stream: seq<byte>, n: nat): Session<M>
    decreases |stream|
  {
    match Parse(stream)
    case Rejected(e) => Session(m, [], ReadError(e))
    case Parsed(message, rest) =>
      if message.command != DATA_COMMAND then ServeFrames(serve, m, rest, n)
      else
        var (m', reply) := serve(m, message.body, n);
        if reply.None? then Session(m', [], Panicked)
        else After(DataFrame(reply.value), ServeFrames(serve, m', rest, n + 1))
  }

  function ServeConnection<M>(serve: Service<M>, m: M, stream: seq<byte>): Session<M> {
    match Parse(stream)
    case Rejected(e) => Session(m, [], ReadError(e))
    case Parsed(first, rest) =>
      if first.command != HANDSHAKE_COMMAND then Session(m, [], NoHandshake)
      else After(Frame(HANDSHAKE_COMMAND, 0, []), ServeFrames(serve, m, rest, 0))
  }

  /** One turn of the loop, with what was written before. */
  lemma NextFrame<M>(written: seq<byte>, serve: Service<M>, m: M, stream: seq<byte>, n: nat)
    ensures var p := Parse(stream);
            After(written, ServeFrames(serve, m, stream, n)) == (
              if p.Rejected? then Session(m, written, ReadError(p.error))
              else if p.message.command != DATA_COMMAND then After(written, ServeFrames(serve, m, p.rest, n))
              else
                var r := serve(m, p.message.body, n);
                if r.1.None? then Session(r.0, written, Panicked)
                else After(written + DataFrame(r.1.value), ServeFrames(serve, r.0, p.rest, n + 1)))
  {
    var p := Parse(stream);
    assert written + [] == written;
    if p.Parsed? && p.message.command == DATA_COMMAND {
      var (m', reply) := serve(m, p.message.body, n);
      if reply.Some? {
        AfterTwice(written, DataFrame(reply.value), ServeFrames(serve, m', p.rest, n + 1));
      }
    }
  }

  // ---------- The loop ----------

  class Connection {
    const srv: Server
    const clock: Clock
    const reader: Reader
    var written: seq<byte>

    constructor (srv: Server, clock: Clock, input: seq<byte>)
      ensures this.srv == srv && this.clock == clock
      ensures fresh(reader) && reader.Valid() && reader.Remaining() == input && written == []
    {
      this.srv, this.clock := srv, clock;
      reader := new Reader(input);
      written := [];
    }

    /** The simulator's buffers are not the connection's own objects. */
    ghost predicate Ready() reads reader {
      reader.Valid() && srv.Valid() && this !in srv.Repr && reader !in srv.Repr
    }

    method Handle() returns (end: End)
      requires Ready() && written == []
      modifies this`written, reader, srv.Repr
      ensures Session(srv.Contents(), written, end)
           == ServeConnection<SimulatorMemory>(Simulator(clock), old(srv.Contents()), old(reader.Remaining()))
    {
      ghost var m := srv.Contents();
      var p := reader.ReadFrame();
      assert srv.Contents() == m;
      if p.Rejected? {
        return ReadError(p.error);
      }
      if p.message.command != HANDSHAKE_COMMAND {
        return NoHandshake;
      }
      Write(HANDSHAKE_COMMAND, []);
      assert srv.Contents() == m && written == Frame(HANDSHAKE_COMMAND, 0, []);
      end := Loop();
    }

    method Loop() returns (end: End)
      requires Ready()
      modifies this`written, reader, srv.Repr
      ensures Session(srv.Contents(), written, end)
           == After(old(written),
                    ServeFrames<SimulatorMemory>(Simulator(clock), old(srv.Contents()), old(reader.Remaining()), 0))
    {
      var n := 0;
      ghost var serve := Simulator(clock);
      ghost var whole := After(written, ServeFrames<SimulatorMemory>(serve, srv.Contents(), reader.Remaining(), 0));
      while true
        invariant Ready()
        invariant whole == After(written, ServeFrames<SimulatorMemory>(serve, srv.Contents(), reader.Remaining(), n))
        decreases |reader.Remaining()|
      {
        ghost var m, input := srv.Contents(), reader.Remaining();
        ParseAdvances(input);
        NextFrame<SimulatorMemory>(written, serve, m, input, n);
        var p := reader.ReadFrame();
        if p.Rejected? {
          return ReadError(p.error);
        }
        if p.message.command == DATA_COMMAND {
          var ok := Reply(p.message.body, n);
          if !ok {
            return Panicked;
          }
          n := n + 1;
        }
      }
    }

    /** conn.Write(finsTCPFrame(command, body)) */
    method Write(command: uint32, body: seq<byte>)
      modifies this`written
      ensures written == old(written) + Frame(command, 0, body)
    {
      var frame := FinsTCPFrame(command, body);
      written := written + frame[..];
    }

    /** One data frame: serve it and write the framed response. */
    method Reply(body: seq<byte>, n: nat) returns (ok: bool)
      requires srv.Valid() && this !in srv.Repr
      modifies this`written, srv.Repr
      ensures var (m', reply) := Simulator(clock)(old(srv.Contents()), body, n);
              && srv.Contents() == m' && ok == reply.Some?
              && written == old(written) + (if ok then DataFrame(reply.value) else [])
    {
      var reply := srv.ServeFrame(body, clock(n));
      if reply.None? {
        return false;
      }
      Write(DATA_COMMAND, reply.value);
      return true;
    }
  }

  lemma ParseAdvances(stream: seq<byte>)
    ensures Parse(stream).Parsed? ==> |Parse(stream).rest| < |stream|
  {
  }

  lemma AfterTwice<M>(a: seq<byte>, b: seq<byte>, s: Session<M>)
    ensures After(a, After(b, s)) == After(a + b, s)
  {
    assert a + (b + s.output) == a + b + s.output;
  }

  // ---------- One response per data frame ----------

  predicate IsData(m: Message) { m.command == DATA_COMMAND }

  function DataBodies(ms: seq<Message>): seq<seq<byte>> {
    if ms == [] then [] else if IsData(ms[0]) then [ms[0].body] + DataBodies(ms[1..]) else DataBodies(ms[1..])
  }

  /** A reply frame answers a data frame: it decodes to a response to the same command, with the frame's
      service ID and swapped addresses. */
  ghost predicate Answers(reply: Message, body: seq<byte>) {
    && reply.command == DATA_COMMAND && reply.errorCode == 0
    && |body| >= 12
    && DecodeResponse(reply.body).Some?
    && var r := DecodeResponse(reply.body).value;
       && r.header == DefaultResponseHeader(DecodeHeader(body[..10]))
       && r.header.serviceID == body[9]
       && r.header.src == FinsAddress(body[3], body[4], body[5])
       && r.header.dst == FinsAddress(body[6], body[7], body[8])
       && r.commandCode == Uint16(BigEndian, body[10..12])
  }

  function ReplyMessage(reply: seq<byte>): Message { Message(DATA_COMMAND, 0, reply) }

  /** In every state the service gets through this body, with a proper answer of less than 2^32 bytes. */
  ghost predicate Served<M(!new)>(serve: Service<M>, body: seq<byte>) {
    forall m: M, n: nat :: serve(m, body, n).1.Some?
      && |serve(m, body, n).1.value| + 8 < TWO32 && Answers(ReplyMessage(serve(m, body, n).1.value), body)
  }

  ghost predicate AllServed<M(!new)>(serve: Service<M>, ms: seq<Message>) {
    forall m :: m in ms && IsData(m) ==> Served(serve, m.body)
  }

  /** The replies to a list of messages. */
  function Replies<M>(serve: Service<M>, m: M, ms: seq<Message>, n: nat): seq<Message> {
    if ms == [] then []
    else if !IsData(ms[0]) then Replies(serve, m, ms[1..], n)
    else
      var (m', reply) := serve(m, ms[0].body, n);
      [ReplyMessage(reply.GetOr([]))] + Replies(serve, m', ms[1..], n + 1)
  }

  /** The state they leave. */
  function StateAfter<M>(serve: Service<M>, m: M, ms: seq<Message>, n: nat): M {
    if ms == [] then m
    else if !IsData(ms[0]) then StateAfter(serve, m, ms[1..], n)
    else StateAfter(serve, serve(m, ms[0].body, n).0, ms[1..], n + 1)
  }

  function StopReason(stream: seq<byte>): ParseError {
    match Parse(ParseAll(stream).1)
    case Rejected(e) => e
    case Parsed(_, _) => EndOfStream
  }

  lemma {:induction false} ServeFramesIsReplies<M(!new)>(serve: Service<M>, m: M, stream: seq<byte>, n: nat)
    requires AllServed(serve, ParseAll(stream).0)
    ensures var ms := ParseAll(stream).0;
            ServeFrames(serve, m, stream, n)
            == Session(StateAfter(serve, m, ms, n), Frames(Replies(serve, m, ms, n)), ReadError(StopReason(stream)))
    decreases |stream|
  {
    var p := Parse(stream);
    if p.Parsed? {
      var ms := ParseAll(p.rest).0;
      ParseAdvances(stream);
      assert ParseAll(stream).0 == [p.message] + ms && ([p.message] + ms)[1..] == ms;
      if IsData(p.message) {
        assert p.message in ParseAll(stream).0;
        var (m', reply) := serve(m, p.message.body, n);
        ServeFramesIsReplies(serve, m', p.rest, n + 1);
        FramesOfCons(ReplyMessage(reply.value), Replies(serve, m', ms, n + 1));
      } else {
        ServeFramesIsReplies(serve, m, p.rest, n);
      }
    }
  }

  lemma FramesOfCons(m: Message, ms: seq<Message>)
    ensures Frames([m] + ms) == Frame(m.command, m.errorCode, m.body) + Frames(ms)
  {
    assert ([m] + ms)[1..] == ms;
  }

  /** An answer whose length fits a frame. */
  ghost predicate AnswersBriefly(reply: Message, body: seq<byte>) { Answers(reply, body) && |reply.body| + 8 < TWO32 }

  lemma PairUp(reply: Message, more: seq<Message>, body: seq<byte>, bodies: seq<seq<byte>>)
    requires AnswersBriefly(reply, body) && |more| == |bodies|
    requires forall i :: 0 <= i < |bodies| ==> AnswersBriefly(more[i], bodies[i])
    ensures forall i :: 0 <= i < |bodies| + 1 ==> AnswersBriefly(([reply] + more)[i], ([body] + bodies)[i])
  {
  }

  lemma {:induction false} RepliesPairUp<M(!new)>(serve: Service<M>, m: M, ms: seq<Message>, n: nat)
    requires AllServed(serve, ms)
    ensures |Replies(serve, m, ms, n)| == |DataBodies(ms)|
    ensures forall i :: 0 <= i < |DataBodies(ms)| ==> AnswersBriefly(Replies(serve, m, ms, n)[i], DataBodies(ms)[i])
  {
    if ms != [] {
      if IsData(ms[0]) {
        assert Served(serve, ms[0].body);
        var (m', reply) := serve(m, ms[0].body, n);
        RepliesPairUp(serve, m', ms[1..], n + 1);
        PairUp(ReplyMessage(reply.value), Replies(serve, m', ms[1..], n + 1), ms[0].body, DataBodies(ms[1..]));
      } else {
        RepliesPairUp(serve, m, ms[1..], n);
      }
    }
  }

  // ---------- Services that panic ----------

  /** A service that gets through exactly the bodies ok holds of, in every state, with proper answers, and leaves
      its state alone when it panics. */
  ghost predicate Decides<M(!new)>(serve: Service<M>, ok: seq<byte> -> bool) {
    && (forall body: seq<byte> :: ok(body) ==> Served(serve, body))
    && (forall body: seq<byte>, m: M, n: nat :: !ok(body) ==> serve(m, body, n) == (m, None))
  }

  predicate Stops(m: Message, ok: seq<byte> -> bool) { IsData(m) && !ok(m.body) }

  /** The messages before the first data frame the service panics on. */
  function BeforePanic(ms: seq<Message>, ok: seq<byte> -> bool): (good: seq<Message>)
    ensures good <= ms && (forall m :: m in good ==> !Stops(m, ok)) && (good == ms || Stops(ms[|good|], ok))
  {
    if ms == [] || Stops(ms[0], ok) then []
    else
      var rest := BeforePanic(ms[1..], ok);
      assert [ms[0]] + ms[1..] == ms;
      [ms[0]] + rest
  }

  lemma BeforePanicOfCons(m: Message, ms: seq<Message>, ok: seq<byte> -> bool)
    ensures BeforePanic([m] + ms, ok) == if Stops(m, ok) then [] else [m] + BeforePanic(ms, ok)
  {
    assert ([m] + ms)[1..] == ms;
  }

  /** The state, the replies and the end of a loop over these messages. */
  function Serving<M>(serve: Service<M>, m: M, ms: seq<Message>, n: nat, end: End): Session<M> {
    Session(StateAfter(serve, m, ms, n), Frames(Replies(serve, m, ms, n)), end)
  }

  lemma ServingOfCons<M(!new)>(serve: Service<M>, m: M, first: Message, ms: seq<Message>, n: nat, end: End)
    requires IsData(first) ==> serve(m, first.body, n).1.Some?
    ensures Serving(serve, m, [first] + ms, n, end) == (
              if !IsData(first) then Serving(serve, m, ms, n, end)
              else After(DataFrame(serve(m, first.body, n).1.value),
                  Serving(serve, serve(m, first.body, n).0, ms, n + 1, end)))
  {
    assert ([first] + ms)[1..] == ms;
    if IsData(first) {
      var (m', reply) := serve(m, first.body, n);
      FramesOfCons(ReplyMessage(reply.value), Replies(serve, m', ms, n + 1));
    }
  }

  lemma {:induction false} ServeFramesUpToPanic<M(!new)>(serve: Service<M>, ok: seq<byte> -> bool, m: M,
        stream: seq<byte>, n: nat)
    requires Decides(serve, ok)
    ensures var ms := ParseAll(stream).0;
            var good := BeforePanic(ms, ok);
            ServeFrames(serve, m, stream, n)
            == Serving(serve, m, good, n, if good == ms then ReadError(StopReason(stream)) else Panicked)
    decreases |stream|
  {
    var p := Parse(stream);
    if p.Parsed? {
      var ms := ParseAll(p.rest).0;
      ParseAdvances(stream);
      assert ParseAll(stream) == ([p.message] + ms, ParseAll(p.rest).1);
      BeforePanicOfCons(p.message, ms, ok);
      if !Stops(p.message, ok) {
        assert [p.message] + BeforePanic(ms, ok) == [p.message] + ms <==> BeforePanic(ms, ok) == ms by {
          assert ([p.message] + BeforePanic(ms, ok))[1..] == BeforePanic(ms, ok) && ([p.message] + ms)[1..] == ms;
        }
        var end := if BeforePanic(ms, ok) == ms then ReadError(StopReason(p.rest)) else Panicked;
        var next := if IsData(p.message) then serve(m, p.message.body, n).0 else m;
        ServeFramesUpToPanic(serve, ok, next, p.rest, if IsData(p.message) then n + 1 else n);
        ServingOfCons(serve, m, p.message, BeforePanic(ms, ok), n, end);
      }
    }
  }

  lemma GoodIsServed<M(!new)>(serve: Service<M>, ms: seq<Message>, ok: seq<byte> -> bool)
    requires Decides(serve, ok)
    ensures AllServed(serve, BeforePanic(ms, ok))
  {
  }

  const HANDSHAKE_REPLY: Message := Message(HANDSHAKE_COMMAND, 0, [])

  /** A stream that opens with a handshake frame and whose later data frames are all served. */
  ghost predicate Proper<M(!new)>(serve: Service<M>, stream: seq<byte>) {
    var ms := ParseAll(stream).0;
    ms != [] && ms[0].command == HANDSHAKE_COMMAND && AllServed(serve, ms[1..])
  }

  lemma RepliesParseBack<M(!new)>(serve: Service<M>, m: M, ms: seq<Message>)
    requires AllServed(serve, ms)
    ensures var replies := Replies(serve, m, ms, 0);
            && ParseAll(Frames([HANDSHAKE_REPLY] + replies)) == ([HANDSHAKE_REPLY] + replies, [])
            && |replies| == |DataBodies(ms)|
            && forall i :: 0 <= i < |replies| ==> Answers(replies[i], DataBodies(ms)[i])
  {
    var replies := Replies(serve, m, ms, 0);
    RepliesPairUp(serve, m, ms, 0);
    forall i | 0 <= i < |replies| ensures Answers(replies[i], DataBodies(ms)[i]) && |replies[i].body| + 8 < TWO32 {
      assert AnswersBriefly(replies[i], DataBodies(ms)[i]);
    }
    StreamRoundTrip([HANDSHAKE_REPLY] + replies);
  }

  /** For every proper byte stream the output is one handshake reply and then one reply per data frame, in
      order, each answering its frame; frames with other commands produce nothing; and a client that parses
      the output reads exactly those messages. */
  lemma Transcript<M(!new)>(serve: Service<M>, m: M, stream: seq<byte>)
    requires Proper(serve, stream)
    ensures var ms := ParseAll(stream).0[1..];
            var replies := Replies(serve, m, ms, 0);
            var sent := Frames([HANDSHAKE_REPLY] + replies);
            && ServeConnection(serve, m, stream)
               == Session(StateAfter(serve, m, ms, 0), sent, ReadError(StopReason(stream)))
            && ParseAll(sent) == ([HANDSHAKE_REPLY] + replies, [])
            && |replies| == |DataBodies(ms)|
            && forall i :: 0 <= i < |replies| ==> Answers(replies[i], DataBodies(ms)[i])
  {
    var p := Parse(stream);
    var ms := ParseAll(p.rest).0;
    assert ParseAll(stream).0 == [p.message] + ms && ([p.message] + ms)[1..] == ms;
    ServeFramesIsReplies(serve, m, p.rest, 0);
    RepliesParseBack(serve, m, ms);
    FramesOfCons(HANDSHAKE_REPLY, Replies(serve, m, ms, 0));
  }

  /** For a service that may panic: the transcript up to the first data frame it panics on. */
  lemma TranscriptUpToPanic<M(!new)>(serve: Service<M>, ok: seq<byte> -> bool, m: M, stream: seq<byte>)
    requires Decides(serve, ok) && ParseAll(stream).0 != [] && ParseAll(stream).0[0].command == HANDSHAKE_COMMAND
    ensures var ms := ParseAll(stream).0[1..];
            var good := BeforePanic(ms, ok);
            var replies := Replies(serve, m, good, 0);
            var sent := Frames([HANDSHAKE_REPLY] + replies);
            var end := if good == ms then ReadError(StopReason(stream)) else Panicked;
            && ServeConnection(serve, m, stream) == Session(StateAfter(serve, m, good, 0), sent, end)
            && ParseAll(sent) == ([HANDSHAKE_REPLY] + replies, [])
            && |replies| == |DataBodies(good)|
            && forall i :: 0 <= i < |replies| ==> Answers(replies[i], DataBodies(good)[i])
  {
    var p := Parse(stream);
    var ms := ParseAll(p.rest).0;
    assert ParseAll(stream).0 == [p.message] + ms && ([p.message] + ms)[1..] == ms;
    ServeFramesUpToPanic(serve, ok, m, p.rest, 0);
    GoodIsServed(serve, ms, ok);
    RepliesParseBack(serve, m, BeforePanic(ms, ok));
    FramesOfCons(HANDSHAKE_REPLY, Replies(serve, m, BeforePanic(ms, ok), 0));
  }

  // ---------- What the simulator serves ----------

  /** A data frame the handler gets through: long enough, and its command does not panic. */
  predicate Answerable(body: seq<byte>) {
    |body| >= 12 &&
    var code := Uint16(BigEndian, body[10..12]);
    (code == MEMORY_AREA_READ || code == MEMORY_AREA_WRITE ==>
       var c := RequestedCommand(code, body[12..]);
       c.Some? && (c.value.Supported() ==> !c.value.Bounds().Panics?))
  }

  lemma ServeAnswersWhen(m: Memory, body: seq<byte>, clock: seq<byte>)
    requires WellFormed(m)
    ensures Serve(m, body, clock).reply.Some? <==> Answerable(body)
  {
  }

  lemma ReplyAnswers(m: Memory, body: seq<byte>, clock: seq<byte>)
    requires WellFormed(m) && Answerable(body) && |clock| <= AREA_SIZE
    ensures var reply := Serve(m, body, clock).reply;
            reply.Some? && |reply.value| + 8 < TWO32 && Answers(ReplyMessage(reply.value), body)
  {
    ServeAnswersWhen(m, body, clock);
    var request := DecodeRequest(body).value;
    ResponseShape(m, request, clock);
    var r := Handle(m, request, clock).response.value;
    EncodedAnswers(body, r);
  }

  lemma EncodedAnswers(body: seq<byte>, r: Response)
    requires |body| >= 12 && |r.data| <= AREA_SIZE
    requires r.header == DefaultResponseHeader(DecodeRequest(body).value.header)
    requires r.commandCode == DecodeRequest(body).value.commandCode
    ensures |EncodeResponse(r)| + 8 < TWO32 && Answers(ReplyMessage(EncodeResponse(r)), body)
  {
    ResponseAnswers(body, r.endCode, r.data);
  }

  /** The simulator serves a data frame in every state if and only if the frame is answerable. */
  lemma SimulatorServesWhen(clock: Clock, body: seq<byte>)
    requires forall n: nat :: |clock(n)| <= AREA_SIZE
    ensures Served(Simulator(clock), body) <==> Answerable(body)
  {
    var serve := Simulator(clock);
    var start: SimulatorMemory := InitialMemory();
    ServeAnswersWhen(start, body, clock(0));
    assert serve(start, body, 0).1 == Serve(start, body, clock(0)).reply;
    if Answerable(body) {
      forall m: SimulatorMemory, n: nat
        ensures var reply := serve(m, body, n).1;
                reply.Some? && |reply.value| + 8 < TWO32 && Answers(ReplyMessage(reply.value), body)
      {
        ReplyAnswers(m, body, clock(n));
      }
    }
  }

  /** Which streams the simulator's transcript covers: those it is proper for, told from their bytes alone. */
  lemma SimulatorProperWhen(clock: Clock, stream: seq<byte>)
    requires forall n: nat :: |clock(n)| <= AREA_SIZE
    ensures Proper(Simulator(clock), stream)
       <==> var ms := ParseAll(stream).0;
            && ms != [] && ms[0].command == HANDSHAKE_COMMAND
            && forall m :: m in ms[1..] && IsData(m) ==> Answerable(m.body)
  {
    var ms := ParseAll(stream).0;
    forall m | m in ms ensures Served(Simulator(clock), m.body) <==> Answerable(m.body) {
      SimulatorServesWhen(clock, m.body);
    }
  }

  lemma SimulatorDecides(clock: Clock)
    requires forall n: nat :: |clock(n)| <= AREA_SIZE
    ensures Decides(Simulator(clock), Answerable)
  {
    var serve := Simulator(clock);
    forall body: seq<byte> ensures Answerable(body) ==> Served(serve, body) {
      SimulatorServesWhen(clock, body);
    }
    forall body: seq<byte>, m: SimulatorMemory, n: nat | !Answerable(body) ensures serve(m, body, n) == (m, None) {
      PanicKeepsMemory(m, body, clock(n));
    }
  }

  lemma PanicKeepsMemory(m: Memory, body: seq<byte>, clock: seq<byte>)
    requires WellFormed(m) && !Answerable(body)
    ensures Serve(m, body, clock).memory == m && Serve(m, body, clock).reply == None
  {
  }

  /** The transcript of the simulator itself, for every byte stream and from any memory. A stream with no first
      message, or whose first message is no handshake, gets no output. Any other gets one handshake reply and one
      answer per data frame, in order, up to the first frame that makes the simulator panic, if there is one;
      frames with other commands get nothing; and a client that parses the output reads exactly those messages. */
  lemma SimulatorTranscript(clock: Clock, m: SimulatorMemory, stream: seq<byte>)
    requires forall n: nat :: |clock(n)| <= AREA_SIZE
    ensures var ms := ParseAll(stream).0;
            var session := ServeConnection<SimulatorMemory>(Simulator(clock), m, stream);
            if ms == [] then session == Session(m, [], ReadError(StopReason(stream)))
            else if ms[0].command != HANDSHAKE_COMMAND then session == Session(m, [], NoHandshake)
            else
              var good := BeforePanic(ms[1..], Answerable);
              var (replies, rest) := ParseAll(session.output);
              && session.state == StateAfter<SimulatorMemory>(Simulator(clock), m, good, 0)
              && session.end == (if good == ms[1..] then ReadError(StopReason(stream)) else Panicked)
              && rest == [] && |replies| == 1 + |DataBodies(good)| && replies[0] == HANDSHAKE_REPLY
              && forall i :: 0 <= i < |DataBodies(good)| ==> Answers(replies[i + 1], DataBodies(good)[i])
  {
    SimulatorDecides(clock);
    var ms := ParseAll(stream).0;
    if ms != [] && ms[0].command == HANDSHAKE_COMMAND {
      TranscriptUpToPanic<SimulatorMemory>(Simulator(clock), Answerable, m, stream);
    }
  }
}
