/** Service-ID multiplexing (client.go:841-906, 976-989): many callers share one connection through a byte
    counter and a table of 256 one-slot channels, over a network that delays, loses and repeats messages.

    Allocations are numbered 0, 1, 2, ... The number is history: the wire carries only the service ID. */
module Multiplexer {
  import opened Bytes
  import opened Driver

  const SID_COUNT: nat := 256

  /** The service ID of allocation k; the counter is incremented before its first use. */
  function Sid(k: nat): byte { (k + 1) % SID_COUNT }

  /** A frame under way, with the allocation it was sent for. */
  datatype Packet = Packet(tag: nat, frame: seq<byte>)

  /** Channel k was made by allocation k; its buffer holds at most one response. */
  type Queues = seq<seq<Packet>>

  // ---------- The table ----------

  /** The channel found under a service ID after n allocations: the latest made for it, if any. */
  function Holder(n: nat, sid: byte): Option<nat> {
    var k := n - 1 - (n - sid) % SID_COUNT;
    if k < 0 then None else Some(k)
  }

  lemma HolderIsLatest(n: nat, sid: byte)
    ensures match Holder(n, sid)
            case Some(k) => k < n <= k + SID_COUNT && Sid(k) == sid
            case None => n < SID_COUNT && forall k: nat :: k < n ==> Sid(k) != sid
  {
  }

  /** Under the service ID of allocation k sits the latest allocation a multiple of 256 after it. */
  lemma HolderOffset(n: nat, k: nat)
    requires k < n
    ensures Holder(n, Sid(k)) == Some(k + (n - 1 - k) / SID_COUNT * SID_COUNT)
  {
    var later, q := n - 1 - k, (k + 1) / SID_COUNT;
    assert n - Sid(k) == later + SID_COUNT * q;
    MultipleDropped(later, SID_COUNT, q);
  }

  /** An allocation finds its own channel under its service ID until 256 more have been made. */
  lemma HolderIsOwnWhen(n: nat, k: nat)
    requires k < n
    ensures Holder(n, Sid(k)) == Some(k) <==> n <= k + SID_COUNT
    ensures Holder(n, Sid(k)).Some? && k <= Holder(n, Sid(k)).value < n
    ensures Holder(n, Sid(k)).value % SID_COUNT == k % SID_COUNT
  {
    HolderOffset(n, k);
    var q := (n - 1 - k) / SID_COUNT;
    MultipleDropped(k, SID_COUNT, q);
  }

  /** Non-blocking send of a response to the channel under its service ID: dropped if there is no channel
      or its slot is taken. */
  function Delivered(queues: Queues, sid: byte, p: Packet): (r: Queues)
    ensures |r| == |queues|
  {
    match Holder(|queues|, sid)
    case None => queues
    case Some(k) => if queues[k] == [] then queues[k := [p]] else queues
  }

  // ---------- The table in the client ----------

  class Channel {
    var buffer: seq<Packet>

    constructor ()
      ensures buffer == []
    {
      buffer := [];
    }
  }

  /** The table after the given channels were made: under each service ID the latest. */
  ghost predicate TableOf(table: seq<Channel?>, made: seq<Channel>) {
    && |table| == SID_COUNT
    && forall b: byte :: table[b] == match Holder(|made|, b) case None => null case Some(k) => made[k]
  }

  lemma NextTable(table: seq<Channel?>, made: seq<Channel>, channel: Channel)
    requires TableOf(table, made)
    ensures TableOf(table[Sid(|made|) := channel], made + [channel])
    ensures Sid(|made|) == (|made| % SID_COUNT + 1) % SID_COUNT == (|made| + 1) % SID_COUNT
  {
    var n, longer, next := |made|, made + [channel], table[Sid(|made|) := channel];
    SlotsAfter(n);
    forall b: byte
      ensures next[b] == match Holder(n + 1, b) case None => null case Some(k) => longer[k]
    {
      assert table[b] == match Holder(n, b) case None => null case Some(k) => made[k];
      assert Holder(n + 1, b) == if b == Sid(n) then Some(n) else Holder(n, b);
    }
  }

  class Client {
    var sid: byte
    var resp: array<Channel?>
    ghost var made: seq<Channel>

    ghost predicate Valid()
      reads this, resp
    {
      && TableOf(resp[..], made)
      && sid == |made| % SID_COUNT
      && (forall i, j :: 0 <= i < j < |made| ==> made[i] != made[j])
    }

    /** The contents of every channel ever made. */
    ghost function Buffers(): Queues
      reads this, made
    {
      seq(|made|, k requires 0 <= k < |made| reads this, made => made[k].buffer)
    }

    constructor ()
      ensures Valid() && Buffers() == []
    {
      sid, made := 0, [];
      resp := new Channel?[SID_COUNT](_ => null);
    }

    method IncrementSid() returns (id: byte)
      requires Valid()
      modifies this, resp
      ensures Valid() && resp == old(resp)
      ensures id == Sid(|old(made)|) && Buffers() == old(Buffers()) + [[]]
    {
      sid := (sid + 1) % SID_COUNT;
      var channel := new Channel();
      resp[sid] := channel;
      NextTable(old(resp[..]), made, channel);
      assert resp[..] == old(resp[..])[Sid(|made|) := channel];
      made := made + [channel];
      return sid;
    }

    method LookUp(id: byte) returns (channel: Channel?)
      requires Valid()
      ensures channel == match Holder(|made|, id) case None => null case Some(k) => made[k]
    {
      return resp[id];
    }

    /** The delivery part of listenLoop: an empty payload is skipped, and one too short to be a response makes
        the decoder panic. */
    method Deliver(p: Packet) returns (ok: bool)
      requires Valid()
      modifies made
      ensures Valid() && ok == (p.frame == [] || |p.frame| >= 14)
      ensures Buffers() == if |p.frame| >= 14 then Delivered(old(Buffers()), ServiceID(p.frame), p) else old(Buffers())
    {
      if p.frame == [] {
        return true;
      }
      var response := DecodeResponse(p.frame);
      if response.None? {
        return false;
      }
      var channel := resp[response.value.header.serviceID];
      if channel != null && channel.buffer == [] {
        channel.buffer := [p];
      }
      return true;
    }
  }

  lemma SuccessorModulo(x: int)
    ensures (x + 1) % SID_COUNT == if x % SID_COUNT == SID_COUNT - 1 then 0 else x % SID_COUNT + 1
  {
    MultipleDropped(x % SID_COUNT + 1, SID_COUNT, x / SID_COUNT);
  }

  lemma NextSidIs(n: nat, b: byte)
    ensures b == Sid(n) <==> (n - b) % SID_COUNT == SID_COUNT - 1
  {
    var p, q := (n + 1) / SID_COUNT, (n - b) / SID_COUNT;
    if b == Sid(n) {
      assert n - b == SID_COUNT - 1 + SID_COUNT * (p - 1);
      MultipleDropped(SID_COUNT - 1, SID_COUNT, p - 1);
    }
    if (n - b) % SID_COUNT == SID_COUNT - 1 {
      assert n + 1 == b + SID_COUNT * (q + 1);
      MultipleDropped(b, SID_COUNT, q + 1);
    }
  }

  lemma NextHolder(n: nat, b: byte)
    ensures Holder(n + 1, b) == if b == Sid(n) then Some(n) else Holder(n, b)
  {
    SuccessorModulo(n - b);
    NextSidIs(n, b);
  }

  /** An allocation changes one slot, the one its service ID names. */
  lemma SlotsAfter(n: nat)
    ensures Sid(n) == (n % SID_COUNT + 1) % SID_COUNT == (n + 1) % SID_COUNT
    ensures forall b: byte :: Holder(n + 1, b) == if b == Sid(n) then Some(n) else Holder(n, b)
  {
    forall b: byte ensures Holder(n + 1, b) == if b == Sid(n) then Some(n) else Holder(n, b) {
      NextHolder(n, b);
    }
  }

  // ---------- The protocol ----------

  /** Where a call of sendCommand stands; Waiting holds the channel it looked up. */
  datatype Phase = Allocated(command: seq<byte>) | Sent | Waiting(channel: nat) | Received(answer: Packet) | GaveUp

  datatype State = State(queues: Queues, callers: seq<Phase>, requests: set<Packet>, responses: set<Packet>)

  datatype Step =
    | Allocate(command: seq<byte>)
    | Send(k: nat)
    | LookUp(k: nat)
    | PickUp(k: nat)
    | GiveUp(k: nat)
    | Echo(p: Packet, endCode: uint16, data: seq<byte>, again: bool)
    | Deliver(p: Packet, again: bool)
    | Lose(p: Packet)

  /** The two ends of the connection. */
  datatype Ends = Ends(src: FinsAddress, dst: FinsAddress)
  {
    function CommandHeader(k: nat): Header { DefaultCommandHeader(src, dst, Sid(k)) }
  }

  const INITIAL: State := State([], [], {}, {})

  predicate Enabled(s: State, step: Step) {
    match step
    case Allocate(_) => true
    case Send(k) => k < |s.callers| && s.callers[k].Allocated?
    case LookUp(k) => k < |s.callers| && s.callers[k].Sent?
    case PickUp(k) => k < |s.callers| && s.callers[k].Waiting?
                      && s.callers[k].channel < |s.queues| && s.queues[s.callers[k].channel] != []
    case GiveUp(k) => k < |s.callers| && !s.callers[k].Received?
    case Echo(p, _, _, _) => p in s.requests && |p.frame| >= 12
    case Deliver(p, _) => p in s.responses && |p.frame| >= 14
    case Lose(p) => true
  }

  function RequestFrame(ends: Ends, k: nat, command: seq<byte>): seq<byte> {
    EncodeHeader(ends.CommandHeader(k)) + command
  }

  /** Any response the server may make to a request: its data is free, its header is not. */
  function ResponseFrame(request: seq<byte>, endCode: uint16, data: seq<byte>): seq<byte>
    requires |request| >= 12
  {
    var r := DecodeRequest(request).value;
    EncodeResponse(Response(DefaultResponseHeader(r.header), r.commandCode, endCode, data))
  }

  function ServiceID(response: seq<byte>): byte
    requires |response| >= 14
  {
    DecodeResponse(response).value.header.serviceID
  }

  function Without(ps: set<Packet>, p: Packet, again: bool): set<Packet> { if again then ps else ps - {p} }

  /** One atomic step of a caller, the server, the listen loop or the network. */
  function Apply(ends: Ends, s: State, step: Step): State
    requires Enabled(s, step)
  {
    match step
    case Allocate(command) => s.(queues := s.queues + [[]], callers := s.callers + [Allocated(command)])
    case Send(k) =>
      s.(callers := s.callers[k := Sent],
         requests := s.requests + {Packet(k, RequestFrame(ends, k, s.callers[k].command))})
    case LookUp(k) =>
      s.(callers := s.callers[k := Waiting(Holder(|s.queues|, Sid(k)).GetOr(0))])
    case PickUp(k) =>
      var c := s.callers[k].channel;
      s.(callers := s.callers[k := Received(s.queues[c][0])], queues := s.queues[c := s.queues[c][1..]])
    case GiveUp(k) => s.(callers := s.callers[k := GaveUp])
    case Echo(p, endCode, data, again) =>
      s.(requests := Without(s.requests, p, again),
         responses := s.responses + {Packet(p.tag, ResponseFrame(p.frame, endCode, data))})
    case Deliver(p, again) =>
      s.(queues := Delivered(s.queues, ServiceID(p.frame), p), responses := Without(s.responses, p, again))
    case Lose(p) => s.(requests := s.requests - {p}, responses := s.responses - {p})
  }

  /** The state after a run, if every step of it was enabled. */
  function Exec(ends: Ends, run: seq<Step>): Option<State> {
    if run == [] then Some(INITIAL)
    else
      match Exec(ends, run[..|run| - 1])
      case None => None
      case Some(s) => if Enabled(s, run[|run| - 1]) then Some(Apply(ends, s, run[|run| - 1])) else None
  }

  // ---------- Every run ----------

  ghost predicate IsRequest(ends: Ends, p: Packet) {
    |p.frame| >= 10 && p.frame[..10] == EncodeHeader(ends.CommandHeader(p.tag))
  }

  /** A response to allocation p.tag: its service ID, from its destination back to its source. */
  ghost predicate IsResponse(ends: Ends, p: Packet) {
    |p.frame| >= 14 && DecodeResponse(p.frame).value.header == DefaultResponseHeader(ends.CommandHeader(p.tag))
  }

  ghost predicate Congruent(ends: Ends, n: nat, p: Packet, k: nat) {
    p.tag < n && p.tag % SID_COUNT == k % SID_COUNT && IsResponse(ends, p)
  }

  ghost predicate CallerOk(ends: Ends, n: nat, k: nat, phase: Phase) {
    match phase
    case Waiting(c) => c < n && c % SID_COUNT == k % SID_COUNT
    case Received(p) => Congruent(ends, n, p, k)
    case _ => true
  }

  ghost predicate Inv(ends: Ends, s: State) {
    var n := |s.queues|;
    && |s.callers| == n
    && (forall c :: 0 <= c < n ==> |s.queues[c]| <= 1)
    && (forall c, p :: 0 <= c < n && p in s.queues[c] ==> Congruent(ends, n, p, c))
    && (forall k :: 0 <= k < n ==> CallerOk(ends, n, k, s.callers[k]))
    && (forall p :: p in s.requests ==> p.tag < n && IsRequest(ends, p))
    && (forall p :: p in s.responses ==> p.tag < n && IsResponse(ends, p))
  }

  lemma RequestIsRequest(ends: Ends, k: nat, command: seq<byte>)
    ensures IsRequest(ends, Packet(k, RequestFrame(ends, k, command)))
  {
    assert RequestFrame(ends, k, command)[..10] == EncodeHeader(ends.CommandHeader(k));
  }

  /** The service ID and the addresses make the round trip through both headers. */
  lemma EchoIsResponse(ends: Ends, p: Packet, endCode: uint16, data: seq<byte>)
    requires IsRequest(ends, p) && |p.frame| >= 12
    ensures IsResponse(ends, Packet(p.tag, ResponseFrame(p.frame, endCode, data)))
  {
    HeaderFieldsSurvive(ends.CommandHeader(p.tag));
    ResponseAnswers(p.frame, endCode, data);
  }

  lemma DeliverKeepsInv(ends: Ends, s: State, p: Packet)
    requires Inv(ends, s) && p in s.responses
    ensures var queues := Delivered(s.queues, ServiceID(p.frame), p);
            && (forall c :: 0 <= c < |queues| ==> |queues[c]| <= 1)
            && (forall c, q :: 0 <= c < |queues| && q in queues[c] ==> Congruent(ends, |queues|, q, c))
  {
    HolderIsOwnWhen(|s.queues|, p.tag);
  }

  lemma PickUpKeepsInv(ends: Ends, s: State, k: nat)
    requires Inv(ends, s) && Enabled(s, PickUp(k))
    ensures Inv(ends, Apply(ends, s, PickUp(k)))
  {
    var c := s.callers[k].channel;
    assert s.queues[c][0] in s.queues[c];
  }

  lemma StepKeepsInv(ends: Ends, s: State, step: Step)
    requires Inv(ends, s) && Enabled(s, step)
    ensures Inv(ends, Apply(ends, s, step))
  {
    match step
    case Allocate(_) =>
    case Send(k) => RequestIsRequest(ends, k, s.callers[k].command);
    case LookUp(k) => HolderIsOwnWhen(|s.queues|, k);
    case PickUp(k) => PickUpKeepsInv(ends, s, k);
    case GiveUp(k) =>
    case Echo(p, endCode, data, _) => EchoIsResponse(ends, p, endCode, data);
    case Deliver(p, _) => DeliverKeepsInv(ends, s, p);
    case Lose(p) =>
  }

  lemma {:induction false} RunKeepsInv(ends: Ends, run: seq<Step>)
    requires Exec(ends, run).Some?
    ensures Inv(ends, Exec(ends, run).value)
  {
    if run != [] {
      RunKeepsInv(ends, run[..|run| - 1]);
      StepKeepsInv(ends, Exec(ends, run[..|run| - 1]).value, run[|run| - 1]);
    }
  }

  /** In every run, whatever the network delays, loses, reorders or repeats, the answer a caller receives was
      made for an allocation congruent to its own modulo 256, with its service ID and swapped addresses. */
  lemma AnswersAreCongruent(ends: Ends, run: seq<Step>, k: nat)
    requires Exec(ends, run).Some? && k < |Exec(ends, run).value.callers|
    requires Exec(ends, run).value.callers[k].Received?
    ensures var p := Exec(ends, run).value.callers[k].answer;
            && p.tag % SID_COUNT == k % SID_COUNT
            && |p.frame| >= 14
            && DecodeResponse(p.frame).value.header == DefaultResponseHeader(ends.CommandHeader(k))
  {
    RunKeepsInv(ends, run);
    var s := Exec(ends, run).value;
    assert CallerOk(ends, |s.queues|, k, s.callers[k]);
    CongruentSids(s.callers[k].answer.tag, k);
  }

  lemma CongruentSids(j: nat, k: nat)
    requires j % SID_COUNT == k % SID_COUNT
    ensures Sid(j) == Sid(k)
  {
    var p, q := j / SID_COUNT, k / SID_COUNT;
    MultipleDropped(j % SID_COUNT + 1, SID_COUNT, p);
    MultipleDropped(k % SID_COUNT + 1, SID_COUNT, q);
  }

  // ---------- Runs inside the window ----------

  /** Deliveries and look-ups happen before 256 later allocations. */
  predicate Timely(s: State, step: Step) {
    match step
    case Deliver(p, _) => |s.queues| <= p.tag + SID_COUNT
    case LookUp(k) => |s.queues| <= k + SID_COUNT
    case _ => true
  }

  predicate TimelyRun(ends: Ends, run: seq<Step>)
    requires Exec(ends, run).Some?
  {
    run == [] ||
    (TimelyRun(ends, run[..|run| - 1]) && Timely(Exec(ends, run[..|run| - 1]).value, run[|run| - 1]))
  }

  ghost predicate Exact(s: State) {
    && (forall c, p :: 0 <= c < |s.queues| && p in s.queues[c] ==> p.tag == c)
    && (forall k :: 0 <= k < |s.callers| && s.callers[k].Waiting? ==> s.callers[k].channel == k)
    && (forall k :: 0 <= k < |s.callers| && s.callers[k].Received? ==> s.callers[k].answer.tag == k)
  }

  lemma PickUpKeepsExact(ends: Ends, s: State, k: nat)
    requires Inv(ends, s) && Exact(s) && Enabled(s, PickUp(k))
    ensures Exact(Apply(ends, s, PickUp(k)))
  {
    var c := s.callers[k].channel;
    assert s.queues[c][0] in s.queues[c];
  }

  lemma DeliverKeepsExact(ends: Ends, s: State, p: Packet, again: bool)
    requires Inv(ends, s) && Exact(s) && Enabled(s, Deliver(p, again)) && Timely(s, Deliver(p, again))
    ensures Exact(Apply(ends, s, Deliver(p, again)))
  {
    HolderIsOwnWhen(|s.queues|, p.tag);
  }

  lemma StepKeepsExact(ends: Ends, s: State, step: Step)
    requires Inv(ends, s) && Exact(s) && Enabled(s, step) && Timely(s, step)
    ensures Exact(Apply(ends, s, step))
  {
    match step
    case LookUp(k) => HolderIsOwnWhen(|s.queues|, k);
    case PickUp(k) => PickUpKeepsExact(ends, s, k);
    case Deliver(p, again) => DeliverKeepsExact(ends, s, p, again);
    case _ =>
  }

  lemma {:induction false} TimelyRunIsExact(ends: Ends, run: seq<Step>)
    requires Exec(ends, run).Some? && TimelyRun(ends, run)
    ensures Exact(Exec(ends, run).value)
  {
    if run != [] {
      TimelyRunIsExact(ends, run[..|run| - 1]);
      RunKeepsInv(ends, run[..|run| - 1]);
      StepKeepsExact(ends, Exec(ends, run[..|run| - 1]).value, run[|run| - 1]);
    }
  }

  /** Inside the window a caller receives the answer to its own request, duplicates and losses included. */
  lemma AnswersAreOwn(ends: Ends, run: seq<Step>, k: nat)
    requires Exec(ends, run).Some? && TimelyRun(ends, run) && k < |Exec(ends, run).value.callers|
    requires Exec(ends, run).value.callers[k].Received?
    ensures Exec(ends, run).value.callers[k].answer.tag == k
  {
    TimelyRunIsExact(ends, run);
  }

  // ---------- No duplicates ----------

  predicate Once(step: Step) {
    match step
    case Echo(_, _, _, again) => !again
    case Deliver(_, again) => !again
    case _ => true
  }

  ghost predicate OnceRun(run: seq<Step>) { forall i :: 0 <= i < |run| ==> Once(run[i]) }

  /** At most one message is under way for each allocation; while it is, its channel is empty. */
  ghost predicate Single(s: State) {
    && |s.callers| == |s.queues|
    && s.requests !! s.responses
    && (forall p, q :: p in s.requests + s.responses && q in s.requests + s.responses && p.tag == q.tag ==> p == q)
    && (forall p :: p in s.requests + s.responses ==>
          p.tag < |s.queues| && s.queues[p.tag] == [] && !s.callers[p.tag].Allocated?)
    && (forall k :: 0 <= k < |s.callers| && s.callers[k].Allocated? ==> s.queues[k] == [])
  }

  lemma SendKeepsSingle(ends: Ends, s: State, k: nat)
    requires Inv(ends, s) && Single(s) && Enabled(s, Send(k))
    ensures Single(Apply(ends, s, Send(k)))
  {
    var sent := Packet(k, RequestFrame(ends, k, s.callers[k].command));
    assert forall p :: p in s.requests + s.responses ==> p.tag != k;
  }

  lemma EchoKeepsSingle(ends: Ends, s: State, p: Packet, endCode: uint16, data: seq<byte>)
    requires Inv(ends, s) && Single(s) && Enabled(s, Echo(p, endCode, data, false))
    ensures Single(Apply(ends, s, Echo(p, endCode, data, false)))
  {
    var answer := Packet(p.tag, ResponseFrame(p.frame, endCode, data));
    assert forall q :: q in s.requests + s.responses && q.tag == p.tag ==> q == p;
    assert answer !in s.requests - {p};
  }

  lemma DeliverKeepsSingle(ends: Ends, s: State, p: Packet)
    requires Inv(ends, s) && Single(s) && Enabled(s, Deliver(p, false)) && Timely(s, Deliver(p, false))
    ensures Single(Apply(ends, s, Deliver(p, false)))
  {
    HolderIsOwnWhen(|s.queues|, p.tag);
    assert forall q :: q in s.requests + s.responses && q.tag == p.tag ==> q == p;
  }

  lemma PickUpKeepsSingle(ends: Ends, s: State, k: nat)
    requires Inv(ends, s) && Exact(s) && Single(s) && Enabled(s, PickUp(k))
    ensures Single(Apply(ends, s, PickUp(k)))
  {
  }

  lemma StepKeepsSingle(ends: Ends, s: State, step: Step)
    requires Inv(ends, s) && Exact(s) && Single(s) && Enabled(s, step) && Timely(s, step) && Once(step)
    ensures Single(Apply(ends, s, step))
  {
    match step
    case Send(k) => SendKeepsSingle(ends, s, k);
    case Echo(p, endCode, data, _) => EchoKeepsSingle(ends, s, p, endCode, data);
    case Deliver(p, _) => DeliverKeepsSingle(ends, s, p);
    case PickUp(k) => PickUpKeepsSingle(ends, s, k);
    case _ =>
  }

  lemma {:induction false} OnceRunIsSingle(ends: Ends, run: seq<Step>)
    requires Exec(ends, run).Some? && TimelyRun(ends, run) && OnceRun(run)
    ensures Single(Exec(ends, run).value)
  {
    if run != [] {
      var before := run[..|run| - 1];
      OnceRunIsSingle(ends, before);
      RunKeepsInv(ends, before);
      TimelyRunIsExact(ends, before);
      StepKeepsSingle(ends, Exec(ends, before).value, run[|run| - 1]);
    }
  }

  /** Without duplicates and inside the window, delivery always finds an allocated, empty slot: the response
      lands in its own caller's channel and the drop branches are never taken. */
  lemma DeliveryNeverDrops(ends: Ends, run: seq<Step>, p: Packet)
    requires Exec(ends, run).Some? && TimelyRun(ends, run) && OnceRun(run)
    requires var s := Exec(ends, run).value; Enabled(s, Deliver(p, false)) && Timely(s, Deliver(p, false))
    ensures var s := Exec(ends, run).value;
            && Holder(|s.queues|, ServiceID(p.frame)) == Some(p.tag)
            && s.queues[p.tag] == []
            && Apply(ends, s, Deliver(p, false)).queues == s.queues[p.tag := [p]]
  {
    RunKeepsInv(ends, run);
    OnceRunIsSingle(ends, run);
    HolderIsOwnWhen(|Exec(ends, run).value.queues|, p.tag);
  }

  // ---------- The window is tight ----------

  function Repeat(step: Step, n: nat): seq<Step> { seq(n, _ => step) }

  lemma {:induction false} AllocateMany(ends: Ends, run: seq<Step>, n: nat)
    requires Exec(ends, run).Some?
    ensures var s := Exec(ends, run).value;
            Exec(ends, run + Repeat(Allocate([]), n))
            == Some(s.(queues := s.queues + seq(n, _ => []), callers := s.callers + seq(n, _ => Allocated([]))))
  {
    var s := Exec(ends, run).value;
    if n == 0 {
      assert run + Repeat(Allocate([]), 0) == run;
      assert s.queues + seq(0, _ => []) == s.queues && s.callers + seq(0, _ => Allocated([])) == s.callers;
    } else {
      AllocateMany(ends, run, n - 1);
      var longer := run + Repeat(Allocate([]), n);
      assert longer[..|longer| - 1] == run + Repeat(Allocate([]), n - 1);
      assert s.queues + seq(n - 1, _ => []) + [[]] == s.queues + seq(n, _ => []);
      assert s.callers + seq(n - 1, _ => Allocated([])) + [Allocated([])] == s.callers + seq(n, _ => Allocated([]));
    }
  }

  lemma Extend(ends: Ends, run: seq<Step>, step: Step)
    ensures Exec(ends, run + [step])
         == match Exec(ends, run)
            case None => None
            case Some(s) => if Enabled(s, step) then Some(Apply(ends, s, step)) else None
  {
    assert (run + [step])[..|run|] == run;
  }

  /** Caller 0 sends and is answered, but its answer is still on the way. */
  function StrayStart(ends: Ends, command: seq<byte>): seq<Step> {
    [Allocate(command), Send(0), Echo(Packet(0, RequestFrame(ends, 0, command)), 0, [], false)]
  }

  function StrayAnswer(ends: Ends, command: seq<byte>): Packet
    requires |command| >= 2
  {
    Packet(0, ResponseFrame(RequestFrame(ends, 0, command), 0, []))
  }

  /** 256 more allocations; the last of them sends and looks up its channel. */
  function StrayBefore(ends: Ends, command: seq<byte>): seq<Step> {
    StrayStart(ends, command) + Repeat(Allocate([]), 256) + [Send(256)] + [LookUp(256)]
  }

  /** Then the answer arrives and caller 256 picks it up. */
  function StrayRun(ends: Ends, command: seq<byte>): seq<Step>
    requires |command| >= 2
  {
    StrayBefore(ends, command) + [Deliver(StrayAnswer(ends, command), false)] + [PickUp(256)]
  }

  lemma TimelyExtend(ends: Ends, run: seq<Step>, step: Step)
    requires Exec(ends, run).Some? && TimelyRun(ends, run)
    requires Enabled(Exec(ends, run).value, step) && Timely(Exec(ends, run).value, step)
    ensures Exec(ends, run + [step]).Some? && TimelyRun(ends, run + [step])
  {
    Extend(ends, run, step);
    assert (run + [step])[..|run|] == run;
  }

  lemma {:induction false} TimelyAllocations(ends: Ends, run: seq<Step>, n: nat)
    requires Exec(ends, run).Some? && TimelyRun(ends, run)
    ensures Exec(ends, run + Repeat(Allocate([]), n)).Some? && TimelyRun(ends, run + Repeat(Allocate([]), n))
  {
    if n == 0 {
      assert run + Repeat(Allocate([]), 0) == run;
    } else {
      TimelyAllocations(ends, run, n - 1);
      TimelyExtend(ends, run + Repeat(Allocate([]), n - 1), Allocate([]));
      assert run + Repeat(Allocate([]), n) == run + Repeat(Allocate([]), n - 1) + [Allocate([])];
    }
  }

  lemma StrayBegins(ends: Ends, command: seq<byte>)
    requires |command| >= 2
    ensures Exec(ends, StrayStart(ends, command)).Some? && TimelyRun(ends, StrayStart(ends, command))
    ensures var s := Exec(ends, StrayStart(ends, command)).value;
            |s.queues| == 1 && s.callers == [Sent] && StrayAnswer(ends, command) in s.responses
  {
    var start := StrayStart(ends, command);
    var none: seq<Step> := [];
    assert none + [start[0]] == start[..1] && start[..1] + [start[1]] == start[..2] && start[..2] + [start[2]] == start;
    Extend(ends, none, start[0]);
    TimelyExtend(ends, none, start[0]);
    Extend(ends, start[..1], start[1]);
    TimelyExtend(ends, start[..1], start[1]);
    Extend(ends, start[..2], start[2]);
    TimelyExtend(ends, start[..2], start[2]);
  }

  /** Caller 256 sends and looks up its channel in time. */
  lemma StrayLooksUp(ends: Ends, run: seq<Step>, late: Packet)
    requires Exec(ends, run).Some? && TimelyRun(ends, run)
    requires var s := Exec(ends, run).value;
             |s.queues| == |s.callers| == 257 && s.queues[256] == [] && s.callers[256] == Allocated([])
                 && late in s.responses
    ensures var before := run + [Send(256)] + [LookUp(256)];
            && Exec(ends, before).Some? && TimelyRun(ends, before)
            && var s := Exec(ends, before).value;
               |s.queues| == |s.callers| == 257 && s.queues[256] == [] && s.callers[256] == Waiting(256)
                   && late in s.responses
  {
    HolderIsOwnWhen(257, 256);
    Extend(ends, run, Send(256));
    TimelyExtend(ends, run, Send(256));
    Extend(ends, run + [Send(256)], LookUp(256));
    TimelyExtend(ends, run + [Send(256)], LookUp(256));
  }

  /** With 257 allocations made, an answer with the service ID that 0 and 256 share goes to caller 256. */
  lemma StrayEnds(ends: Ends, before: seq<Step>, late: Packet)
    requires Exec(ends, before).Some?
    requires var s := Exec(ends, before).value;
             |s.queues| == |s.callers| == 257 && s.queues[256] == [] && s.callers[256] == Waiting(256)
                 && late in s.responses
    requires |late.frame| >= 14 && ServiceID(late.frame) == Sid(0)
    ensures var r := Exec(ends, before + [Deliver(late, false)] + [PickUp(256)]);
            r.Some? && |r.value.callers| == 257 && r.value.callers[256] == Received(late)
  {
    HolderIsOwnWhen(257, 256);
    Extend(ends, before, Deliver(late, false));
    Extend(ends, before + [Deliver(late, false)], PickUp(256));
  }

  lemma StrayOnce(ends: Ends, command: seq<byte>)
    requires |command| >= 2
    ensures OnceRun(StrayRun(ends, command))
  {
    var start, allocations := StrayStart(ends, command), Repeat(Allocate([]), 256);
    var run := StrayRun(ends, command);
    forall i | 0 <= i < |run| ensures Once(run[i]) {
      if 3 <= i < 259 {
        assert run[i] == allocations[i - 3];
      }
    }
  }

  /** The window is tight. In this run nothing is repeated and everything up to the one delivery is timely; the
      answer to request 0 is delivered with 257 allocations made, where the window allows 256, and goes to
      caller 256, who shares its service ID. */
  lemma LateAnswerGoesAstray(ends: Ends, command: seq<byte>)
    requires |command| >= 2
    ensures var before, late := StrayBefore(ends, command), StrayAnswer(ends, command);
            && StrayRun(ends, command) == before + [Deliver(late, false)] + [PickUp(256)]
            && OnceRun(StrayRun(ends, command))
            && Exec(ends, before).Some? && TimelyRun(ends, before)
            && late.tag == 0 && |Exec(ends, before).value.queues| == late.tag + SID_COUNT + 1
            && var r := Exec(ends, StrayRun(ends, command));
               r.Some? && |r.value.callers| == 257 && r.value.callers[256] == Received(late)
  {
    var start, late := StrayStart(ends, command), StrayAnswer(ends, command);
    var filled := start + Repeat(Allocate([]), 256);
    StrayBegins(ends, command);
    AllocateMany(ends, start, 256);
    TimelyAllocations(ends, start, 256);
    RunKeepsInv(ends, start);
    StrayLooksUp(ends, filled, late);
    StrayEnds(ends, StrayBefore(ends, command), late);
    StrayOnce(ends, command);
  }
}
