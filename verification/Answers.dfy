/** What the messages of the multiplexed protocol say (client.go:861-906, 976-989): requests carry the commands given
    by their callers, and the answers a caller receives carry what the server answered to them. */
module Answers {
  import opened Bytes
  import opened Driver
  import opened Multiplexer

  /** The commands given in a run, in order of allocation. */
  function Commands(run: seq<Step>): seq<seq<byte>> {
    if run == [] then [] else WithCommand(Commands(run[..|run| - 1]), run[|run| - 1])
  }

  function WithCommand(commands: seq<seq<byte>>, step: Step): seq<seq<byte>> {
    if step.Allocate? then commands + [step.command] else commands
  }

  /** An answer the server made to the request of an allocation. */
  datatype Echoed = Echoed(tag: nat, endCode: uint16, data: seq<byte>)

  /** The answers made in a run. */
  function Echoes(run: seq<Step>): set<Echoed> {
    if run == [] then {} else WithEcho(Echoes(run[..|run| - 1]), run[|run| - 1])
  }

  function WithEcho(echoes: set<Echoed>, step: Step): set<Echoed> {
    if step.Echo? then echoes + {Echoed(step.p.tag, step.endCode, step.data)} else echoes
  }

  /** A request frame: the header of its allocation, then the command given for it, byte for byte. */
  predicate CarriesCommand(ends: Ends, commands: seq<seq<byte>>, p: Packet) {
    && p.tag < |commands| && |p.frame| >= 10
    && p.frame[..10] == EncodeHeader(ends.CommandHeader(p.tag))
    && p.frame[10..] == commands[p.tag]
  }

  /** A response frame: the code its command starts with, and the end code and data of an answer made to it. */
  predicate CarriesAnswer(commands: seq<seq<byte>>, echoes: set<Echoed>, p: Packet) {
    && p.tag < |commands| && |commands[p.tag]| >= 2 && |p.frame| >= 14
    && var r := DecodeResponse(p.frame).value;
       && r.commandCode == 0x100 * (commands[p.tag][0] as int) + commands[p.tag][1]
       && Echoed(p.tag, r.endCode, r.data) in echoes
  }

  ghost predicate Contents(ends: Ends, commands: seq<seq<byte>>, echoes: set<Echoed>, s: State) {
    && |s.queues| == |s.callers| == |commands|
    && (forall k :: 0 <= k < |s.callers| && s.callers[k].Allocated? ==> s.callers[k].command == commands[k])
    && (forall p :: p in s.requests ==> CarriesCommand(ends, commands, p))
    && (forall p :: p in s.responses ==> CarriesAnswer(commands, echoes, p))
    && (forall c, p :: 0 <= c < |s.queues| && p in s.queues[c] ==> CarriesAnswer(commands, echoes, p))
    && (forall k :: 0 <= k < |s.callers| && s.callers[k].Received? ==>
          CarriesAnswer(commands, echoes, s.callers[k].answer))
  }

  /** More commands and more answers take nothing away. */
  lemma ContentsStill(ends: Ends, commands: seq<seq<byte>>, echoes: set<Echoed>, s: State, step: Step)
    requires Contents(ends, commands, echoes, s)
    ensures forall p :: p in s.requests ==> CarriesCommand(ends, WithCommand(commands, step), p)
    ensures forall p :: CarriesAnswer(commands, echoes, p) ==>
              CarriesAnswer(WithCommand(commands, step), WithEcho(echoes, step), p)
  {
  }

  lemma SentCarriesCommand(ends: Ends, commands: seq<seq<byte>>, k: nat)
    requires k < |commands|
    ensures CarriesCommand(ends, commands, Packet(k, RequestFrame(ends, k, commands[k])))
  {
    var frame := RequestFrame(ends, k, commands[k]);
    assert frame[..10] == EncodeHeader(ends.CommandHeader(k)) && frame[10..] == commands[k];
  }

  lemma EchoCarriesAnswer(ends: Ends, commands: seq<seq<byte>>, echoes: set<Echoed>, p: Packet, endCode: uint16,
        data: seq<byte>)
    requires CarriesCommand(ends, commands, p) && |p.frame| >= 12 && Echoed(p.tag, endCode, data) in echoes
    ensures CarriesAnswer(commands, echoes, Packet(p.tag, ResponseFrame(p.frame, endCode, data)))
  {
    ResponseAnswers(p.frame, endCode, data);
    assert p.frame[10] == p.frame[10..][0] && p.frame[11] == p.frame[10..][1];
    assert p.frame[10..12] == [p.frame[10], p.frame[11]];
  }

  lemma DeliverKeepsContents(ends: Ends, commands: seq<seq<byte>>, echoes: set<Echoed>, s: State, p: Packet)
    requires Contents(ends, commands, echoes, s) && p in s.responses && |p.frame| >= 14
    ensures var queues := Delivered(s.queues, ServiceID(p.frame), p);
            forall c, q :: 0 <= c < |queues| && q in queues[c] ==> CarriesAnswer(commands, echoes, q)
  {
  }

  lemma PickUpKeepsContents(ends: Ends, commands: seq<seq<byte>>, echoes: set<Echoed>, s: State, k: nat)
    requires Contents(ends, commands, echoes, s) && Enabled(s, PickUp(k))
    ensures Contents(ends, commands, echoes, Apply(ends, s, PickUp(k)))
  {
    var c := s.callers[k].channel;
    assert s.queues[c][0] in s.queues[c];
  }

  lemma StepKeepsContents(ends: Ends, commands: seq<seq<byte>>, echoes: set<Echoed>, s: State, step: Step)
    requires Contents(ends, commands, echoes, s) && Enabled(s, step)
    ensures Contents(ends, WithCommand(commands, step), WithEcho(echoes, step), Apply(ends, s, step))
  {
    ContentsStill(ends, commands, echoes, s, step);
    match step
    case Allocate(_) =>
    case Send(k) => SentCarriesCommand(ends, commands, k);
    case LookUp(k) =>
    case PickUp(k) => PickUpKeepsContents(ends, commands, echoes, s, k);
    case GiveUp(k) =>
    case Echo(p, endCode, data, _) => EchoCarriesAnswer(ends, commands, WithEcho(echoes, step), p, endCode, data);
    case Deliver(p, _) => DeliverKeepsContents(ends, commands, echoes, s, p);
    case Lose(p) =>
  }

  lemma {:induction false} RunKeepsContents(ends: Ends, run: seq<Step>)
    requires Exec(ends, run).Some?
    ensures Contents(ends, Commands(run), Echoes(run), Exec(ends, run).value)
  {
    if run != [] {
      var before := run[..|run| - 1];
      RunKeepsContents(ends, before);
      StepKeepsContents(ends, Commands(before), Echoes(before), Exec(ends, before).value, run[|run| - 1]);
    }
  }

  /** In every run each request under way is its allocation's header followed by its caller's own command. */
  lemma RequestsCarryCommands(ends: Ends, run: seq<Step>, p: Packet)
    requires Exec(ends, run).Some? && p in Exec(ends, run).value.requests
    ensures CarriesCommand(ends, Commands(run), p)
  {
    RunKeepsContents(ends, run);
  }

  /** In every run each answer received is one the server made, to the request it is an answer to. */
  lemma AnswersCarryEchoes(ends: Ends, run: seq<Step>, k: nat)
    requires Exec(ends, run).Some? && k < |Exec(ends, run).value.callers|
    requires Exec(ends, run).value.callers[k].Received?
    ensures CarriesAnswer(Commands(run), Echoes(run), Exec(ends, run).value.callers[k].answer)
  {
    RunKeepsContents(ends, run);
  }

  /** Inside the window the answer caller k receives decodes to its own service ID and swapped addresses, the code
      its own command starts with, and the end code and data of an answer the server made to that command. */
  lemma CallersGetTheirAnswers(ends: Ends, run: seq<Step>, k: nat)
    requires Exec(ends, run).Some? && TimelyRun(ends, run) && k < |Exec(ends, run).value.callers|
    requires Exec(ends, run).value.callers[k].Received?
    ensures var frame := Exec(ends, run).value.callers[k].answer.frame;
            && k < |Commands(run)| && |Commands(run)[k]| >= 2 && |frame| >= 14
            && var r := DecodeResponse(frame).value;
               && r.header == DefaultResponseHeader(ends.CommandHeader(k))
               && r.commandCode == 0x100 * (Commands(run)[k][0] as int) + Commands(run)[k][1]
               && Echoed(k, r.endCode, r.data) in Echoes(run)
  {
    AnswersAreOwn(ends, run, k);
    AnswersAreCongruent(ends, run, k);
    AnswersCarryEchoes(ends, run, k);
  }

  // ---------- One-slot channels ----------

  /** A delivery changes at most one channel, an empty one, the latest of its service ID, and puts the response in
      it; a channel that holds a response keeps it. */
  lemma DeliveryFillsOneEmptySlot(queues: Queues, sid: byte, p: Packet, c: nat)
    requires c < |queues|
    ensures Delivered(queues, sid, p)[c] == queues[c]
         || (queues[c] == [] && Delivered(queues, sid, p)[c] == [p] && Sid(c) == sid && |queues| <= c + SID_COUNT)
    ensures queues[c] != [] ==> Delivered(queues, sid, p)[c] == queues[c]
    ensures queues[c] == [] && Sid(c) == sid && |queues| <= c + SID_COUNT ==> Delivered(queues, sid, p)[c] == [p]
  {
    HolderIsLatest(|queues|, sid);
    HolderIsOwnWhen(|queues|, c);
  }

  /** Picking up takes the one response of the caller's channel and leaves it empty. */
  lemma PickUpEmptiesSlot(ends: Ends, run: seq<Step>, k: nat)
    requires Exec(ends, run).Some? && Enabled(Exec(ends, run).value, PickUp(k))
    ensures var s := Exec(ends, run).value;
            var s', c := Apply(ends, s, PickUp(k)), s.callers[k].channel;
            s'.callers[k].Received? && s.queues[c] == [s'.callers[k].answer] && s'.queues == s.queues[c := []]
  {
    RunKeepsInv(ends, run);
    var s := Exec(ends, run).value;
    var c := s.callers[k].channel;
    assert |s.queues[c]| == 1;
    assert s.queues[c] == [s.queues[c][0]] && s.queues[c][1..] == [];
  }
}
