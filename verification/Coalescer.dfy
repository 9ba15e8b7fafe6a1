/** The bulk read coalescer (plugin_coalescer.go:103-343): a state machine that merges word reads into one
    covering read and slices the answer back, with its uint16 and uint32 arithmetic. */
module Coalescer {
  import opened Bytes

  /** A queued read; the identity stands for the request object and its one-slot reply channel. */
  datatype Request = Request(id: nat, area: byte, address: uint16, count: uint16)
  {
    /** address + count in uint16. */
    function End(): uint16 { U16(address as int + count) }

    /** The range goes past address 65535, or ends exactly at it. */
    predicate Wraps() { address as int + count >= 0x1_0000 }
  }

  datatype Reply = Data(words: seq<uint16>) | Cancelled | BackendError | TooShort

  /** A word memory; addresses past the end continue at 0. */
  type WordMemory = (byte, uint16) -> uint16

  /** How a backend read goes: an error, all the words asked for, or some other number of them. */
  datatype Outcome = Failed | Full | Partial(n: nat)

  /** What a flush meets: the requests already cancelled, the memory, and the outcome of its read. */
  datatype Backend = Backend(cancelled: set<nat>, memory: WordMemory, outcome: Outcome)
  {
    function Read(area: byte, address: uint16, count: uint16): Option<seq<uint16>> {
      match outcome
      case Failed => None
      case Full => Some(Words(memory, area, address, count))
      case Partial(n) => Some(Words(memory, area, address, n))
    }
  }

  function Words(memory: WordMemory, area: byte, address: uint16, count: nat): (ws: seq<uint16>)
    ensures |ws| == count
  {
    seq<uint16>(count, i requires 0 <= i < count => memory(area, U16(address as int + i)))
  }

  /** Reading a request's own range. */
  function DirectRead(memory: WordMemory, r: Request): seq<uint16> {
    Words(memory, r.area, r.address, r.count)
  }

  /** maxSpan is at least 1 and maxBatch 0 means no limit (lines 46-77). */
  datatype Config = Config(maxSpan: uint16, maxBatch: nat)
  {
    /** The admission test of the interceptor; other reads bypass the queue. */
    predicate Admits(r: Request) { 0 < r.count <= maxSpan }
  }

  /** A reply sent, the number of the event during which it was sent, how many requests the batch held, and where
      the combined read started that the reply was cut from, if there was one. */
  datatype Sent = Sent(request: Request, reply: Reply, at: nat, batchSize: nat, base: Option<uint16>)

  /** A backend read, the batch it was issued for, and the number of the event. */
  datatype Issued = Issued(area: byte, address: uint16, span: uint16, batch: seq<Request>, at: nat)

  // ---------- Flushing ----------

  function Active(batch: seq<Request>, cancelled: set<nat>): seq<Request> {
    if batch == [] then []
    else
      var rest := Active(batch[..|batch| - 1], cancelled);
      var last := batch[|batch| - 1];
      if last.id in cancelled then rest else rest + [last]
  }

  /** The replies of the first loop, to the requests found cancelled. */
  function CancelReplies(batch: seq<Request>, cancelled: set<nat>, at: nat, size: nat): seq<Sent> {
    if batch == [] then []
    else
      var rest := CancelReplies(batch[..|batch| - 1], cancelled, at, size);
      var last := batch[|batch| - 1];
      if last.id in cancelled then rest + [Sent(last, Cancelled, at, size, None)] else rest
  }

  /** The slice of a combined read that belongs to one request. */
  function SliceFor(r: Request, minAddr: uint16, data: Option<seq<uint16>>): Reply {
    if data.None? then BackendError
    else
      var start := U16(r.address as int - minAddr);
      var end: int := start as int + r.count;
      if end > |data.value| then TooShort else Data(data.value[start..end])
  }

  /** The replies of the second loop. */
  function SliceReplies(active: seq<Request>, minAddr: uint16, data: Option<seq<uint16>>, at: nat,
        size: nat): seq<Sent> {
    seq(|active|, i requires 0 <= i < |active| =>
      Sent(active[i], SliceFor(active[i], minAddr, data), at, size, Some(minAddr)))
  }

  datatype Flushed = Flushed(sent: seq<Sent>, issued: seq<Issued>)

  function Flush(batch: seq<Request>, minAddr: uint16, maxEnd: uint16, env: Backend, at: nat): Flushed {
    var cancels := CancelReplies(batch, env.cancelled, at, |batch|);
    var active := Active(batch, env.cancelled);
    if active == [] then Flushed(cancels, [])
    else
      var span := U16(maxEnd as int - minAddr);
      var data := env.Read(active[0].area, minAddr, span);
      Flushed(cancels + SliceReplies(active, minAddr, data, at, |batch|),
          [Issued(active[0].area, minAddr, span, batch, at)])
  }

  // ---------- The event loop ----------

  /** What select picks: Stop, the timer, a nil from the queue, or a request (cancelled already or not). */
  datatype Event =
    | Stop
    | Timer(env: Backend)
    | NilRequest
    | Arrival(request: Request, cancelled: bool, env: Backend)

  /** Idle is run() waiting for a first request; Batching is processBatch. */
  datatype Phase =
    | Idle
    | Batching(batch: seq<Request>, minAddr: uint16, maxEnd: uint16)
    | Stopped(abandoned: seq<Request>)

  /** The state, everything sent and issued so far, and the requests taken from the queue. */
  datatype Machine = Machine(phase: Phase, sent: seq<Sent>, issued: seq<Issued>, taken: seq<Request>, now: nat)

  const INITIAL: Machine := Machine(Idle, [], [], [], 0)

  function Min(a: uint16, b: uint16): uint16 { if a < b then a else b }
  function Max(a: uint16, b: uint16): uint16 { if a > b then a else b }

  /** The span of the merged range, subtracted in uint32. */
  function CombinedSpan(newMin: uint16, newMax: uint16): uint32 { (newMax as int - newMin) % 0x1_0000_0000 }

  function Single(r: Request): Phase { Batching([r], r.address, r.End()) }

  /** A flush of the batch, leaving the given phase. */
  function Flushing(m: Machine, batch: seq<Request>, minAddr: uint16, maxEnd: uint16, env: Backend,
        next: Phase): Machine {
    var f := Flush(batch, minAddr, maxEnd, env, m.now);
    m.(phase := next, sent := m.sent + f.sent, issued := m.issued + f.issued)
  }

  /** An arrival while a batch is open. */
  function Joining(cfg: Config, m: Machine, r: Request, cancelled: bool, env: Backend): Machine
    requires m.phase.Batching? && m.phase.batch != []
  {
    var Batching(batch, minAddr, maxEnd) := m.phase;
    if cancelled then m.(sent := m.sent + [Sent(r, Cancelled, m.now, 1, None)])
    else if cfg.maxBatch > 0 && |batch| >= cfg.maxBatch then Flushing(m, batch, minAddr, maxEnd, env, Single(r))
    else
      var newMin, newMax := Min(minAddr, r.address), Max(maxEnd, r.End());
      var combined := CombinedSpan(newMin, newMax);
      if r.area == batch[0].area && combined <= cfg.maxSpan then
        if U16(combined) >= cfg.maxSpan then Flushing(m, batch + [r], newMin, newMax, env, Idle)
        else m.(phase := Batching(batch + [r], newMin, newMax))
      else Flushing(m, batch, minAddr, maxEnd, env, Single(r))
  }

  function Step(cfg: Config, m: Machine, e: Event): Machine
    requires m.phase.Batching? ==> m.phase.batch != []
  {
    var after :=
      match m.phase
      case Stopped(_) => m
      case Idle =>
        (match e
         case Stop => m.(phase := Stopped([]))
         case Arrival(r, _, _) => m.(phase := Single(r), taken := m.taken + [r])
         case _ => m)
      case Batching(batch, minAddr, maxEnd) =>
        (match e
         case Stop => m.(phase := Stopped(batch))
         case Timer(env) => Flushing(m, batch, minAddr, maxEnd, env, Idle)
         case NilRequest => m
         case Arrival(r, cancelled, env) => Joining(cfg, m.(taken := m.taken + [r]), r, cancelled, env));
    after.(now := m.now + 1)
  }

  function Exec(cfg: Config, es: seq<Event>): (m: Machine)
    ensures m.phase.Batching? ==> m.phase.batch != []
    ensures m.now == |es|
  {
    if es == [] then INITIAL else Step(cfg, Exec(cfg, es[..|es| - 1]), es[|es| - 1])
  }

  lemma StepAt(cfg: Config, es: seq<Event>, at: nat)
    requires at < |es|
    ensures Exec(cfg, es[..at + 1]) == Step(cfg, Exec(cfg, es[..at]), es[at])
  {
    assert es[..at + 1][..at] == es[..at];
  }

  // ---------- The goroutine ----------

  class BulkReadCoalescer {
    const cfg: Config
    var sent: seq<Sent>
    ghost var issued: seq<Issued>

    constructor (cfg: Config)
      ensures this.cfg == cfg && sent == [] && issued == []
    {
      this.cfg := cfg;
      sent, issued := [], [];
    }

    /** The first loop of flushBatch: cancelled requests are answered, the others moved to the front of the
        array, in place: active and batch share it. Returns how many are active. */
    method FilterBatch(batch: array<Request>, cancelled: set<nat>, at: nat) returns (active: nat)
      modifies this`sent, batch
      ensures active <= batch.Length && batch[..active] == Active(old(batch[..]), cancelled)
      ensures sent == old(sent) + CancelReplies(old(batch[..]), cancelled, at, batch.Length)
    {
      ghost var whole := batch[..];
      active := 0;
      for i := 0 to batch.Length
        invariant 0 <= active <= i
        invariant batch[..active] == Active(whole[..i], cancelled)
        invariant batch[i..] == whole[i..]
        invariant sent == old(sent) + CancelReplies(whole[..i], cancelled, at, |whole|)
      {
        var req := batch[i];
        assert req == batch[i..][0] == whole[i];
        assert batch[i + 1..] == batch[i..][1..];
        assert whole[..i + 1][..i] == whole[..i];
        ghost var kept := batch[..active];
        if req.id in cancelled {
          sent := sent + [Sent(req, Cancelled, at, batch.Length, None)];
        } else {
          batch[active] := req;
          active := active + 1;
          assert batch[..active] == kept + [req];
        }
      }
      assert whole[..batch.Length] == whole;
    }

    /** flushBatch */
    method FlushBatch(batch: array<Request>, minAddr: uint16, maxEnd: uint16, env: Backend, at: nat)
      modifies this, batch
      ensures var f := Flush(old(batch[..]), minAddr, maxEnd, env, at);
              sent == old(sent) + f.sent && issued == old(issued) + f.issued
    {
      ghost var whole := batch[..];
      var active := FilterBatch(batch, env.cancelled, at);
      if active == 0 {
        return;
      }
      var span := U16(maxEnd as int - minAddr);
      var area := batch[0].area;
      var data := env.Read(area, minAddr, span);
      issued := issued + [Issued(area, minAddr, span, whole, at)];
      SendSlices(batch, active, minAddr, data, at);
    }

    /** The reply loop of flushBatch. */
    method SendSlices(batch: array<Request>, active: nat, minAddr: uint16, data: Option<seq<uint16>>, at: nat)
      requires active <= batch.Length
      modifies this`sent
      ensures sent == old(sent) + SliceReplies(batch[..active], minAddr, data, at, batch.Length)
    {
      for i := 0 to active
        invariant sent == old(sent) + SliceReplies(batch[..i], minAddr, data, at, batch.Length)
      {
        var req := batch[i];
        var reply: Reply;
        if data.None? {
          reply := BackendError;
        } else {
          var start := U16(req.address as int - minAddr);
          var end: int := start as int + req.count;
          if end > |data.value| {
            reply := TooShort;
          } else {
            var slice := new uint16[req.count](k requires 0 <= k < req.count => data.value[start..end][k]);
            assert slice[..] == data.value[start..end];
            reply := Data(slice[..]);
          }
        }
        sent := sent + [Sent(req, reply, at, batch.Length, Some(minAddr))];
      }
    }

    /** append(batch, req) */
    method Append(batch: array<Request>, req: Request) returns (longer: array<Request>)
      ensures fresh(longer) && longer[..] == batch[..] + [req]
    {
      longer := new Request[batch.Length + 1](i requires 0 <= i <= batch.Length reads batch =>
                                              if i < batch.Length then batch[i] else req);
    }

    static method NewBatch(req: Request) returns (batch: array<Request>)
      ensures fresh(batch) && batch[..] == [req]
    {
      batch := new Request[1](_ => req);
    }

    ghost predicate Tracks(m: Machine) reads this { sent == m.sent && issued == m.issued }

    /** The third case of processBatch: a request arrives; done if it filled the span and everything was flushed. */
    method Join(batch: array<Request>, minAddr: uint16, maxEnd: uint16, req: Request, cancelled: bool, env: Backend,
          at: nat, ghost m: Machine)
      returns (done: bool, batch': array<Request>, minAddr': uint16, maxEnd': uint16)
      requires batch.Length > 0 && Tracks(m) && m.now == at && m.phase == Batching(batch[..], minAddr, maxEnd)
      modifies this, batch
      ensures Tracks(Joining(cfg, m, req, cancelled, env))
      ensures Joining(cfg, m, req, cancelled, env).phase ==
                if done then Idle else Batching(batch'[..], minAddr', maxEnd')
      ensures batch' == batch || fresh(batch')
    {
      if cancelled {
        sent := sent + [Sent(req, Cancelled, at, 1, None)];
        return false, batch, minAddr, maxEnd;
      }
      if cfg.maxBatch > 0 && batch.Length >= cfg.maxBatch {
        FlushBatch(batch, minAddr, maxEnd, env, at);
        var next := NewBatch(req);
        return false, next, req.address, req.End();
      }
      var newMin, newMax := Min(minAddr, req.address), Max(maxEnd, req.End());
      var combined := CombinedSpan(newMin, newMax);
      if req.area == batch[0].area && combined <= cfg.maxSpan {
        var longer := Append(batch, req);
        if U16(combined) >= cfg.maxSpan {
          FlushBatch(longer, newMin, newMax, env, at);
          return true, longer, newMin, newMax;
        }
        return false, longer, newMin, newMax;
      }
      FlushBatch(batch, minAddr, maxEnd, env, at);
      var next := NewBatch(req);
      return false, next, req.address, req.End();
    }

    /** processBatch: from the event after the first request until it returns or the events run out. */
    method ProcessBatch(first: Request, es: seq<Event>, start: nat) returns (next: nat, phase: Phase)
      requires start <= |es| && Tracks(Exec(cfg, es[..start])) && Exec(cfg, es[..start]).phase == Single(first)
      modifies this
      ensures start <= next <= |es| && Tracks(Exec(cfg, es[..next])) && Exec(cfg, es[..next]).phase == phase
      ensures phase.Batching? ==> next == |es|
    {
      var batch := NewBatch(first);
      var minAddr, maxEnd := first.address, first.End();
      next := start;
      ghost var m := Exec(cfg, es[..start]);
      while next < |es|
        invariant start <= next <= |es| && fresh(batch)
        invariant m == Exec(cfg, es[..next]) && Tracks(m) && m.now == next
        invariant batch.Length > 0 && m.phase == Batching(batch[..], minAddr, maxEnd)
      {
        var at, e := next, es[next];
        ghost var before := m;
        StepAt(cfg, es, at);
        m, next := Step(cfg, m, e), next + 1;
        match e {
          case Stop =>
            return next, Stopped(batch[..]);
          case Timer(env) =>
            FlushBatch(batch, minAddr, maxEnd, env, at);
            return next, Idle;
          case NilRequest =>
          case Arrival(req, cancelled, env) =>
            var done: bool;
            done, batch, minAddr, maxEnd := Join(batch, minAddr, maxEnd, req, cancelled, env, at,
                before.(taken := before.taken + [req]));
            if done {
              return next, Idle;
            }
        }
      }
      return next, Batching(batch[..], minAddr, maxEnd);
    }

    /** run: until Stop, or until the events run out. */
    method Run(es: seq<Event>) returns (phase: Phase)
      requires sent == [] && issued == []
      modifies this
      ensures Tracks(Exec(cfg, es)) && Exec(cfg, es).phase == phase
    {
      var i := 0;
      while i < |es|
        invariant i <= |es| && Tracks(Exec(cfg, es[..i])) && Exec(cfg, es[..i]).phase == Idle
        decreases |es| - i
      {
        assert es[..i + 1][..i] == es[..i];
        var e := es[i];
        i := i + 1;
        if e.Stop? {
          StoppedStays(cfg, es, i);
          return Stopped([]);
        } else if e.Arrival? {
          i, phase := ProcessBatch(e.request, es, i);
          if !phase.Idle? {
            if phase.Stopped? {
              StoppedStays(cfg, es, i);
            }
            assert es[..|es|] == es;
            return;
          }
        }
      }
      assert es[..i] == es;
      return Idle;
    }
  }

  lemma {:induction false} StoppedStays(cfg: Config, es: seq<Event>, i: nat)
    requires i <= |es| && Exec(cfg, es[..i]).phase.Stopped?
    ensures Exec(cfg, es) == Exec(cfg, es[..i]).(now := |es|)
    decreases |es| - i
  {
    if i == |es| {
      assert es[..i] == es;
    } else {
      assert es[..i + 1][..i] == es[..i];
      StoppedStays(cfg, es, i + 1);
    }
  }
}
