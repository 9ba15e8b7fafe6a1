/** When the coalescer merges requests, and when it flushes: the decision of plugin_coalescer.go:188-230 over the
    runs of its machine, with the hull of a batch in plain integers. */
module CoalescerMerging {
  import opened Bytes
  import opened Coalescer
  import opened CoalescerLaws

  /** Where a request ends, in uint16. */
  function EndOfRange(r: Request): int { (r.address as int + r.count) % 0x1_0000 }

  /** The hull of an open batch and one more request: from the smaller start to the larger end. */
  function HullStart(minAddr: uint16, r: Request): int { if r.address < minAddr then r.address else minAddr }
  function HullEnd(maxEnd: uint16, r: Request): int { if EndOfRange(r) > maxEnd then EndOfRange(r) else maxEnd }

  /** The request joins the open batch: there is room, the area is the same, and the hull is ordered and small. */
  predicate Fits(cfg: Config, batch: seq<Request>, minAddr: uint16, maxEnd: uint16, r: Request)
    requires batch != []
  {
    && (cfg.maxBatch == 0 || |batch| < cfg.maxBatch)
    && r.area == batch[0].area
    && HullStart(minAddr, r) <= HullEnd(maxEnd, r) <= HullStart(minAddr, r) + cfg.maxSpan
  }

  predicate AllCancelled(batch: seq<Request>, env: Backend) { forall r :: r in batch ==> r.id in env.cancelled }

  /** The read a flush of this batch issues: one, from start to end, unless every request has been cancelled. */
  function ReadFor(batch: seq<Request>, start: uint16, span: uint16, env: Backend, at: nat): seq<Issued>
    requires batch != []
  {
    if AllCancelled(batch, env) then [] else [Issued(batch[0].area, start, span, batch, at)]
  }

  lemma {:induction false} ActiveIsWhatIsLeft(batch: seq<Request>, cancelled: set<nat>)
    ensures Active(batch, cancelled) == [] <==> forall r :: r in batch ==> r.id in cancelled
    ensures forall r :: r in Active(batch, cancelled) ==> r in batch
  {
    if batch != [] {
      ActiveIsWhatIsLeft(batch[..|batch| - 1], cancelled);
      assert batch == batch[..|batch| - 1] + [batch[|batch| - 1]];
    }
  }

  lemma FlushIssuesOneRead(batch: seq<Request>, minAddr: uint16, maxEnd: uint16, env: Backend, at: nat)
    requires batch != [] && forall r :: r in batch ==> r.area == batch[0].area
    ensures Flush(batch, minAddr, maxEnd, env, at).issued
         == ReadFor(batch, minAddr, U16(maxEnd as int - minAddr), env, at)
  {
    ActiveIsWhatIsLeft(batch, env.cancelled);
    var active := Active(batch, env.cancelled);
    if active != [] {
      assert active[0] in batch;
    }
  }

  /** A machine after flushing a batch: one read for it, one reply to each of its requests, and the next phase. */
  ghost predicate Flushes(m: Machine, batch: seq<Request>, start: uint16, span: uint16, env: Backend, next: Phase,
        m': Machine)
    requires batch != []
  {
    && m'.phase == next
    && m'.issued == m.issued + ReadFor(batch, start, span, env, m.now)
    && multiset(Requests(m'.sent)) == multiset(Requests(m.sent)) + multiset(batch)
  }

  lemma FlushingFlushes(m: Machine, batch: seq<Request>, minAddr: uint16, maxEnd: uint16, env: Backend, next: Phase)
    requires batch != [] && forall r :: r in batch ==> r.area == batch[0].area
    ensures Flushes(m, batch, minAddr, U16(maxEnd as int - minAddr), env, next,
                    Flushing(m, batch, minAddr, maxEnd, env, next))
  {
    FlushIssuesOneRead(batch, minAddr, maxEnd, env, m.now);
    FlushingConserves(m, batch, minAddr, maxEnd, env, next);
  }

  lemma FitsIsMergeTest(cfg: Config, batch: seq<Request>, minAddr: uint16, maxEnd: uint16, r: Request)
    requires batch != []
    ensures HullStart(minAddr, r) == Min(minAddr, r.address) && HullEnd(maxEnd, r) == Max(maxEnd, r.End())
    ensures var combined := CombinedSpan(Min(minAddr, r.address), Max(maxEnd, r.End()));
            && (Fits(cfg, batch, minAddr, maxEnd, r) <==>
                 && !(cfg.maxBatch > 0 && |batch| >= cfg.maxBatch)
                 && r.area == batch[0].area && combined <= cfg.maxSpan)
            && (Fits(cfg, batch, minAddr, maxEnd, r) ==>
                  combined == U16(combined) == HullEnd(maxEnd, r) - HullStart(minAddr, r))
  {
    if CombinedSpan(Min(minAddr, r.address), Max(maxEnd, r.End())) <= cfg.maxSpan {
      SmallSpanDoesNotWrap(Min(minAddr, r.address), Max(maxEnd, r.End()));
    }
  }

  /** What an arrival should do to an open batch. It joins exactly when it fits. Then below maxSpan nothing is
      issued or sent and the batch waits with its new hull; at maxSpan the whole batch is flushed with one read of
      the hull. Otherwise the old batch is flushed with one read of its own hull and a new one is opened. */
  ghost predicate Decided(cfg: Config, m: Machine, r: Request, env: Backend, m': Machine)
    requires m.phase.Batching? && m.phase.batch != []
  {
    var batch, minAddr, maxEnd := m.phase.batch, m.phase.minAddr, m.phase.maxEnd;
    var lo, hi := HullStart(minAddr, r), HullEnd(maxEnd, r);
    if !Fits(cfg, batch, minAddr, maxEnd, r) then
      Flushes(m, batch, minAddr, (maxEnd as int - minAddr) % 0x1_0000, env, Batching([r], r.address, EndOfRange(r)), m')
    else if hi - lo < cfg.maxSpan then
      m'.phase == Batching(batch + [r], lo, hi) && m'.issued == m.issued && m'.sent == m.sent
    else Flushes(m, batch + [r], lo, hi - lo, env, Idle, m')
  }

  lemma JoiningDecides(cfg: Config, before: Machine, r: Request, env: Backend)
    requires before.phase.Batching? && PhaseOk(cfg, before.phase)
    ensures Decided(cfg, before, r, env, Joining(cfg, before.(taken := before.taken + [r]), r, false, env))
  {
    var Batching(batch, minAddr, maxEnd) := before.phase;
    var m := before.(taken := before.taken + [r]);
    FitsIsMergeTest(cfg, batch, minAddr, maxEnd, r);
    if !Fits(cfg, batch, minAddr, maxEnd, r) {
      FlushingFlushes(m, batch, minAddr, maxEnd, env, Single(r));
    } else if HullEnd(maxEnd, r) - HullStart(minAddr, r) >= cfg.maxSpan {
      assert (batch + [r])[0] == batch[0];
      FlushingFlushes(m, batch + [r], Min(minAddr, r.address), Max(maxEnd, r.End()), env, Idle);
    }
  }

  lemma DecidedWhatever(cfg: Config, m: Machine, r: Request, env: Backend, m': Machine, m'': Machine)
    requires m.phase.Batching? && m.phase.batch != [] && Decided(cfg, m, r, env, m')
    requires m''.phase == m'.phase && m''.issued == m'.issued && m''.sent == m'.sent
    ensures Decided(cfg, m, r, env, m'')
  {
  }

  /** In every run of admitted requests an arrival does that. */
  lemma ArrivalJoinsWhen(cfg: Config, es: seq<Event>, r: Request, env: Backend)
    requires AllAdmitted(cfg, es) && Exec(cfg, es).phase.Batching?
    ensures Decided(cfg, Exec(cfg, es), r, env, Exec(cfg, es + [Arrival(r, false, env)]))
  {
    var m := Exec(cfg, es);
    RunIsGood(cfg, es);
    Extend(cfg, es, Arrival(r, false, env));
    JoiningDecides(cfg, m, r, env);
    DecidedWhatever(cfg, m, r, env, Joining(cfg, m.(taken := m.taken + [r]), r, false, env),
                    Exec(cfg, es + [Arrival(r, false, env)]));
  }

  /** An arrival found cancelled while a batch is open is answered at once and changes nothing else. */
  lemma CancelledArrivalIsAnswered(cfg: Config, es: seq<Event>, r: Request, env: Backend)
    requires Exec(cfg, es).phase.Batching?
    ensures var m, m' := Exec(cfg, es), Exec(cfg, es + [Arrival(r, true, env)]);
            && m'.phase == m.phase && m'.issued == m.issued
            && Requests(m'.sent) == Requests(m.sent) + [r] && m'.sent[|m.sent|].reply == Cancelled
  {
    Extend(cfg, es, Arrival(r, true, env));
  }

  /** With no batch open an arrival opens one, cancelled or not; nothing is read or answered yet. */
  lemma FirstArrivalOpensBatch(cfg: Config, es: seq<Event>, r: Request, cancelled: bool, env: Backend)
    requires Exec(cfg, es).phase.Idle?
    ensures var m, m' := Exec(cfg, es), Exec(cfg, es + [Arrival(r, cancelled, env)]);
            m'.phase == Batching([r], r.address, EndOfRange(r)) && m'.issued == m.issued && m'.sent == m.sent
  {
    Extend(cfg, es, Arrival(r, cancelled, env));
  }

  /** The timer flushes the open batch with one read of its hull. */
  lemma TimerFlushesBatch(cfg: Config, es: seq<Event>, env: Backend)
    requires AllAdmitted(cfg, es) && Exec(cfg, es).phase.Batching?
    ensures var m := Exec(cfg, es);
            Flushes(m, m.phase.batch, m.phase.minAddr, (m.phase.maxEnd as int - m.phase.minAddr) % 0x1_0000, env,
                    Idle, Exec(cfg, es + [Timer(env)]))
  {
    RunIsGood(cfg, es);
    Extend(cfg, es, Timer(env));
    var m := Exec(cfg, es);
    FlushingFlushes(m, m.phase.batch, m.phase.minAddr, m.phase.maxEnd, env, Idle);
  }

  /** A direct read is the request's words, one after the other, from its address on, continuing at 0. */
  lemma DirectReadIs(memory: WordMemory, r: Request, i: nat)
    requires i < r.count
    ensures |DirectRead(memory, r)| == r.count
    ensures DirectRead(memory, r)[i] == memory(r.area, (r.address as int + i) % 0x1_0000)
  {
    var ws: seq<uint16> := Words(memory, r.area, r.address, r.count);
    assert ws[i] == memory(r.area, U16(r.address as int + i));
  }
}
