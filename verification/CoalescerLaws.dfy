/** What the coalescer guarantees over every run: exactly-once replies, covering reads, and that a coalesced
    reply is the direct read - with the one family of requests for which it is not. */
module CoalescerLaws {
  import opened Bytes
  import opened Coalescer

  // ---------- Exactly one reply ----------

  function Requests(sent: seq<Sent>): seq<Request> {
    seq(|sent|, i requires 0 <= i < |sent| => sent[i].request)
  }

  lemma RequestsAppend(a: seq<Sent>, b: seq<Sent>)
    ensures multiset(Requests(a + b)) == multiset(Requests(a)) + multiset(Requests(b))
  {
    assert Requests(a + b) == Requests(a) + Requests(b);
  }

  lemma OneMore(rs: seq<Request>, r: Request)
    ensures multiset(rs + [r]) == multiset(rs) + multiset{r}
  {
  }

  lemma {:induction false} FilterPartitions(batch: seq<Request>, cancelled: set<nat>, at: nat, size: nat)
    ensures multiset(Requests(CancelReplies(batch, cancelled, at, size))) + multiset(Active(batch, cancelled))
        == multiset(batch)
  {
    if batch != [] {
      var init, last := batch[..|batch| - 1], batch[|batch| - 1];
      var cancels, active := CancelReplies(init, cancelled, at, size), Active(init, cancelled);
      FilterPartitions(init, cancelled, at, size);
      assert batch == init + [last];
      OneMore(init, last);
      if last.id in cancelled {
        assert Requests(cancels + [Sent(last, Cancelled, at, size, None)]) == Requests(cancels) + [last];
        OneMore(Requests(cancels), last);
      } else {
        OneMore(active, last);
      }
    }
  }

  /** A flush answers each request of its batch once, cancelled or not. */
  lemma FlushAnswersBatch(batch: seq<Request>, minAddr: uint16, maxEnd: uint16, env: Backend, at: nat)
    ensures multiset(Requests(Flush(batch, minAddr, maxEnd, env, at).sent)) == multiset(batch)
  {
    FilterPartitions(batch, env.cancelled, at, |batch|);
    var cancels, active := CancelReplies(batch, env.cancelled, at, |batch|), Active(batch, env.cancelled);
    if active != [] {
      var data := env.Read(active[0].area, minAddr, U16(maxEnd as int - minAddr));
      var slices := SliceReplies(active, minAddr, data, at, |batch|);
      RequestsAppend(cancels, slices);
      assert Requests(slices) == active;
    }
  }

  /** Requests taken but not answered yet; Stop abandons them. */
  function Pending(p: Phase): seq<Request> {
    match p
    case Idle => []
    case Batching(batch, _, _) => batch
    case Stopped(abandoned) => abandoned
  }

  ghost predicate Conserved(m: Machine) {
    multiset(Requests(m.sent)) + multiset(Pending(m.phase)) == multiset(m.taken)
  }

  lemma FlushingConserves(m: Machine, batch: seq<Request>, minAddr: uint16, maxEnd: uint16, env: Backend, next: Phase)
    ensures var m' := Flushing(m, batch, minAddr, maxEnd, env, next);
            multiset(Requests(m'.sent)) == multiset(Requests(m.sent)) + multiset(batch)
  {
    FlushAnswersBatch(batch, minAddr, maxEnd, env, m.now);
    RequestsAppend(m.sent, Flush(batch, minAddr, maxEnd, env, m.now).sent);
  }

  lemma JoiningConserves(cfg: Config, m: Machine, r: Request, cancelled: bool, env: Backend)
    requires m.phase.Batching? && m.phase.batch != []
    ensures var m' := Joining(cfg, m, r, cancelled, env);
            && m'.taken == m.taken
            && multiset(Requests(m'.sent)) + multiset(Pending(m'.phase))
            == multiset(Requests(m.sent)) + multiset(m.phase.batch) + multiset{r}
  {
    var Batching(batch, minAddr, maxEnd) := m.phase;
    var newMin, newMax := Min(minAddr, r.address), Max(maxEnd, r.End());
    if cancelled {
      RequestsAppend(m.sent, [Sent(r, Cancelled, m.now, 1, None)]);
      assert Requests([Sent(r, Cancelled, m.now, 1, None)]) == [r];
    } else {
      OneMore(batch, r);
      FlushingConserves(m, batch, minAddr, maxEnd, env, Single(r));
      FlushingConserves(m, batch + [r], newMin, newMax, env, Idle);
    }
  }

  lemma StepConserves(cfg: Config, m: Machine, e: Event)
    requires Conserved(m) && (m.phase.Batching? ==> m.phase.batch != [])
    ensures Conserved(Step(cfg, m, e))
  {
    if m.phase.Batching? {
      var Batching(batch, minAddr, maxEnd) := m.phase;
      if e.Timer? {
        FlushingConserves(m, batch, minAddr, maxEnd, e.env, Idle);
      } else if e.Arrival? {
        OneMore(m.taken, e.request);
        JoiningConserves(cfg, m.(taken := m.taken + [e.request]), e.request, e.cancelled, e.env);
      }
    }
  }

  /** In every run, the requests answered and the requests still pending make up the requests taken. */
  lemma {:induction false} RunConserves(cfg: Config, es: seq<Event>)
    ensures Conserved(Exec(cfg, es))
  {
    if es != [] {
      RunConserves(cfg, es[..|es| - 1]);
      StepConserves(cfg, Exec(cfg, es[..|es| - 1]), es[|es| - 1]);
    }
  }

  ghost predicate Distinct(rs: seq<Request>) { forall i, j :: 0 <= i < j < |rs| ==> rs[i] != rs[j] }

  lemma {:induction false} DistinctMultiplicity(rs: seq<Request>, r: Request)
    requires Distinct(rs)
    ensures multiset(rs)[r] <= 1
  {
    if rs != [] {
      DistinctMultiplicity(rs[..|rs| - 1], r);
      assert rs == rs[..|rs| - 1] + [rs[|rs| - 1]];
      if rs[|rs| - 1] == r {
        assert r !in rs[..|rs| - 1];
      }
    }
  }

  lemma TwiceCountsTwo(rs: seq<Request>, i: nat, j: nat)
    requires i < j < |rs| && rs[i] == rs[j]
    ensures multiset(rs)[rs[i]] >= 2
  {
    assert rs == rs[..j] + [rs[j]] + rs[j + 1..];
    assert rs[i] in rs[..j];
  }

  lemma RepliedWasTaken(cfg: Config, es: seq<Event>, s: Sent)
    requires s in Exec(cfg, es).sent
    ensures s.request in Exec(cfg, es).taken
  {
    RunConserves(cfg, es);
    var m := Exec(cfg, es);
    var i :| 0 <= i < |m.sent| && m.sent[i] == s;
    assert Requests(m.sent)[i] == s.request;
    assert s.request in multiset(Requests(m.sent));
    assert s.request in multiset(m.taken);
  }

  /** No reply is sent twice to one request, so no send finds the one-slot reply channel full; and once the
      run is idle every request taken has been answered. */
  lemma ExactlyOneReply(cfg: Config, es: seq<Event>)
    requires Distinct(Exec(cfg, es).taken)
    ensures var m := Exec(cfg, es);
            && Distinct(Requests(m.sent))
            && (forall s :: s in m.sent ==> s.request in m.taken && s.request !in Pending(m.phase))
            && (m.phase.Idle? ==> forall r :: r in m.taken ==> r in Requests(m.sent))
  {
    RunConserves(cfg, es);
    var m := Exec(cfg, es);
    var answered := Requests(m.sent);
    forall r ensures multiset(answered)[r] + multiset(Pending(m.phase))[r] == multiset(m.taken)[r] <= 1 {
      DistinctMultiplicity(m.taken, r);
    }
    forall i, j | 0 <= i < j < |answered| ensures answered[i] != answered[j] {
      if answered[i] == answered[j] {
        TwiceCountsTwo(answered, i, j);
      }
    }
    forall s | s in m.sent ensures s.request in m.taken && s.request !in Pending(m.phase) {
      var i :| 0 <= i < |m.sent| && m.sent[i] == s;
      assert answered[i] == s.request;
      assert s.request in multiset(answered);
    }
    if m.phase.Idle? {
      forall r | r in m.taken ensures r in answered {
        assert r in multiset(m.taken);
        assert r in multiset(answered);
      }
    }
  }

  // ---------- The batch and its hull ----------

  /** Every member inside the bounds, and members at both ends of them. */
  ghost predicate Spanned(batch: seq<Request>, minAddr: uint16, maxEnd: uint16) {
    && (forall r :: r in batch ==> minAddr <= r.address && r.End() <= maxEnd)
    && (exists r :: r in batch && r.address == minAddr)
    && (exists r :: r in batch && r.End() == maxEnd)
  }

  /** A batch and its bounds as the loop keeps them: alone, a request's own wrapped bounds; merged, an
      unwrapped hull of at most maxSpan words around every member's address and wrapped end. */
  ghost predicate Hull(cfg: Config, batch: seq<Request>, minAddr: uint16, maxEnd: uint16) {
    && batch != []
    && (forall r :: r in batch ==> r.area == batch[0].area && cfg.Admits(r))
    && (cfg.maxBatch > 0 ==> |batch| <= cfg.maxBatch)
    && Spanned(batch, minAddr, maxEnd)
    && (|batch| > 1 ==> minAddr <= maxEnd && maxEnd as int - minAddr <= cfg.maxSpan)
  }

  lemma MergeKeepsSpanned(batch: seq<Request>, minAddr: uint16, maxEnd: uint16, r: Request)
    requires Spanned(batch, minAddr, maxEnd)
    ensures Spanned(batch + [r], Min(minAddr, r.address), Max(maxEnd, r.End()))
  {
    var lowest: Request :| lowest in batch && lowest.address == minAddr;
    var highest: Request :| highest in batch && highest.End() == maxEnd;
    assert lowest in batch + [r] && highest in batch + [r] && r in batch + [r];
  }

  lemma SmallSpanDoesNotWrap(newMin: uint16, newMax: uint16)
    requires CombinedSpan(newMin, newMax) < 0x1_0000
    ensures newMin <= newMax && CombinedSpan(newMin, newMax) == newMax as int - newMin
  {
  }

  lemma MergeKeepsHull(cfg: Config, batch: seq<Request>, minAddr: uint16, maxEnd: uint16, r: Request)
    requires Hull(cfg, batch, minAddr, maxEnd) && cfg.Admits(r) && r.area == batch[0].area
    requires cfg.maxBatch > 0 ==> |batch| < cfg.maxBatch
    requires CombinedSpan(Min(minAddr, r.address), Max(maxEnd, r.End())) <= cfg.maxSpan
    ensures Hull(cfg, batch + [r], Min(minAddr, r.address), Max(maxEnd, r.End()))
  {
    MergeKeepsSpanned(batch, minAddr, maxEnd, r);
    SmallSpanDoesNotWrap(Min(minAddr, r.address), Max(maxEnd, r.End()));
  }

  lemma EndOf(r: Request)
    ensures r.End() == r.address as int + r.count - (if r.Wraps() then 0x1_0000 else 0)
  {
  }

  lemma SpanOfOne(r: Request)
    ensures U16(r.End() as int - r.address) == r.count
  {
    U16Sum(-(r.address as int), r.address as int + r.count);
  }

  /** An open batch has its hull, and once merged still has room: at maxSpan words it is flushed at once. */
  ghost predicate PhaseOk(cfg: Config, p: Phase) {
    p.Batching? ==>
      Hull(cfg, p.batch, p.minAddr, p.maxEnd) && (|p.batch| > 1 ==> p.maxEnd as int - p.minAddr < cfg.maxSpan)
  }

  /** A backend read and its batch: one area, at most maxSpan words, within maxBatch, and every member that
      does not wrap is inside; if none wraps it starts and ends where members do. */
  ghost predicate Covers(cfg: Config, i: Issued) {
    && i.batch != [] && i.span <= cfg.maxSpan && (cfg.maxBatch > 0 ==> |i.batch| <= cfg.maxBatch)
    && (forall r :: r in i.batch ==> r.area == i.area)
    && (forall r :: r in i.batch && !r.Wraps() ==>
          i.address <= r.address && r.address as int + r.count <= i.address as int + i.span)
    && (|i.batch| == 1 ==> i.address == i.batch[0].address && i.span == i.batch[0].count)
    && (|i.batch| > 1 ==> exists r :: r in i.batch && r.address == i.address)
    && ((forall r :: r in i.batch ==> !r.Wraps()) ==>
          exists r :: r in i.batch && r.address as int + r.count == i.address as int + i.span)
  }

  lemma AloneCovers(cfg: Config, r: Request, at: nat)
    requires cfg.Admits(r)
    ensures Covers(cfg, Issued(r.area, r.address, U16(r.End() as int - r.address), [r], at))
  {
    SpanOfOne(r);
    EndOf(r);
    assert r in [r];
  }

  lemma MergedCovers(cfg: Config, batch: seq<Request>, minAddr: uint16, maxEnd: uint16, at: nat)
    requires Hull(cfg, batch, minAddr, maxEnd) && |batch| > 1
    ensures Covers(cfg, Issued(batch[0].area, minAddr, U16(maxEnd as int - minAddr), batch, at))
  {
    forall r | r in batch ensures !r.Wraps() ==> r.End() == r.address as int + r.count {
      EndOf(r);
    }
    var highest: Request :| highest in batch && highest.End() == maxEnd;
    assert U16(maxEnd as int - minAddr) == maxEnd as int - minAddr;
  }

  lemma HullCovers(cfg: Config, batch: seq<Request>, minAddr: uint16, maxEnd: uint16, at: nat)
    requires Hull(cfg, batch, minAddr, maxEnd)
    ensures Covers(cfg, Issued(batch[0].area, minAddr, U16(maxEnd as int - minAddr), batch, at))
  {
    if |batch| == 1 {
      assert batch == [batch[0]];
      AloneCovers(cfg, batch[0], at);
    } else {
      MergedCovers(cfg, batch, minAddr, maxEnd, at);
    }
  }

  lemma {:induction false} ActiveIsSubset(batch: seq<Request>, cancelled: set<nat>)
    ensures forall r :: r in Active(batch, cancelled) ==> r in batch && r.id !in cancelled
  {
    if batch != [] {
      ActiveIsSubset(batch[..|batch| - 1], cancelled);
    }
  }

  // ---------- What a reply says ----------

  function EnvOf(e: Event): Option<Backend> {
    match e
    case Timer(env) => Some(env)
    case Arrival(_, _, env) => Some(env)
    case _ => None
  }

  /** The reply a request ought to get, with the one way the code departs from it: merged with others, a
      request that reaches the top of the address space is told the response was too short. A read that returned
      n words is too short for exactly the requests that end past them. */
  ghost predicate ReplyOk(s: Sent, e: Event) {
    EnvOf(e).Some? &&
    var env := EnvOf(e).value;
    if (e.Arrival? && e.cancelled) || s.request.id in env.cancelled then s.reply == Cancelled && s.base == None
    else
      s.base.Some? &&
      match env.outcome
      case Failed => s.reply == BackendError
      case Partial(n) =>
        s.reply == if EndsAt(s.request, s.base.value) > n then TooShort else Data(DirectRead(env.memory, s.request))
      case Full =>
        s.reply == if s.batchSize > 1 && s.request.Wraps() then TooShort else Data(DirectRead(env.memory, s.request))
  }

  /** Where a request ends in a read that starts at base. */
  function EndsAt(r: Request, base: uint16): int { (U16(r.address as int - base) as int) + r.count }

  /** Slicing a read of the right area at the wrapped offset gives the direct read, whatever wrapped. */
  lemma SliceIsDirect(memory: WordMemory, r: Request, minAddr: uint16, n: nat)
    ensures var start: int := U16(r.address as int - minAddr);
            SliceFor(r, minAddr, Some(Words(memory, r.area, minAddr, n)))
            == if start + r.count > n then TooShort else Data(DirectRead(memory, r))
  {
    var start: int := U16(r.address as int - minAddr);
    var data := Words(memory, r.area, minAddr, n);
    if start + r.count <= n {
      forall i | 0 <= i < r.count ensures data[start + i] == DirectRead(memory, r)[i] {
        U16Sum(minAddr as int + i, r.address as int - minAddr);
      }
      assert data[start..start + r.count] == DirectRead(memory, r);
    }
  }

  /** With a full read, a member of a batch is cut off exactly when it is merged and wraps. */
  lemma CutOffWhen(cfg: Config, batch: seq<Request>, minAddr: uint16, maxEnd: uint16, r: Request)
    requires Hull(cfg, batch, minAddr, maxEnd) && r in batch
    ensures (U16(r.address as int - minAddr) as int + r.count > U16(maxEnd as int - minAddr))
        <==> |batch| > 1 && r.Wraps()
  {
    EndOf(r);
    if |batch| == 1 {
      assert batch == [r];
      SpanOfOne(r);
    } else {
      assert U16(maxEnd as int - minAddr) == maxEnd as int - minAddr;
      assert U16(r.address as int - minAddr) == r.address as int - minAddr;
    }
  }

  lemma SliceOk(cfg: Config, batch: seq<Request>, minAddr: uint16, maxEnd: uint16, env: Backend, at: nat, e: Event,
        r: Request)
    requires Hull(cfg, batch, minAddr, maxEnd) && r in batch && EnvOf(e) == Some(env)
    requires (e.Arrival? ==> !e.cancelled) && r.id !in env.cancelled
    ensures var data := env.Read(batch[0].area, minAddr, U16(maxEnd as int - minAddr));
            ReplyOk(Sent(r, SliceFor(r, minAddr, data), at, |batch|, Some(minAddr)), e)
  {
    var span := U16(maxEnd as int - minAddr);
    match env.outcome
    case Failed =>
    case Full =>
      SliceIsDirect(env.memory, r, minAddr, span);
      CutOffWhen(cfg, batch, minAddr, maxEnd, r);
    case Partial(n) => SliceIsDirect(env.memory, r, minAddr, n);
  }

  lemma {:induction false} CancelsOk(batch: seq<Request>, env: Backend, at: nat, size: nat, e: Event)
    requires EnvOf(e) == Some(env)
    ensures forall s :: s in CancelReplies(batch, env.cancelled, at, size) ==> s.at == at && ReplyOk(s, e)
  {
    if batch != [] {
      CancelsOk(batch[..|batch| - 1], env, at, size, e);
    }
  }

  lemma FlushOk(cfg: Config, batch: seq<Request>, minAddr: uint16, maxEnd: uint16, env: Backend, at: nat, e: Event)
    requires Hull(cfg, batch, minAddr, maxEnd) && EnvOf(e) == Some(env) && (e.Arrival? ==> !e.cancelled)
    ensures var f := Flush(batch, minAddr, maxEnd, env, at);
            && (forall s :: s in f.sent ==> s.at == at && ReplyOk(s, e))
            && (forall i :: i in f.issued ==> Covers(cfg, i))
  {
    CancelsOk(batch, env, at, |batch|, e);
    ActiveIsSubset(batch, env.cancelled);
    var active := Active(batch, env.cancelled);
    if active != [] {
      assert active[0] in batch;
      HullCovers(cfg, batch, minAddr, maxEnd, at);
      forall k | 0 <= k < |active|
        ensures var data := env.Read(batch[0].area, minAddr, U16(maxEnd as int - minAddr));
                ReplyOk(Sent(active[k], SliceFor(active[k], minAddr, data), at, |batch|, Some(minAddr)), e)
      {
        assert active[k] in active;
        SliceOk(cfg, batch, minAddr, maxEnd, env, at, e, active[k]);
      }
    }
  }

  // ---------- Every run ----------

  /** The queue holds admitted requests only. */
  ghost predicate AllAdmitted(cfg: Config, es: seq<Event>) {
    forall e :: e in es && e.Arrival? ==> cfg.Admits(e.request)
  }

  ghost predicate Good(cfg: Config, es: seq<Event>, m: Machine) {
    && PhaseOk(cfg, m.phase)
    && (forall s :: s in m.sent ==> s.at < |es| && ReplyOk(s, es[s.at]))
    && (forall i :: i in m.issued ==> Covers(cfg, i))
  }

  lemma FlushingKeepsGood(cfg: Config, es: seq<Event>, e: Event, m: Machine,
                          batch: seq<Request>, minAddr: uint16, maxEnd: uint16, env: Backend, next: Phase)
    requires Good(cfg, es, m) && m.now == |es| && PhaseOk(cfg, next)
    requires Hull(cfg, batch, minAddr, maxEnd) && EnvOf(e) == Some(env) && (e.Arrival? ==> !e.cancelled)
    ensures Good(cfg, es + [e], Flushing(m, batch, minAddr, maxEnd, env, next))
  {
    FlushOk(cfg, batch, minAddr, maxEnd, env, m.now, e);
  }

  lemma SingleIsHull(cfg: Config, r: Request)
    requires cfg.Admits(r)
    ensures Hull(cfg, [r], r.address, r.End())
  {
  }

  /** A merge that reaches maxSpan flushes; any other leaves an open batch with room. */
  lemma MergedPhaseOk(cfg: Config, batch: seq<Request>, minAddr: uint16, maxEnd: uint16, r: Request)
    requires Hull(cfg, batch, minAddr, maxEnd) && cfg.Admits(r) && r.area == batch[0].area
    requires cfg.maxBatch > 0 ==> |batch| < cfg.maxBatch
    ensures var newMin, newMax := Min(minAddr, r.address), Max(maxEnd, r.End());
            var combined := CombinedSpan(newMin, newMax);
            combined <= cfg.maxSpan ==>
              && Hull(cfg, batch + [r], newMin, newMax)
              && (U16(combined) < cfg.maxSpan ==> PhaseOk(cfg, Batching(batch + [r], newMin, newMax)))
  {
    var newMin, newMax := Min(minAddr, r.address), Max(maxEnd, r.End());
    if CombinedSpan(newMin, newMax) <= cfg.maxSpan {
      MergeKeepsHull(cfg, batch, minAddr, maxEnd, r);
      SmallSpanDoesNotWrap(newMin, newMax);
    }
  }

  lemma GoodLater(cfg: Config, es: seq<Event>, m: Machine, e: Event, next: Phase)
    requires Good(cfg, es, m) && PhaseOk(cfg, next)
    ensures Good(cfg, es + [e], m.(phase := next))
  {
  }

  lemma MergingKeepsGood(cfg: Config, es: seq<Event>, m: Machine, e: Event)
    requires Good(cfg, es, m) && m.now == |es| && m.phase.Batching? && e.Arrival? && cfg.Admits(e.request)
        && !e.cancelled
    requires (cfg.maxBatch > 0 ==> |m.phase.batch| < cfg.maxBatch) && e.request.area == m.phase.batch[0].area
    requires CombinedSpan(Min(m.phase.minAddr, e.request.address), Max(m.phase.maxEnd, e.request.End())) <= cfg.maxSpan
    ensures Good(cfg, es + [e], Joining(cfg, m, e.request, e.cancelled, e.env))
  {
    var Batching(batch, minAddr, maxEnd) := m.phase;
    var newMin, newMax := Min(minAddr, e.request.address), Max(maxEnd, e.request.End());
    MergedPhaseOk(cfg, batch, minAddr, maxEnd, e.request);
    if U16(CombinedSpan(newMin, newMax)) >= cfg.maxSpan {
      FlushingKeepsGood(cfg, es, e, m, batch + [e.request], newMin, newMax, e.env, Idle);
    } else {
      GoodLater(cfg, es, m, e, Batching(batch + [e.request], newMin, newMax));
    }
  }

  lemma JoiningKeepsGood(cfg: Config, es: seq<Event>, m: Machine, e: Event)
    requires Good(cfg, es, m) && m.now == |es| && m.phase.Batching? && e.Arrival? && cfg.Admits(e.request)
    ensures Good(cfg, es + [e], Joining(cfg, m, e.request, e.cancelled, e.env))
  {
    var Batching(batch, minAddr, maxEnd) := m.phase;
    var r := e.request;
    if !e.cancelled {
      if (cfg.maxBatch > 0 ==> |batch| < cfg.maxBatch) && r.area == batch[0].area
        && CombinedSpan(Min(minAddr, r.address), Max(maxEnd, r.End())) <= cfg.maxSpan {
        MergingKeepsGood(cfg, es, m, e);
      } else {
        SingleIsHull(cfg, r);
        FlushingKeepsGood(cfg, es, e, m, batch, minAddr, maxEnd, e.env, Single(r));
      }
    }
  }

  lemma {:induction false} RunIsGood(cfg: Config, es: seq<Event>)
    requires AllAdmitted(cfg, es)
    ensures Good(cfg, es, Exec(cfg, es))
  {
    if es != [] {
      var before, e := es[..|es| - 1], es[|es| - 1];
      assert es == before + [e];
      RunIsGood(cfg, before);
      var m := Exec(cfg, before);
      match m.phase
      case Idle => if e.Arrival? { SingleIsHull(cfg, e.request); }
      case Stopped(_) =>
      case Batching(batch, minAddr, maxEnd) =>
        if e.Timer? {
          FlushingKeepsGood(cfg, before, e, m, batch, minAddr, maxEnd, e.env, Idle);
        } else if e.Arrival? {
          JoiningKeepsGood(cfg, before, m.(taken := m.taken + [e.request]), e);
        }
    }
  }

  // ---------- Every reply comes from a read ----------

  /** A reply cut from this read: sent at the same event, to one of its batch. */
  predicate FromRead(s: Sent, i: Issued) {
    i.at == s.at && s.base == Some(i.address) && s.batchSize == |i.batch| && s.request in i.batch
  }

  ghost predicate HasRead(s: Sent, issued: seq<Issued>) {
    s.base.Some? ==> exists k :: 0 <= k < |issued| && FromRead(s, issued[k])
  }

  ghost predicate Sourced(m: Machine) { forall s :: s in m.sent ==> HasRead(s, m.issued) }

  lemma HasReadStill(s: Sent, issued: seq<Issued>, more: seq<Issued>)
    requires HasRead(s, issued)
    ensures HasRead(s, issued + more)
  {
    if s.base.Some? {
      var k :| 0 <= k < |issued| && FromRead(s, issued[k]);
      assert (issued + more)[k] == issued[k];
    }
  }

  lemma {:induction false} CancelsHaveNoBase(batch: seq<Request>, cancelled: set<nat>, at: nat, size: nat)
    ensures forall s :: s in CancelReplies(batch, cancelled, at, size) ==> s.base == None
  {
    if batch != [] {
      CancelsHaveNoBase(batch[..|batch| - 1], cancelled, at, size);
    }
  }

  lemma FlushIsSourced(batch: seq<Request>, minAddr: uint16, maxEnd: uint16, env: Backend, at: nat, before: seq<Issued>)
    ensures var f := Flush(batch, minAddr, maxEnd, env, at);
            forall s :: s in f.sent ==> HasRead(s, before + f.issued)
  {
    var f, active := Flush(batch, minAddr, maxEnd, env, at), Active(batch, env.cancelled);
    CancelsHaveNoBase(batch, env.cancelled, at, |batch|);
    ActiveIsSubset(batch, env.cancelled);
    forall s | s in f.sent ensures HasRead(s, before + f.issued) {
      if s.base.Some? {
        assert s.request in active;
        assert FromRead(s, (before + f.issued)[|before|]);
      }
    }
  }

  lemma FlushingKeepsSourced(m: Machine, batch: seq<Request>, minAddr: uint16, maxEnd: uint16, env: Backend,
        next: Phase)
    requires Sourced(m)
    ensures Sourced(Flushing(m, batch, minAddr, maxEnd, env, next))
  {
    var f := Flush(batch, minAddr, maxEnd, env, m.now);
    FlushIsSourced(batch, minAddr, maxEnd, env, m.now, m.issued);
    forall s | s in m.sent ensures HasRead(s, m.issued + f.issued) {
      HasReadStill(s, m.issued, f.issued);
    }
  }

  lemma JoiningKeepsSourced(cfg: Config, m: Machine, r: Request, cancelled: bool, env: Backend)
    requires m.phase.Batching? && m.phase.batch != [] && Sourced(m)
    ensures Sourced(Joining(cfg, m, r, cancelled, env))
  {
    var Batching(batch, minAddr, maxEnd) := m.phase;
    FlushingKeepsSourced(m, batch, minAddr, maxEnd, env, Single(r));
    FlushingKeepsSourced(m, batch + [r], Min(minAddr, r.address), Max(maxEnd, r.End()), env, Idle);
  }

  lemma {:induction false} RunIsSourced(cfg: Config, es: seq<Event>)
    ensures Sourced(Exec(cfg, es))
  {
    if es != [] {
      var m, e := Exec(cfg, es[..|es| - 1]), es[|es| - 1];
      RunIsSourced(cfg, es[..|es| - 1]);
      if m.phase.Batching? {
        if e.Timer? {
          FlushingKeepsSourced(m, m.phase.batch, m.phase.minAddr, m.phase.maxEnd, e.env, Idle);
        } else if e.Arrival? {
          JoiningKeepsSourced(cfg, m.(taken := m.taken + [e.request]), e.request, e.cancelled, e.env);
        }
      }
    }
  }

  /** Every reply that is not a cancellation on arrival or in the queue is cut from a read issued at the same event
      for a batch with that request in it, at the recorded offset. */
  lemma RepliesComeFromReads(cfg: Config, es: seq<Event>, s: Sent)
    requires s in Exec(cfg, es).sent && s.base.Some?
    ensures exists i :: i in Exec(cfg, es).issued && FromRead(s, i)
  {
    RunIsSourced(cfg, es);
    var issued := Exec(cfg, es).issued;
    var k :| 0 <= k < |issued| && FromRead(s, issued[k]);
    assert issued[k] in issued;
  }

  /** Main result. In every run of admitted requests, every reply sent is the right one for what its flush met:
      cancelled if and only if it was, the backend's error if it failed, and otherwise the direct read of the
      request's own area, address and count - except that a read that returned n words is "too short" exactly for
      the requests that end past them, and a full read exactly for a request merged with others whose address
      plus count reaches 65536. */
  lemma RepliesRefineDirectReads(cfg: Config, es: seq<Event>, s: Sent)
    requires AllAdmitted(cfg, es) && s in Exec(cfg, es).sent
    ensures s.at < |es| && ReplyOk(s, es[s.at])
  {
    RunIsGood(cfg, es);
  }

  /** Every backend read covers the hull of its batch within the configured limits. */
  lemma ReadsCoverBatches(cfg: Config, es: seq<Event>, i: Issued)
    requires AllAdmitted(cfg, es) && i in Exec(cfg, es).issued
    ensures Covers(cfg, i)
  {
    RunIsGood(cfg, es);
  }

  /** While a batch waits for the timer, its requests share one area, lie between its bounds, and number at
      most maxBatch; merged, they span fewer than maxSpan words. */
  lemma OpenBatchBelowLimits(cfg: Config, es: seq<Event>)
    requires AllAdmitted(cfg, es)
    ensures PhaseOk(cfg, Exec(cfg, es).phase)
  {
    RunIsGood(cfg, es);
  }

  /** The requests of a run, in order of arrival. */
  function Arrivals(es: seq<Event>): seq<Request> {
    if es == [] then []
    else Arrivals(es[..|es| - 1]) + (if es[|es| - 1].Arrival? then [es[|es| - 1].request] else [])
  }

  lemma {:induction false} EveryArrivalIsTaken(cfg: Config, es: seq<Event>)
    requires Stop !in es
    ensures !Exec(cfg, es).phase.Stopped? && Exec(cfg, es).taken == Arrivals(es)
  {
    if es != [] {
      var before := es[..|es| - 1];
      assert es[|es| - 1] in es;
      EveryArrivalIsTaken(cfg, before);
      StepAdvances(cfg, Exec(cfg, before), es[|es| - 1]);
    }
  }

  lemma StepAdvances(cfg: Config, m: Machine, e: Event)
    requires (m.phase.Batching? ==> m.phase.batch != []) && !m.phase.Stopped? && !e.Stop?
    ensures !Step(cfg, m, e).phase.Stopped?
    ensures Step(cfg, m, e).taken == m.taken + (if e.Arrival? then [e.request] else [])
  {
  }

  /** When the timer fires, unless Stop came first, the replies sent so far are to exactly the requests that
      arrived, each as often as it arrived. */
  lemma TimerAnswersAll(cfg: Config, es: seq<Event>, env: Backend)
    requires Stop !in es
    ensures var m := Exec(cfg, es + [Timer(env)]);
            m.phase == Idle && multiset(Requests(m.sent)) == multiset(Arrivals(es))
  {
    EveryArrivalIsTaken(cfg, es);
    Extend(cfg, es, Timer(env));
    RunConserves(cfg, es + [Timer(env)]);
  }

  /** If no request reaches address 65536, no reply to a full read is too short: coalescing is invisible. */
  lemma CoalescingIsInvisible(cfg: Config, es: seq<Event>, s: Sent)
    requires AllAdmitted(cfg, es) && s in Exec(cfg, es).sent
    requires forall e :: e in es && e.Arrival? ==> !e.request.Wraps()
    requires forall e :: e in es && EnvOf(e).Some? ==> EnvOf(e).value.outcome == Full
    requires s.reply != Cancelled
    ensures s.at < |es| && EnvOf(es[s.at]).Some? && s.reply == Data(DirectRead(EnvOf(es[s.at]).value.memory, s.request))
  {
    RepliesRefineDirectReads(cfg, es, s);
    RepliedWasTaken(cfg, es, s);
    TakenArrived(cfg, es, s.request);
    assert es[s.at] in es;
  }

  lemma {:induction false} TakenArrived(cfg: Config, es: seq<Event>, r: Request)
    requires r in Exec(cfg, es).taken
    ensures exists e :: e in es && e.Arrival? && e.request == r
  {
    if es != [] {
      var before, e := es[..|es| - 1], es[|es| - 1];
      var m := Exec(cfg, before);
      if r in m.taken {
        TakenArrived(cfg, before, r);
        var e' :| e' in before && e'.Arrival? && e'.request == r;
        assert e' in es;
      } else {
        StepTakes(cfg, m, e);
        assert e in es;
      }
    }
  }

  lemma StepTakes(cfg: Config, m: Machine, e: Event)
    requires m.phase.Batching? ==> m.phase.batch != []
    ensures Step(cfg, m, e).taken == m.taken || (e.Arrival? && Step(cfg, m, e).taken == m.taken + [e.request])
  {
  }

  /** The departure is real: six words from 65530 up to the last address read fine alone, and fail once
      a second request for their first two words is merged with them. */
  lemma TopOfMemoryFailsWhenMerged(memory: WordMemory, area: byte)
    ensures var cfg, env := Config(32, 0), Backend({}, memory, Full);
            var a, b := Request(0, area, 65530, 6), Request(1, area, 65530, 2);
            && Exec(cfg, [Arrival(a, false, env), Timer(env)]).sent
               == [Sent(a, Data(DirectRead(memory, a)), 1, 1, Some(65530))]
            && |Exec(cfg, [Arrival(a, false, env), Arrival(b, false, env), Timer(env)]).sent| == 2
            && Exec(cfg, [Arrival(a, false, env), Arrival(b, false, env), Timer(env)]).sent[0]
               == Sent(a, TooShort, 2, 2, Some(65530))
  {
    var cfg, env := Config(32, 0), Backend({}, memory, Full);
    var a, b := Request(0, area, 65530, 6), Request(1, area, 65530, 2);
    AloneThenTimer(cfg, env, a);
    PairThenTimer(cfg, env, a, b);
  }

  lemma Extend(cfg: Config, es: seq<Event>, e: Event)
    ensures Exec(cfg, es + [e]) == Step(cfg, Exec(cfg, es), e)
  {
    assert (es + [e])[..|es|] == es;
  }

  lemma NoneCancelled(batch: seq<Request>, at: nat, size: nat)
    ensures Active(batch, {}) == batch && CancelReplies(batch, {}, at, size) == []
  {
    if batch != [] {
      NoneCancelled(batch[..|batch| - 1], at, size);
    }
  }

  lemma FlushUncancelled(batch: seq<Request>, minAddr: uint16, maxEnd: uint16, env: Backend, at: nat)
    requires batch != [] && env.cancelled == {}
    ensures var data := env.Read(batch[0].area, minAddr, U16(maxEnd as int - minAddr));
            Flush(batch, minAddr, maxEnd, env, at).sent == SliceReplies(batch, minAddr, data, at, |batch|)
  {
    NoneCancelled(batch, at, |batch|);
  }

  lemma SliceAlone(memory: WordMemory, a: Request)
    ensures SliceFor(a, a.address, Some(Words(memory, a.area, a.address, a.count))) == Data(DirectRead(memory, a))
  {
    SliceIsDirect(memory, a, a.address, a.count);
  }

  lemma FlushAlone(env: Backend, a: Request, at: nat)
    requires env.cancelled == {} && env.outcome == Full
    ensures Flush([a], a.address, a.End(), env, at).sent
        == [Sent(a, Data(DirectRead(env.memory, a)), at, 1, Some(a.address))]
  {
    FlushUncancelled([a], a.address, a.End(), env, at);
    SpanOfOne(a);
    SliceAlone(env.memory, a);
  }

  lemma AloneThenTimer(cfg: Config, env: Backend, a: Request)
    requires env.cancelled == {} && env.outcome == Full
    ensures Exec(cfg, [Arrival(a, false, env), Timer(env)]).sent
        == [Sent(a, Data(DirectRead(env.memory, a)), 1, 1, Some(a.address))]
  {
    var first := [Arrival(a, false, env)];
    Extend(cfg, [], first[0]);
    assert [] + [first[0]] == first;
    TimerFlushes(cfg, first, env);
    assert first + [Timer(env)] == [Arrival(a, false, env), Timer(env)];
    FlushAlone(env, a, 1);
  }

  lemma PairJoins(cfg: Config, m: Machine, env: Backend, a: Request, b: Request)
    requires cfg == Config(32, 0) && a.area == b.area && b.address == 65530 && b.count == 2
    requires m.phase == Batching([a], 65530, 0)
    ensures Joining(cfg, m, b, false, env) == m.(phase := Batching([a, b], 65530, 65532))
  {
    assert [a] + [b] == [a, b];
  }

  lemma PairMerges(cfg: Config, env: Backend, a: Request, b: Request)
    requires cfg == Config(32, 0) && a.area == b.area
    requires a.address == b.address == 65530 && a.count == 6 && b.count == 2
    ensures var m := Exec(cfg, [Arrival(a, false, env), Arrival(b, false, env)]);
            m.phase == Batching([a, b], 65530, 65532) && m.sent == [] && m.now == 2
  {
    var first := [Arrival(a, false, env)];
    Extend(cfg, [], first[0]);
    assert [] + [first[0]] == first;
    Extend(cfg, first, Arrival(b, false, env));
    assert first + [Arrival(b, false, env)] == [Arrival(a, false, env), Arrival(b, false, env)];
    var m := Exec(cfg, first);
    assert m.phase == Batching([a], 65530, 0);
    PairJoins(cfg, m.(taken := m.taken + [b]), env, a, b);
  }

  lemma TimerFlushes(cfg: Config, es: seq<Event>, env: Backend)
    requires Exec(cfg, es).phase.Batching?
    ensures var m := Exec(cfg, es);
            Exec(cfg, es + [Timer(env)]).sent
            == m.sent + Flush(m.phase.batch, m.phase.minAddr, m.phase.maxEnd, env, m.now).sent
  {
    Extend(cfg, es, Timer(env));
  }

  lemma FlushPair(env: Backend, a: Request, b: Request, at: nat)
    requires env.cancelled == {} && env.outcome == Full && a.address == 65530 && a.count == 6
    ensures var sent := Flush([a, b], 65530, 65532, env, at).sent;
            |sent| == 2 && sent[0] == Sent(a, TooShort, at, 2, Some(65530))
  {
    FlushUncancelled([a, b], 65530, 65532, env, at);
    SliceIsDirect(env.memory, a, 65530, 2);
  }

  lemma PairThenTimer(cfg: Config, env: Backend, a: Request, b: Request)
    requires env.cancelled == {} && env.outcome == Full && cfg == Config(32, 0) && a.area == b.area
    requires a.address == b.address == 65530 && a.count == 6 && b.count == 2
    ensures var sent := Exec(cfg, [Arrival(a, false, env), Arrival(b, false, env), Timer(env)]).sent;
            |sent| == 2 && sent[0] == Sent(a, TooShort, 2, 2, Some(65530))
  {
    var pair := [Arrival(a, false, env), Arrival(b, false, env)];
    PairMerges(cfg, env, a, b);
    TimerFlushes(cfg, pair, env);
    assert pair + [Timer(env)] == [Arrival(a, false, env), Arrival(b, false, env), Timer(env)];
    FlushPair(env, a, b, 2);
  }
}
