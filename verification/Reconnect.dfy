/** The reconnect machine (client.go:301-354, 403-525): listen loops and triggered goroutines race to
    reconnect while the client may be closed; which transports can be open at the same time.

    Every step is one atomic action of one goroutine; any number of goroutines interleave. */
module Reconnect {
  import opened Bytes

  /** Where a goroutine that called reconnect() stands. */
  datatype Stage =
    | Entering                 // before the test-and-set of `reconnecting`
    | Checking                 // top of the loop, before IsClosed()
    | Deciding                 // IsClosed() was false; autoReconnect and the retry count come next
    | Closing                  // about to close the existing transport
    | Clearing                 // closed it; about to set c.tr to nil
    | Dialling
    | Holding(transport: nat)  // dialled, not yet stored in c.tr
    | Announcing               // stored it; connected signal, new listener, plugins
    | Leaving                  // before the deferred reset of `reconnecting`
    | Gone

  /** Progress of Close(): the flag first, then the transport found in c.tr. */
  datatype Shutdown = Running | FlagSet | Finished

  datatype State = State(
    reconnecting: bool,
    autoReconnect: bool,
    shutdown: Shutdown,
    tr: Option<nat>,       // c.tr
    open: set<nat>,        // transports dialled and not closed
    next: nat,             // transports dialled so far
    stages: seq<Stage>)    // one for each goroutine that called reconnect()
  {
    /** The closed flag. */
    predicate Closed() { !shutdown.Running? }
  }

  datatype Step =
    | Spawn
    | SetAutoReconnect(enabled: bool)
    | SetClosed
    | CloseTransport
    | Enter(g: nat)
    | TestClosed(g: nat)
    | TestEnabled(g: nat, exhausted: bool)
    | CloseOld(g: nat)
    | ClearOld(g: nat)
    | Dial(g: nat, ok: bool)
    | Store(g: nat)
    | Announce(g: nat)
    | Leave(g: nat)

  /** A client just connected over transport 0. */
  const INITIAL: State := State(false, false, Running, Some(0), {0}, 1, [])

  predicate At(s: State, g: nat, stage: Stage) { g < |s.stages| && s.stages[g] == stage }

  predicate Enabled(s: State, step: Step) {
    match step
    case Spawn => true
    case SetAutoReconnect(_) => true
    case SetClosed => s.shutdown.Running?
    case CloseTransport => s.shutdown.FlagSet?
    case Enter(g) => At(s, g, Entering)
    case TestClosed(g) => At(s, g, Checking)
    case TestEnabled(g, _) => At(s, g, Deciding)
    case CloseOld(g) => At(s, g, Closing)
    case ClearOld(g) => At(s, g, Clearing)
    case Dial(g, _) => At(s, g, Dialling)
    case Store(g) => g < |s.stages| && s.stages[g].Holding?
    case Announce(g) => At(s, g, Announcing)
    case Leave(g) => At(s, g, Leaving)
  }

  function ToSet(tr: Option<nat>): set<nat> { if tr.Some? then {tr.value} else {} }

  function Move(s: State, g: nat, stage: Stage): State
    requires g < |s.stages|
  {
    s.(stages := s.stages[g := stage])
  }

  function Apply(s: State, step: Step): State
    requires Enabled(s, step)
  {
    match step
    case Spawn => s.(stages := s.stages + [Entering])
    case SetAutoReconnect(enabled) => s.(autoReconnect := enabled)
    case SetClosed => s.(shutdown := FlagSet)
    case CloseTransport => s.(shutdown := Finished, open := s.open - ToSet(s.tr))
    case Enter(g) => if s.reconnecting then Move(s, g, Gone) else Move(s, g, Checking).(reconnecting := true)
    case TestClosed(g) => Move(s, g, if s.Closed() then Leaving else Deciding)
    case TestEnabled(g, exhausted) => Move(s, g, if !s.autoReconnect || exhausted then Leaving else Closing)
    case CloseOld(g) => if s.tr.None? then Move(s, g, Dialling) else Move(s, g, Clearing).(open := s.open - ToSet(s.tr))
    case ClearOld(g) => Move(s, g, Dialling).(tr := None)
    case Dial(g, ok) => if ok then Move(s, g, Holding(s.next)).(open := s.open + {s.next}, next := s.next + 1)
                        else Move(s, g, Checking)
    case Store(g) => Move(s, g, Announcing).(tr := Some(s.stages[g].transport))
    case Announce(g) => Move(s, g, Leaving)
    case Leave(g) => Move(s, g, Gone).(reconnecting := false)
  }

  /** The state after a run, if every step of it was enabled. */
  function Exec(s: State, run: seq<Step>): Option<State>
    decreases |run|
  {
    if run == [] then Some(s)
    else if Enabled(s, run[0]) then Exec(Apply(s, run[0]), run[1..])
    else None
  }

  // ---------- Mutual exclusion and one transport ----------

  /** Between the test-and-set and the deferred reset. */
  predicate Inside(stage: Stage) { !stage.Entering? && !stage.Gone? }

  ghost predicate OneInside(s: State) {
    && (s.reconnecting <==> exists g :: 0 <= g < |s.stages| && Inside(s.stages[g]))
    && (forall g, h ::
          0 <= g < |s.stages| && 0 <= h < |s.stages| && Inside(s.stages[g]) && Inside(s.stages[h]) ==> g == h)
  }

  /** What the stage of the goroutine inside says about c.tr and the open transports. */
  predicate StageOk(s: State, stage: Stage) {
    match stage
    case Clearing => s.open == {}
    case Dialling => s.tr == None && s.open == {}
    case Holding(t) => s.tr == None && s.open == {t}
    case _ => s.open <= ToSet(s.tr)
  }

  ghost predicate Inv(s: State) {
    && OneInside(s)
    && (forall g :: 0 <= g < |s.stages| && Inside(s.stages[g]) ==> StageOk(s, s.stages[g]))
    && (!s.reconnecting ==> s.open <= ToSet(s.tr))
  }

  lemma MoveInside(s: State, g: nat, stage: Stage)
    requires OneInside(s) && g < |s.stages| && Inside(s.stages[g]) && Inside(stage)
    ensures OneInside(Move(s, g, stage))
  {
    var s' := Move(s, g, stage);
    assert Inside(s'.stages[g]);
  }

  lemma EnterKeepsInv(s: State, g: nat)
    requires Inv(s) && Enabled(s, Enter(g))
    ensures Inv(Apply(s, Enter(g)))
  {
    var s' := Apply(s, Enter(g));
    if s.reconnecting {
      var h :| 0 <= h < |s.stages| && Inside(s.stages[h]);
      assert s'.stages[h] == s.stages[h];
    } else {
      assert Inside(s'.stages[g]);
    }
  }

  lemma LeaveKeepsInv(s: State, g: nat)
    requires Inv(s) && Enabled(s, Leave(g))
    ensures Inv(Apply(s, Leave(g)))
  {
    assert StageOk(s, s.stages[g]);
  }

  lemma SpawnKeepsInv(s: State)
    requires Inv(s)
    ensures Inv(Apply(s, Spawn))
  {
    var s' := Apply(s, Spawn);
    if s.reconnecting {
      var h :| 0 <= h < |s.stages| && Inside(s.stages[h]);
      assert s'.stages[h] == s.stages[h];
    }
  }

  /** Steps of the goroutine inside: it stays inside, and its new stage fits the new transports. */
  lemma InsideStepKeepsInv(s: State, step: Step, g: nat)
    requires Inv(s) && Enabled(s, step) && g < |s.stages| && Inside(s.stages[g])
    requires step in {TestClosed(g), CloseOld(g), ClearOld(g), Dial(g, true), Dial(g, false), Store(g), Announce(g),
                      TestEnabled(g, true), TestEnabled(g, false)}
    ensures Inv(Apply(s, step))
  {
    var s' := Apply(s, step);
    assert StageOk(s, s.stages[g]);
    MoveInside(s, g, s'.stages[g]);
    assert s.reconnecting;
    assert StageOk(s', s'.stages[g]);
  }

  lemma StepKeepsInv(s: State, step: Step)
    requires Inv(s) && Enabled(s, step)
    ensures Inv(Apply(s, step))
  {
    match step
    case Spawn => SpawnKeepsInv(s);
    case SetAutoReconnect(_) =>
    case SetClosed =>
    case CloseTransport =>
    case Enter(g) => EnterKeepsInv(s, g);
    case Leave(g) => LeaveKeepsInv(s, g);
    case TestClosed(g) => InsideStepKeepsInv(s, step, g);
    case TestEnabled(g, _) => InsideStepKeepsInv(s, step, g);
    case CloseOld(g) => InsideStepKeepsInv(s, step, g);
    case ClearOld(g) => InsideStepKeepsInv(s, step, g);
    case Dial(g, _) => InsideStepKeepsInv(s, step, g);
    case Store(g) => InsideStepKeepsInv(s, step, g);
    case Announce(g) => InsideStepKeepsInv(s, step, g);
  }

  lemma {:induction false} RunKeepsInv(s: State, run: seq<Step>)
    requires Inv(s) && Exec(s, run).Some?
    ensures Inv(Exec(s, run).value)
    decreases |run|
  {
    if run != [] {
      StepKeepsInv(s, run[0]);
      RunKeepsInv(Apply(s, run[0]), run[1..]);
    }
  }

  /** In every interleaving, `reconnecting` is true exactly while one goroutine, and no other, is between its
      test-and-set and its deferred reset; and at most one transport is open, the one in c.tr or the one that
      goroutine has just dialled. */
  lemma OneReconnectOneTransport(run: seq<Step>)
    requires Exec(INITIAL, run).Some?
    ensures var s := Exec(INITIAL, run).value;
            && OneInside(s)
            && |s.open| <= 1
            && forall t :: t in s.open ==> s.tr == Some(t) || Holding(t) in s.stages
  {
    RunKeepsInv(INITIAL, run);
    var s := Exec(INITIAL, run).value;
    if s.reconnecting {
      var g :| 0 <= g < |s.stages| && Inside(s.stages[g]);
      assert StageOk(s, s.stages[g]);
      AtMostOne(s.open, if s.stages[g].Holding? then Some(s.stages[g].transport) else s.tr);
    } else {
      AtMostOne(s.open, s.tr);
    }
  }

  lemma AtMostOne(open: set<nat>, t: Option<nat>)
    requires open <= ToSet(t)
    ensures |open| <= 1
  {
    if open != {} {
      assert open == {t.value};
    }
  }

  // ---------- Closing the client ----------

  /** Past every check of an attempt, and the new transport not yet in c.tr. */
  predicate Replacing(stage: Stage) { stage.Closing? || stage.Clearing? || stage.Dialling? || stage.Holding? }

  /** Past the check of the closed flag and not stopped by any other; settled says that nobody changes the
      autoReconnect setting any more. */
  predicate MidAttempt(s: State, g: nat, settled: bool) {
    g < |s.stages| && (Replacing(s.stages[g]) || (s.stages[g].Deciding? && (s.autoReconnect || !settled)))
  }

  ghost predicate NoneMidAttempt(s: State, settled: bool) { forall g: nat :: !MidAttempt(s, g, settled) }

  /** Once the flag is set with no attempt under way, none starts and Close() closes what is open. */
  ghost predicate ClosedCleanly(s: State, settled: bool) {
    s.Closed() && NoneMidAttempt(s, settled) && (s.shutdown.Finished? ==> s.open == {})
  }

  predicate Allowed(step: Step, settled: bool) { settled ==> !step.SetAutoReconnect? }

  predicate AllAllowed(run: seq<Step>, settled: bool) { forall i :: 0 <= i < |run| ==> Allowed(run[i], settled) }

  lemma {:induction false} CleanStaysClean(s: State, run: seq<Step>, settled: bool)
    requires Inv(s) && ClosedCleanly(s, settled) && Exec(s, run).Some? && AllAllowed(run, settled)
    ensures ClosedCleanly(Exec(s, run).value, settled)
    decreases |run|
  {
    if run != [] {
      StepKeepsInv(s, run[0]);
      CleanStepStaysClean(s, run[0], settled);
      CleanStaysClean(Apply(s, run[0]), run[1..], settled);
    }
  }

  /** Only a goroutine in the middle of an attempt opens a transport. */
  lemma OpensOnlyMidAttempt(s: State, step: Step, settled: bool)
    requires Enabled(s, step)
    ensures Apply(s, step).open <= s.open || exists g: nat :: MidAttempt(s, g, settled)
  {
    if step.Dial? {
      assert MidAttempt(s, step.g, settled);
    }
  }

  lemma CleanStepStaysClean(s: State, step: Step, settled: bool)
    requires Inv(s) && ClosedCleanly(s, settled) && Enabled(s, step) && Allowed(step, settled)
    ensures ClosedCleanly(Apply(s, step), settled)
  {
    var s' := Apply(s, step);
    forall g: nat ensures !MidAttempt(s', g, settled) {
      assert !MidAttempt(s, g, settled);
    }
    if step.CloseTransport? && s.reconnecting {
      var g :| 0 <= g < |s.stages| && Inside(s.stages[g]);
      assert StageOk(s, s.stages[g]) && !MidAttempt(s, g, settled);
    }
    OpensOnlyMidAttempt(s, step, settled);
  }

  /** Close() has returned and every goroutine that called reconnect() has left, yet a transport is open. */
  ghost predicate LeftOpen(s: State) {
    && s.shutdown.Finished? && s.open != {}
    && forall g :: 0 <= g < |s.stages| ==> !Inside(s.stages[g])
  }

  /** And nothing that can still happen, new goroutines included, ever closes it. */
  ghost predicate Leaked(s: State) {
    LeftOpen(s) && forall more :: Exec(s, more).Some? ==> Exec(s, more).value.open == s.open
  }

  /** Closed for good: no goroutine is where it could dial or close a transport. */
  ghost predicate Dormant(s: State) {
    && s.shutdown.Finished?
    && forall g :: 0 <= g < |s.stages| ==> !s.stages[g].Deciding? && !Replacing(s.stages[g])
  }

  lemma {:induction false} DormantStays(s: State, run: seq<Step>)
    requires Dormant(s) && Exec(s, run).Some?
    ensures Exec(s, run).value.open == s.open
    decreases |run|
  {
    if run != [] {
      DormantStays(Apply(s, run[0]), run[1..]);
    }
  }

  lemma LeftOpenIsLeaked(s: State)
    requires LeftOpen(s)
    ensures Leaked(s)
  {
    forall more | Exec(s, more).Some? ensures Exec(s, more).value.open == s.open {
      DormantStays(s, more);
    }
  }

  /** Some continuation ends with a leaked transport. */
  ghost predicate CanLeak(s: State, settled: bool) {
    exists run :: AllAllowed(run, settled) && Exec(s, run).Some? && Leaked(Exec(s, run).value)
  }

  /** The rest of a successful attempt, from the dial on, after Close() has returned. */
  lemma DialLeaks(s: State, g: nat, settled: bool)
    requires Inv(s) && At(s, g, Dialling) && s.shutdown.Finished?
    ensures CanLeak(s, settled)
  {
    StepKeepsInv(s, Dial(g, true));
    HoldLeaks(Apply(s, Dial(g, true)), g, settled);
    StepThenLeak(s, Dial(g, true), settled);
  }

  lemma HoldLeaks(s: State, g: nat, settled: bool)
    requires Inv(s) && g < |s.stages| && s.stages[g].Holding? && s.shutdown.Finished?
    ensures CanLeak(s, settled)
  {
    assert StageOk(s, s.stages[g]);
    var s1 := Apply(s, Store(g));
    var s2 := Apply(s1, Announce(g));
    var s3 := Apply(s2, Leave(g));
    assert s.stages[g].transport in s3.open;
    forall h | 0 <= h < |s3.stages| ensures !Inside(s3.stages[h]) {
      if h != g { assert s3.stages[h] == s.stages[h]; }
    }
    LeftOpenIsLeaked(s3);
    assert Exec(s3, []) == Some(s3);
    StepThenLeak(s2, Leave(g), settled);
    StepThenLeak(s1, Announce(g), settled);
    StepThenLeak(s, Store(g), settled);
  }

  lemma Prepend(s: State, step: Step, run: seq<Step>)
    requires Enabled(s, step)
    ensures Exec(s, [step] + run) == Exec(Apply(s, step), run)
  {
    assert ([step] + run)[1..] == run;
  }

  lemma StepThenLeak(s: State, step: Step, settled: bool)
    requires Enabled(s, step) && Allowed(step, settled) && CanLeak(Apply(s, step), settled)
    ensures CanLeak(s, settled)
  {
    var run :| AllAllowed(run, settled) && Exec(Apply(s, step), run).Some? && Leaked(Exec(Apply(s, step), run).value);
    Prepend(s, step, run);
  }

  lemma MidAttemptLeaks(s: State, g: nat, settled: bool)
    requires Inv(s) && MidAttempt(s, g, settled) && s.shutdown.Finished?
    ensures CanLeak(s, settled)
    decreases match s.stages[g]
              case Deciding => (if s.autoReconnect then 3 else 4)
              case Closing => 2
              case Clearing => 1
              case _ => 0
  {
    match s.stages[g]
    case Deciding =>
      var step := if s.autoReconnect then TestEnabled(g, false) else SetAutoReconnect(true);
      StepKeepsInv(s, step);
      MidAttemptLeaks(Apply(s, step), g, settled);
      StepThenLeak(s, step, settled);
    case Closing =>
      StepKeepsInv(s, CloseOld(g));
      MidAttemptLeaks(Apply(s, CloseOld(g)), g, settled);
      StepThenLeak(s, CloseOld(g), settled);
    case Clearing =>
      StepKeepsInv(s, ClearOld(g));
      MidAttemptLeaks(Apply(s, ClearOld(g)), g, settled);
      StepThenLeak(s, ClearOld(g), settled);
    case Dialling => DialLeaks(s, g, settled);
    case Holding(_) => HoldLeaks(s, g, settled);
  }

  lemma FlagLeaksWhen(s: State, settled: bool)
    requires Inv(s) && s.shutdown.Running?
    ensures CanLeak(Apply(s, SetClosed), settled) <==> exists g: nat :: MidAttempt(s, g, settled)
  {
    var closed := Apply(s, SetClosed);
    StepKeepsInv(s, SetClosed);
    forall g: nat ensures MidAttempt(closed, g, settled) == MidAttempt(s, g, settled) {
    }
    if g: nat :| MidAttempt(s, g, settled) {
      StepKeepsInv(closed, CloseTransport);
      MidAttemptLeaks(Apply(closed, CloseTransport), g, settled);
      StepThenLeak(closed, CloseTransport, settled);
    } else if CanLeak(closed, settled) {
      var more :| AllAllowed(more, settled) && Exec(closed, more).Some? && Leaked(Exec(closed, more).value);
      CleanStaysClean(closed, more, settled);
    }
  }

  /** After any run, Close() leaves a transport open for good in some continuation if and only if, when it sets
      the flag, some goroutine is past its own check of the flag and not yet done storing the new transport. */
  lemma CloseLeaksWhen(run: seq<Step>)
    requires Exec(INITIAL, run).Some? && Exec(INITIAL, run).value.shutdown.Running?
    ensures var s := Exec(INITIAL, run).value;
            CanLeak(Apply(s, SetClosed), false) <==>
              exists g :: 0 <= g < |s.stages| && (s.stages[g].Deciding? || Replacing(s.stages[g]))
  {
    RunKeepsInv(INITIAL, run);
    var s := Exec(INITIAL, run).value;
    FlagLeaksWhen(s, false);
    assert forall g: nat ::
      MidAttempt(s, g, false) <==> g < |s.stages| && (s.stages[g].Deciding? || Replacing(s.stages[g]));
  }

  /** What a caller can check first: a client that is not reconnecting when the flag is set never leaks. */
  lemma IdleClosesCleanly(run: seq<Step>)
    requires Exec(INITIAL, run).Some?
    requires var s := Exec(INITIAL, run).value; s.shutdown.Running? && !s.reconnecting
    ensures !CanLeak(Apply(Exec(INITIAL, run).value, SetClosed), false)
  {
    RunKeepsInv(INITIAL, run);
    CloseLeaksWhen(run);
  }

  lemma {:induction false} SettingStays(s: State, run: seq<Step>)
    requires Exec(s, run).Some? && AllAllowed(run, true)
    ensures Exec(s, run).value.autoReconnect == s.autoReconnect
    decreases |run|
  {
    if run != [] {
      SettingStays(Apply(s, run[0]), run[1..]);
    }
  }

  /** Shutdown() is promised to stop reconnection attempts. It turns autoReconnect off and then closes, with any
      steps of the goroutines in between. If nobody changes that setting again, a transport can still be left
      open for good if and only if, when the flag is set, some goroutine is replacing the old transport. */
  lemma ShutdownLeaksWhen(run: seq<Step>, between: seq<Step>)
    requires Exec(INITIAL, run).Some? && AllAllowed(between, true)
    requires var off := Apply(Exec(INITIAL, run).value, SetAutoReconnect(false));
             Exec(off, between).Some? && Exec(off, between).value.shutdown.Running?
    ensures var s := Exec(Apply(Exec(INITIAL, run).value, SetAutoReconnect(false)), between).value;
            CanLeak(Apply(s, SetClosed), true) <==> exists g :: 0 <= g < |s.stages| && Replacing(s.stages[g])
  {
    RunKeepsInv(INITIAL, run);
    var before := Exec(INITIAL, run).value;
    StepKeepsInv(before, SetAutoReconnect(false));
    var off := Apply(before, SetAutoReconnect(false));
    RunKeepsInv(off, between);
    SettingStays(off, between);
    var s := Exec(off, between).value;
    FlagLeaksWhen(s, true);
    assert forall g: nat :: MidAttempt(s, g, true) <==> g < |s.stages| && Replacing(s.stages[g]);
  }

  // ---------- Two runs that leak ----------

  /** One goroutine passes its checks. */
  const ATTEMPT: seq<Step> := [SetAutoReconnect(true), Spawn, Enter(0), TestClosed(0), TestEnabled(0, false)]

  /** Its attempt goes on and succeeds after the client is closed. */
  const CLOSED_MEANWHILE: seq<Step> :=
    [SetClosed, CloseTransport, CloseOld(0), ClearOld(0), Dial(0, true), Store(0), Announce(0), Leave(0)]

  /** Where that leaves the client: about to close transport 0 and dial another. */
  const PASSED: State := State(true, true, Running, Some(0), {0}, 1, [Closing])

  predicate Leads(s: State, step: Step, t: State) { Enabled(s, step) && Apply(s, step) == t }

  /** With at most one goroutine, its stage is all there is to compare. */
  lemma LeadsTo(s: State, step: Step, t: State)
    requires Enabled(s, step)
    requires var r := Apply(s, step); |r.stages| == |t.stages| <= 1 && r.(stages := t.stages) == t
    requires t.stages != [] ==> Apply(s, step).stages[0] == t.stages[0]
    ensures Leads(s, step, t)
  {
    assert Apply(s, step).stages == t.stages;
  }

  ghost predicate Path(states: seq<State>, run: seq<Step>) {
    |states| == |run| + 1 && forall k :: 0 <= k < |run| ==> Leads(states[k], run[k], states[k + 1])
  }

  lemma {:induction false} PathRuns(states: seq<State>, run: seq<Step>)
    requires Path(states, run)
    ensures Exec(states[0], run) == Some(states[|run|])
    decreases |run|
  {
    if run != [] {
      assert Leads(states[0], run[0], states[1]);
      PathRuns(states[1..], run[1..]);
    }
  }

  /** One goroutine at this stage. */
  function Alone(s: State, stage: Stage): State { s.(stages := [stage]) }

  function AttemptStates(): seq<State> {
    var on := INITIAL.(autoReconnect := true);
    var inside := on.(reconnecting := true);
    [INITIAL, on, Alone(on, Entering), Alone(inside, Checking), Alone(inside, Deciding), Alone(inside, Closing)]
  }

  lemma AttemptPath()
    ensures Path(AttemptStates(), ATTEMPT)
  {
    var states := AttemptStates();
    LeadsTo(states[0], ATTEMPT[0], states[1]);
    LeadsTo(states[1], ATTEMPT[1], states[2]);
    LeadsTo(states[2], ATTEMPT[2], states[3]);
    LeadsTo(states[3], ATTEMPT[3], states[4]);
    LeadsTo(states[4], ATTEMPT[4], states[5]);
  }

  /** A closed client whose goroutine is at this stage. */
  function ClosedAt(enabled: bool, stage: Stage, tr: Option<nat>, open: set<nat>, next: nat): State {
    State(true, enabled, Finished, tr, open, next, [stage])
  }

  /** The end: closed, everybody gone, transport 1 open in c.tr. */
  function LeakedState(enabled: bool): State { State(false, enabled, Finished, Some(1), {1}, 2, [Gone]) }

  function MeanwhileStates(enabled: bool): seq<State> {
    [PASSED.(autoReconnect := enabled), PASSED.(autoReconnect := enabled, shutdown := FlagSet),
     ClosedAt(enabled, Closing, Some(0), {}, 1), ClosedAt(enabled, Clearing, Some(0), {}, 1),
     ClosedAt(enabled, Dialling, None, {}, 1), ClosedAt(enabled, Holding(1), None, {1}, 2),
     ClosedAt(enabled, Announcing, Some(1), {1}, 2), ClosedAt(enabled, Leaving, Some(1), {1}, 2), LeakedState(enabled)]
  }

  lemma CloseSteps(enabled: bool)
    ensures Leads(PASSED.(autoReconnect := enabled), SetClosed, PASSED.(autoReconnect := enabled, shutdown := FlagSet))
    ensures Leads(PASSED.(autoReconnect := enabled, shutdown := FlagSet), CloseTransport,
        ClosedAt(enabled, Closing, Some(0), {}, 1))
  {
    LeadsTo(PASSED.(autoReconnect := enabled), SetClosed, PASSED.(autoReconnect := enabled, shutdown := FlagSet));
    LeadsTo(PASSED.(autoReconnect := enabled, shutdown := FlagSet), CloseTransport,
        ClosedAt(enabled, Closing, Some(0), {}, 1));
  }

  lemma ReplaceSteps(enabled: bool)
    ensures Leads(ClosedAt(enabled, Closing, Some(0), {}, 1), CloseOld(0), ClosedAt(enabled, Clearing, Some(0), {}, 1))
    ensures Leads(ClosedAt(enabled, Clearing, Some(0), {}, 1), ClearOld(0), ClosedAt(enabled, Dialling, None, {}, 1))
  {
    LeadsTo(ClosedAt(enabled, Closing, Some(0), {}, 1), CloseOld(0), ClosedAt(enabled, Clearing, Some(0), {}, 1));
    LeadsTo(ClosedAt(enabled, Clearing, Some(0), {}, 1), ClearOld(0), ClosedAt(enabled, Dialling, None, {}, 1));
  }

  lemma DialStep(enabled: bool)
    ensures Leads(ClosedAt(enabled, Dialling, None, {}, 1), Dial(0, true), ClosedAt(enabled, Holding(1), None, {1}, 2))
  {
    LeadsTo(ClosedAt(enabled, Dialling, None, {}, 1), Dial(0, true), ClosedAt(enabled, Holding(1), None, {1}, 2));
  }

  lemma LeaveSteps(enabled: bool)
    ensures Leads(ClosedAt(enabled, Holding(1), None, {1}, 2), Store(0), ClosedAt(enabled, Announcing, Some(1), {1}, 2))
    ensures Leads(ClosedAt(enabled, Announcing, Some(1), {1}, 2), Announce(0),
        ClosedAt(enabled, Leaving, Some(1), {1}, 2))
    ensures Leads(ClosedAt(enabled, Leaving, Some(1), {1}, 2), Leave(0), LeakedState(enabled))
  {
    LeadsTo(ClosedAt(enabled, Holding(1), None, {1}, 2), Store(0), ClosedAt(enabled, Announcing, Some(1), {1}, 2));
    LeadsTo(ClosedAt(enabled, Announcing, Some(1), {1}, 2), Announce(0), ClosedAt(enabled, Leaving, Some(1), {1}, 2));
    LeadsTo(ClosedAt(enabled, Leaving, Some(1), {1}, 2), Leave(0), LeakedState(enabled));
  }

  lemma MeanwhilePath(enabled: bool)
    ensures Path(MeanwhileStates(enabled), CLOSED_MEANWHILE)
  {
    CloseSteps(enabled);
    ReplaceSteps(enabled);
    DialStep(enabled);
    LeaveSteps(enabled);
  }

  lemma {:induction false} ExecConcat(s: State, a: seq<Step>, b: seq<Step>)
    ensures Exec(s, a + b) == match Exec(s, a) case None => None case Some(t) => Exec(t, b)
    decreases |a|
  {
    if a == [] {
      assert a + b == b;
    } else if Enabled(s, a[0]) {
      assert (a + b)[1..] == a[1..] + b;
      ExecConcat(Apply(s, a[0]), a[1..], b);
    }
  }

  lemma LeakedStateLeaked(enabled: bool)
    ensures Leaked(LeakedState(enabled))
  {
    assert 1 in LeakedState(enabled).open;
    LeftOpenIsLeaked(LeakedState(enabled));
  }

  /** Both happen: a client closed, by Close() or by Shutdown(), while a goroutine is about to replace its
      transport ends with everybody gone and the new transport open, whatever happens next. */
  lemma ClosingLeaks()
    ensures var closing := Exec(INITIAL, ATTEMPT + CLOSED_MEANWHILE);
            closing.Some? && Leaked(closing.value)
    ensures var shuttingDown := Exec(INITIAL, ATTEMPT + ([SetAutoReconnect(false)] + CLOSED_MEANWHILE));
            shuttingDown.Some? && Leaked(shuttingDown.value)
  {
    AttemptPath();
    PathRuns(AttemptStates(), ATTEMPT);
    MeanwhilePath(true);
    PathRuns(MeanwhileStates(true), CLOSED_MEANWHILE);
    MeanwhilePath(false);
    PathRuns(MeanwhileStates(false), CLOSED_MEANWHILE);
    LeakedStateLeaked(true);
    LeakedStateLeaked(false);
    ExecConcat(INITIAL, ATTEMPT, CLOSED_MEANWHILE);
    ExecConcat(INITIAL, ATTEMPT, [SetAutoReconnect(false)] + CLOSED_MEANWHILE);
    Prepend(PASSED, SetAutoReconnect(false), CLOSED_MEANWHILE);
  }
}
