/** The order of what one goroutine does in reconnect() (client.go:403-500), over the runs of the reconnect machine:
    which checks come before a dial, and after what there is no dial any more. */
module ReconnectRuns {
  import opened Bytes
  import opened Reconnect

  predicate Runs(run: seq<Step>) { Exec(INITIAL, run).Some? }

  /** The state before step k. */
  function Before(run: seq<Step>, k: nat): State
    requires k <= |run| && Runs(run[..k])
  {
    Exec(INITIAL, run[..k]).value
  }

  lemma OneMoreStep(run: seq<Step>, step: Step)
    ensures Runs(run + [step]) <==> Runs(run) && Enabled(Exec(INITIAL, run).value, step)
    ensures Runs(run + [step]) ==> Exec(INITIAL, run + [step]).value == Apply(Exec(INITIAL, run).value, step)
  {
    ExecConcat(INITIAL, run, [step]);
    if Runs(run) && Enabled(Exec(INITIAL, run).value, step) {
      Prepend(Exec(INITIAL, run).value, step, []);
      assert [step] + [] == [step];
    }
  }

  lemma {:induction false} PrefixRuns(run: seq<Step>, k: nat)
    requires Runs(run) && k <= |run|
    ensures Runs(run[..k])
    decreases |run| - k
  {
    ExecConcat(INITIAL, run[..k], run[k..]);
    assert run[..k] + run[k..] == run;
  }

  /** Step k of a run, on the state before it. */
  lemma StepOfRun(run: seq<Step>, k: nat)
    requires Runs(run) && k < |run|
    ensures Runs(run[..k]) && Enabled(Before(run, k), run[k])
    ensures Runs(run[..k + 1]) && Before(run, k + 1) == Apply(Before(run, k), run[k])
  {
    PrefixRuns(run, k);
    PrefixRuns(run, k + 1);
    OneMoreStep(run[..k], run[k]);
    assert run[..k] + [run[k]] == run[..k + 1];
  }

  predicate DialBy(step: Step, g: nat) { step.Dial? && step.g == g }

  // ---------- Checks before a dial ----------

  /** At step k goroutine g finds the closed flag clear. */
  predicate FoundOpen(run: seq<Step>, k: nat, g: nat) {
    k < |run| && run[k] == TestClosed(g) && Runs(run[..k]) && !Before(run, k).Closed()
  }

  /** At step l goroutine g finds auto-reconnect on and its retries not used up. */
  predicate FoundEnabled(run: seq<Step>, l: nat, g: nat) {
    l < |run| && run[l] == TestEnabled(g, false) && Runs(run[..l]) && Before(run, l).autoReconnect
  }

  predicate NoDial(run: seq<Step>, from: nat, to: nat, g: nat)
    requires to <= |run|
  {
    forall x :: from <= x < to ==> !DialBy(run[x], g)
  }

  ghost predicate OnePassed(run: seq<Step>, g: nat) {
    exists k: nat :: FoundOpen(run, k, g) && NoDial(run, k, |run|, g)
  }

  ghost predicate BothPassed(run: seq<Step>, g: nat) {
    exists k: nat, l: nat :: k < l && FoundOpen(run, k, g) && FoundEnabled(run, l, g) && NoDial(run, k, |run|, g)
  }

  /** A goroutine past a check has made it since its last dial. */
  ghost predicate Tracked(run: seq<Step>, g: nat)
    requires Runs(run)
  {
    var stages := Exec(INITIAL, run).value.stages;
    g < |stages| ==>
      && (stages[g].Deciding? ==> OnePassed(run, g))
      && (stages[g].Closing? || stages[g].Clearing? || stages[g].Dialling? ==> BothPassed(run, g))
  }

  lemma PassedStill(run: seq<Step>, step: Step, g: nat)
    requires !DialBy(step, g)
    ensures OnePassed(run, g) ==> OnePassed(run + [step], g)
    ensures BothPassed(run, g) ==> BothPassed(run + [step], g)
  {
    var longer := run + [step];
    if OnePassed(run, g) {
      var k: nat :| FoundOpen(run, k, g) && NoDial(run, k, |run|, g);
      assert longer[..k] == run[..k];
      assert FoundOpen(longer, k, g) && NoDial(longer, k, |longer|, g);
    }
    if BothPassed(run, g) {
      var k: nat, l: nat :|
        k < l && FoundOpen(run, k, g) && FoundEnabled(run, l, g) && NoDial(run, k, |run|, g);
      assert longer[..k] == run[..k] && longer[..l] == run[..l];
      assert FoundOpen(longer, k, g) && FoundEnabled(longer, l, g) && NoDial(longer, k, |longer|, g);
    }
  }

  lemma OpenIsOnePassed(run: seq<Step>, g: nat)
    requires Runs(run) && !Exec(INITIAL, run).value.Closed()
    ensures OnePassed(run + [TestClosed(g)], g)
  {
    var longer := run + [TestClosed(g)];
    assert longer[..|run|] == run;
    assert FoundOpen(longer, |run|, g) && NoDial(longer, |run|, |longer|, g);
  }

  lemma EnabledIsBothPassed(run: seq<Step>, g: nat)
    requires Runs(run) && Exec(INITIAL, run).value.autoReconnect && OnePassed(run, g)
    ensures BothPassed(run + [TestEnabled(g, false)], g)
  {
    var longer := run + [TestEnabled(g, false)];
    var k: nat :| FoundOpen(run, k, g) && NoDial(run, k, |run|, g);
    assert longer[..|run|] == run && longer[..k] == run[..k];
    assert FoundOpen(longer, k, g) && FoundEnabled(longer, |run|, g) && NoDial(longer, k, |longer|, g);
  }

  lemma StepKeepsTracked(run: seq<Step>, step: Step, g: nat)
    requires Runs(run) && Tracked(run, g) && Runs(run + [step])
    ensures Tracked(run + [step], g)
  {
    OneMoreStep(run, step);
    if !DialBy(step, g) {
      PassedStill(run, step, g);
    }
    var s := Exec(INITIAL, run).value;
    if step == TestClosed(g) && !s.Closed() {
      OpenIsOnePassed(run, g);
    } else if step == TestEnabled(g, false) && s.autoReconnect {
      EnabledIsBothPassed(run, g);
    }
  }

  lemma {:induction false} RunIsTracked(run: seq<Step>, g: nat)
    requires Runs(run)
    ensures Tracked(run, g)
  {
    if run != [] {
      var init, last := run[..|run| - 1], run[|run| - 1];
      assert run == init + [last];
      OneMoreStep(init, last);
      RunIsTracked(init, g);
      StepKeepsTracked(init, last, g);
    }
  }

  /** In every run each dial of a goroutine comes after a test of the closed flag that found it clear and then a
      test that found auto-reconnect on and retries left, both since its previous dial. */
  lemma EveryDialIsChecked(run: seq<Step>, j: nat, g: nat)
    requires Runs(run) && j < |run| && DialBy(run[j], g)
    ensures exists k: nat, l: nat ::
              k < l < j && FoundOpen(run, k, g) && FoundEnabled(run, l, g) && NoDial(run, k, j, g)
  {
    StepOfRun(run, j);
    RunIsTracked(run[..j], g);
    var k: nat, l: nat :|
      k < l && FoundOpen(run[..j], k, g) && FoundEnabled(run[..j], l, g) && NoDial(run[..j], k, j, g);
    assert run[..j][..k] == run[..k] && run[..j][..l] == run[..l];
    assert FoundOpen(run, k, g) && FoundEnabled(run, l, g) && NoDial(run, k, j, g);
  }

  /** A failed dial starts over: before the goroutine dials again it makes both checks again. */
  lemma FailedDialStartsOver(run: seq<Step>, i: nat, j: nat, g: nat)
    requires Runs(run) && i < j < |run| && run[i] == Dial(g, false) && DialBy(run[j], g)
    ensures exists k: nat, l: nat :: i < k < l < j && FoundOpen(run, k, g) && FoundEnabled(run, l, g)
  {
    EveryDialIsChecked(run, j, g);
    var k: nat, l: nat :|
      k < l < j && FoundOpen(run, k, g) && FoundEnabled(run, l, g) && NoDial(run, k, j, g);
    assert DialBy(run[i], g);
  }

  lemma {:induction false} FlagStays(run: seq<Step>, c: nat, k: nat)
    requires Runs(run) && c < k <= |run| && run[c] == SetClosed
    ensures Runs(run[..k]) && Before(run, k).Closed()
    decreases k
  {
    StepOfRun(run, k - 1);
    if c < k - 1 {
      FlagStays(run, c, k - 1);
    }
  }

  /** After the closed flag is set a goroutine dials at most once, whether that dial fails or not; so one whose dial
      failed opens nothing any more. */
  lemma OneDialAfterClose(run: seq<Step>, c: nat, i: nat, j: nat, g: nat)
    requires Runs(run) && c < i < j < |run| && run[c] == SetClosed && DialBy(run[j], g)
    ensures !DialBy(run[i], g)
  {
    EveryDialIsChecked(run, j, g);
    var k: nat, l: nat :|
      k < l < j && FoundOpen(run, k, g) && FoundEnabled(run, l, g) && NoDial(run, k, j, g);
    if k > i {
      FlagStays(run, c, k);
    }
  }

  // ---------- No dial any more ----------

  /** Stages from which a goroutine does not come back to a dial. */
  predicate Past(stage: Stage) { stage.Holding? || stage.Announcing? || stage.Leaving? || stage.Gone? }

  lemma {:induction false} PastStays(run: seq<Step>, i: nat, j: nat, g: nat)
    requires Runs(run) && i <= j <= |run|
    requires Runs(run[..i]) && g < |Before(run, i).stages| && Past(Before(run, i).stages[g])
    ensures Runs(run[..j]) && g < |Before(run, j).stages| && Past(Before(run, j).stages[g])
    decreases j
  {
    if i < j {
      PastStays(run, i, j - 1, g);
      StepOfRun(run, j - 1);
    }
  }

  /** A goroutine is done dialling. */
  predicate Ends(s: State, step: Step, g: nat) {
    || step == Dial(g, true)
    || step == TestEnabled(g, true)
    || (step == TestEnabled(g, false) && !s.autoReconnect)
    || (step == TestClosed(g) && s.Closed())
    || (step == Enter(g) && s.reconnecting)
    || step == Leave(g)
  }

  /** A goroutine that has dialled successfully, has used up its retries, finds auto-reconnect off or the client
      closed, finds another goroutine reconnecting, or has left, never dials again. */
  lemma NoDialAfterEnd(run: seq<Step>, i: nat, j: nat, g: nat)
    requires Runs(run) && i < j < |run| && Runs(run[..i]) && Ends(Before(run, i), run[i], g)
    ensures !DialBy(run[j], g)
  {
    StepOfRun(run, i);
    PastStays(run, i + 1, j, g);
    StepOfRun(run, j);
  }
}
