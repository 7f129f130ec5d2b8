/** Without a half-open budget the lock gap shows: two racing callers are both admitted, which no order
    of the same calls explains. So MaxRequests >= 1 is exactly what linearizability needs. And when it is that a
    delayed recheck comes too late. */
module CircuitRace {
  import opened CircuitMachine
  import opened CircuitThreads
  import opened CircuitLinearization
  import CircuitTrace

  const TARGET := "a"
  const FAIL := Request(FailureCall, TARGET)
  const ASK := Request(AllowCall, TARGET)

  /** Two finished, admitted Allow calls on a circuit that is half-open now; all that went before them failed. */
  predicate Race(s: System, a: Returned, b: Returned) {
    && a in s.log && b in s.log && a.call != b.call
    && a.req == ASK && b.req == ASK && a.answer == Verdict(true) && b.answer == Verdict(true)
    && (forall t | t in s.threads :: s.threads[t].Idle?)
    && (forall d | d in s.log :: d == a || d == b || (d.req == FAIL && d.ret < a.call && d.ret < b.call))
    && CircuitAt(s, TARGET).state == HalfOpen
  }

  lemma IndexOf(lin: seq<Entry>, e: Entry) returns (i: nat)
    requires e in lin
    ensures i < |lin| && lin[i] == e
  {
    i :| 0 <= i < |lin| && lin[i] == e;
  }

  /** In an order that explains a race, nothing but the two Allow calls comes after the first of them. */
  lemma RacersLast(cfg: Config, s: System, lin: seq<Entry>, a: Returned, b: Returned, i: nat, j: nat, k: nat)
    requires Race(s, a, b) && Explains(cfg, s, lin)
    requires i < |lin| && j < |lin| && i < k < |lin|
    requires Matches(lin[i], a) && Matches(lin[j], b)
    ensures k == j
  {
    assert lin[k] in lin && Accounted(s, lin[k]);
    var d :| d in s.log && Matches(lin[k], d);
    if d != a && d != b {
      RealTimeOrder(cfg, s, lin, k, i, d, a);
    }
  }

  /** After an admitted Allow the circuit is closed, or half-open with nothing left to admit. */
  lemma SecondRefused(cfg: Config, c: Circuit, now: int, later: int)
    requires cfg.maxRequests <= 0 && c.halfOpenRequests == 0 && Admits(cfg, c, now)
    ensures var d := Step(cfg, c, Allow(now)); d.state == Closed || (d.state == HalfOpen && !Admits(cfg, d, later))
    ensures Step(cfg, Step(cfg, c, Allow(now)), Allow(later)) == Step(cfg, c, Allow(now))
  {
  }

  lemma ReplayTo(cfg: Config, lin: seq<Entry>, i: nat)
    requires i < |lin| && lin[i].req == ASK
    ensures Replay(cfg, lin[..i + 1], TARGET) == Step(cfg, Replay(cfg, lin[..i], TARGET), Allow(lin[i].now))
    ensures Replay(cfg, lin[..i], TARGET).halfOpenRequests == 0
  {
    assert lin[..i + 1][..i] == lin[..i];
    ReplayIsRun(cfg, lin[..i], TARGET);
    CircuitTrace.HalfOpenRequestsStayZero(cfg, OpsOn(lin[..i], TARGET));
  }

  lemma FirstThenSecond(cfg: Config, s: System, lin: seq<Entry>, a: Returned, b: Returned, i: nat, j: nat)
    requires cfg.maxRequests <= 0 && Race(s, a, b) && i < j < |lin|
    requires Matches(lin[i], a) && Matches(lin[j], b)
    ensures !Explains(cfg, s, lin)
  {
    if Explains(cfg, s, lin) {
      RacersLast(cfg, s, lin, a, b, i, j, i + 1);
      if |lin| > i + 2 { RacersLast(cfg, s, lin, a, b, i, j, i + 2); }
      ReplayTo(cfg, lin, i);
      ReplayTo(cfg, lin, j);
      var c := Replay(cfg, lin[..i], TARGET);
      assert Right(cfg, c, lin[i]) && Right(cfg, Replay(cfg, lin[..j], TARGET), lin[j]);
      assert lin[..j + 1] == lin && Replay(cfg, lin, TARGET) == CircuitAt(s, TARGET);
      SecondRefused(cfg, c, lin[i].now, lin[j].now);
    }
  }

  lemma RaceUnexplained(cfg: Config, s: System, lin: seq<Entry>, a: Returned, b: Returned)
    requires cfg.maxRequests <= 0 && Race(s, a, b)
    ensures !Explains(cfg, s, lin)
  {
    if Explains(cfg, s, lin) {
      var e :| e in lin && Matches(e, a);
      var f :| f in lin && Matches(f, b);
      var i := IndexOf(lin, e);
      var j := IndexOf(lin, f);
      if i < j { FirstThenSecond(cfg, s, lin, a, b, i, j); } else { FirstThenSecond(cfg, s, lin, b, a, j, i); }
    }
  }

  // ----- The race happens -----

  /** A set of systems that the steps do not lead out of. */
  ghost predicate StepClosed(cfg: Config, R: System -> bool) {
    forall s, l | R(s) && Enabled(s, l) :: R(Apply(cfg, s, l))
  }

  /** Only thread 0 has been at work, only failures have been recorded, all at time 0. */
  ghost predicate Failing(cfg: Config, R: System -> bool, s: System) {
    && StepClosed(cfg, R) && R(s)
    && s.clock == 0 && s.threads.Keys <= {0} && PcOf(s, 0) == Idle
    && (forall d | d in s.log :: d.req == FAIL && d.ret < s.step)
  }

  lemma Take(cfg: Config, R: System -> bool, s: System, l: Label) returns (s': System)
    requires StepClosed(cfg, R) && R(s) && Enabled(s, l)
    ensures s' == Apply(cfg, s, l) && R(s')
  {
    s' := Apply(cfg, s, l);
  }

  lemma RecordCalled(cfg: Config, R: System -> bool, s: System) returns (s': System)
    requires Failing(cfg, R, s)
    ensures R(s') && s'.clock == 0 && s'.log == s.log && s'.step > s.step
    ensures s'.threads.Keys == {0} && PcOf(s', 0).Ready? && PcOf(s', 0).req == FAIL
    ensures CircuitAt(s', TARGET) == CircuitAt(s, TARGET) && Bound(s', TARGET, PcOf(s', 0).id)
  {
    s' := Take(cfg, R, s, Call(0, FAIL));
    s' := Take(cfg, R, s', Move(0));
    if PcOf(s', 0).Missed? { s' := Take(cfg, R, s', Move(0)); }
  }

  lemma RecordOne(cfg: Config, R: System -> bool, s: System) returns (s': System)
    requires Failing(cfg, R, s)
    ensures Failing(cfg, R, s') && TARGET in s'.circuits
    ensures CircuitAt(s', TARGET) == Step(cfg, CircuitAt(s, TARGET), Failure(0))
  {
    s' := RecordCalled(cfg, R, s);
    s' := Take(cfg, R, s', Move(0));
    s' := Take(cfg, R, s', Move(0));
    s' := Take(cfg, R, s', Move(0));
  }

  lemma {:induction false} RecordMany(cfg: Config, R: System -> bool, n: nat) returns (s: System)
    requires StepClosed(cfg, R) && R(START)
    ensures Failing(cfg, R, s) && TARGET in s.circuits
    ensures var c := CircuitAt(s, TARGET);
            && c.lastFailure == At(0) && c.state != HalfOpen && c.failures == n + 1
            && (n + 1 >= cfg.failureThreshold ==> c.state == Open)
  {
    if n == 0 {
      s := RecordOne(cfg, R, START);
    } else {
      s := RecordMany(cfg, R, n - 1);
      s := RecordOne(cfg, R, s);
    }
  }

  /** Ready for the race: the target is open and timed out, and no thread has its lock. */
  ghost predicate Waiting(cfg: Config, R: System -> bool, s: System) {
    && StepClosed(cfg, R) && R(s) && TARGET in s.circuits
    && forall t | t in s.threads :: s.threads[t].Idle? || s.threads[t].Gap?
  }

  lemma Hop(cfg: Config, R: System -> bool, s: System, t: nat, pc: Pc) returns (s': System)
    requires StepClosed(cfg, R) && R(s) && Enabled(s, Move(t)) && MoveThread(cfg, s, t) == Goto(s, t, pc)
    ensures s' == Goto(s, t, pc).(step := s.step + 1) && R(s')
  {
    s' := Take(cfg, R, s, Move(t));
  }

  lemma ToGap(cfg: Config, R: System -> bool, s: System, t: nat) returns (s': System)
    requires Waiting(cfg, R, s) && PcOf(s, t).Idle?
    requires CircuitAt(s, TARGET).state == Open && TimedOut(cfg, CircuitAt(s, TARGET), s.clock)
    ensures Waiting(cfg, R, s') && s'.threads == s.threads[t := Gap(ASK, s.step, s.circuits[TARGET])]
    ensures s'.circuits == s.circuits && s'.heap == s.heap && s'.clock == s.clock && s'.log == s.log && s'.step > s.step
  {
    var id := s.circuits[TARGET];
    s' := Take(cfg, R, s, Call(t, ASK));
    s' := Hop(cfg, R, s', t, Ready(ASK, s.step, id));
    s' := Hop(cfg, R, s', t, Deciding(ASK, s.step, id));
    s' := Hop(cfg, R, s', t, Checking(ASK, s.step, id));
    s' := Hop(cfg, R, s', t, Gap(ASK, s.step, id));
  }

  lemma Recheck(cfg: Config, R: System -> bool, s: System, t: nat) returns (s': System)
    requires Waiting(cfg, R, s) && PcOf(s, t).Gap? && PcOf(s, t) == Gap(ASK, PcOf(s, t).call, s.circuits[TARGET])
    ensures R(s') && s'.circuits == s.circuits && s'.clock == s.clock && s'.step == s.step + 2
    ensures s'.threads == s.threads[t := Downgrading(ASK, PcOf(s, t).call, s.circuits[TARGET])] && s'.log == s.log
    ensures CircuitAt(s', TARGET) == TryHalfOpen(cfg, CircuitAt(s, TARGET), s.clock)
  {
    s' := Hop(cfg, R, s, t, Rechecking(ASK, PcOf(s, t).call, s.circuits[TARGET]));
    s' := Take(cfg, R, s', Move(t));
  }

  lemma FromGap(cfg: Config, R: System -> bool, s: System, t: nat) returns (s': System)
    requires Waiting(cfg, R, s) && PcOf(s, t).Gap? && PcOf(s, t) == Gap(ASK, PcOf(s, t).call, s.circuits[TARGET])
    ensures Waiting(cfg, R, s') && s'.threads == s.threads[t := Idle]
    ensures s'.circuits == s.circuits && s'.clock == s.clock && s'.step > s.step
    ensures CircuitAt(s', TARGET) == TryHalfOpen(cfg, CircuitAt(s, TARGET), s.clock)
    ensures s'.log == s.log + [Returned(ASK, PcOf(s, t).call, s.step + 3, Verdict(true))]
  {
    s' := Recheck(cfg, R, s, t);
    s' := Hop(cfg, R, s', t, Leaving(ASK, PcOf(s, t).call, s.circuits[TARGET], Verdict(true)));
    s' := Take(cfg, R, s', Move(t));
  }

  /** All that is recorded so far is failures. */
  predicate OnlyFailures(s: System) {
    forall d | d in s.log :: d.req == FAIL && d.ret < s.step
  }

  lemma ReadyToRace(cfg: Config, R: System -> bool) returns (s: System)
    requires StepClosed(cfg, R) && R(START)
    ensures Waiting(cfg, R, s) && OnlyFailures(s) && forall t | t in s.threads :: s.threads[t].Idle?
    ensures CircuitAt(s, TARGET).state == Open && TimedOut(cfg, CircuitAt(s, TARGET), s.clock)
  {
    s := RecordMany(cfg, R, if cfg.failureThreshold > 0 then cfg.failureThreshold else 0);
    s := Take(cfg, R, s, Tick(if cfg.timeout > 0 then cfg.timeout else 0));
  }

  lemma RaceAmong(cfg: Config, R: System -> bool) returns (s: System, a: Returned, b: Returned)
    requires StepClosed(cfg, R) && R(START)
    ensures R(s) && Race(s, a, b)
  {
    var s0 := ReadyToRace(cfg, R);
    var s1 := ToGap(cfg, R, s0, 1);
    var s2 := ToGap(cfg, R, s1, 2);
    var s3 := FromGap(cfg, R, s2, 1);
    s := FromGap(cfg, R, s3, 2);
    a, b := s.log[|s.log| - 2], s.log[|s.log| - 1];
  }

  lemma ReachableClosed(cfg: Config, R: System -> bool)
    requires forall x :: R(x) <==> Reachable(cfg, x)
    ensures StepClosed(cfg, R) && R(START)
  {
    forall x, l | R(x) && Enabled(x, l) ensures R(Apply(cfg, x, l)) { Reach(cfg, x, l); }
    assert Possible(cfg, []) && After(cfg, []) == START;
  }

  lemma RaceHappens(cfg: Config) returns (s: System, a: Returned, b: Returned)
    ensures Reachable(cfg, s) && Race(s, a, b)
  {
    var R := (x: System) => Reachable(cfg, x);
    ReachableClosed(cfg, R);
    s, a, b := RaceAmong(cfg, R);
  }

  /** Every interleaving is linearizable exactly when there is a half-open budget; without one, some interleaving
      is not explained by any order of its calls, not even one that makes up the clocks they read. */
  lemma LinearizableExactlyWithBudget(cfg: Config)
    ensures (forall ls | Possible(cfg, ls) :: exists lin :: Linearizes(cfg, ls, lin)) <==> cfg.maxRequests >= 1
    ensures cfg.maxRequests <= 0 ==> exists ls :: Possible(cfg, ls) && forall lin :: !Explains(cfg, After(cfg, ls), lin)
  {
    if cfg.maxRequests >= 1 {
      forall ls | Possible(cfg, ls) ensures exists lin :: Linearizes(cfg, ls, lin) { Linearizable(cfg, ls); }
    } else {
      var s, a, b := RaceHappens(cfg);
      var ls :| Possible(cfg, ls) && After(cfg, ls) == s;
      forall lin ensures !Explains(cfg, s, lin) { RaceUnexplained(cfg, s, lin, a, b); }
      assert forall lin :: Linearizes(cfg, ls, lin) ==> Explains(cfg, After(cfg, ls), lin);
    }
  }

  // ----- The delayed recheck that comes too late -----

  /** Thread `t` is to be told yes by an Allow whose recheck, about to be made, no longer finds it admitted. */
  predicate TooLate(cfg: Config, s: System, t: nat) {
    && Enabled(s, Move(t)) && Late(s, Move(t)) && Places(cfg, s, t) == []
    && !Admits(cfg, CircuitAt(s, PcOf(s, t).req.target), s.clock)
  }

  /** A failure of the target, recorded by thread 0 while others are in the gap. */
  lemma FailMeanwhile(cfg: Config, R: System -> bool, s: System) returns (s': System)
    requires Waiting(cfg, R, s) && PcOf(s, 0).Idle?
    ensures Waiting(cfg, R, s') && s'.threads == s.threads[0 := Idle]
    ensures s'.circuits == s.circuits && s'.clock == s.clock
    ensures CircuitAt(s', TARGET) == Step(cfg, CircuitAt(s, TARGET), Failure(s.clock))
  {
    var id := s.circuits[TARGET];
    s' := Take(cfg, R, s, Call(0, FAIL));
    s' := Hop(cfg, R, s', 0, Ready(FAIL, s.step, id));
    s' := Hop(cfg, R, s', 0, Writing(FAIL, s.step, id));
    s' := Take(cfg, R, s', Move(0));
    s' := Take(cfg, R, s', Move(0));
  }

  lemma TooLateAmong(cfg: Config, R: System -> bool) returns (s: System)
    requires StepClosed(cfg, R) && R(START) && (cfg.timeout >= 1 || cfg.maxRequests <= 0)
    ensures R(s) && TooLate(cfg, s, 1)
  {
    var s0 := ReadyToRace(cfg, R);
    var s1 := ToGap(cfg, R, s0, 1);
    if cfg.timeout >= 1 {
      s := FailMeanwhile(cfg, R, s1);
    } else {
      s := ToGap(cfg, R, s1, 2);
      s := FromGap(cfg, R, s, 2);
    }
    s := Hop(cfg, R, s, 1, Rechecking(ASK, PcOf(s, 1).call, s.circuits[TARGET]));
  }

  lemma {:induction false} StampBelow(cfg: Config, ops: seq<Op>, last: int)
    requires InOrder(ops, last)
    ensures Run(cfg, FRESH, ops).lastFailure.At? ==> Run(cfg, FRESH, ops).lastFailure.ns <= last
  {
    if ops != [] { StampBelow(cfg, ops[..|ops| - 1], last); }
  }

  /** Without a timeout to wait for, and with a budget, a recheck is never late. */
  lemma NeverTooLate(cfg: Config, ls: seq<Label>, t: nat)
    requires cfg.timeout <= 0 && cfg.maxRequests >= 1 && Possible(cfg, ls)
    ensures !TooLate(cfg, After(cfg, ls), t)
  {
    var s := After(cfg, ls);
    if TooLate(cfg, s, t) {
      var target := PcOf(s, t).req.target;
      ConcurrentCircuit(cfg, ls, target);
      PerformedInOrder(cfg, ls, target);
      StampBelow(cfg, Performed(cfg, ls, target), s.clock);
      CircuitTrace.HalfOpenRequestsStayZero(cfg, Performed(cfg, ls, target));
    }
  }

  /** An Allow that is to be answered true and is admitted no more happens exactly in the configurations that
      have a timeout, where a failure can restart it, or no budget, where another Allow can use up the opening. */
  lemma RechecksComeTooLate(cfg: Config)
    ensures (exists s, t: nat :: Reachable(cfg, s) && TooLate(cfg, s, t)) <==> cfg.timeout >= 1 || cfg.maxRequests <= 0
  {
    if cfg.timeout >= 1 || cfg.maxRequests <= 0 {
      var R := (x: System) => Reachable(cfg, x);
      ReachableClosed(cfg, R);
      var s := TooLateAmong(cfg, R);
    } else {
      forall s, t: nat | Reachable(cfg, s) ensures !TooLate(cfg, s, t) {
        var ls :| Possible(cfg, ls) && After(cfg, ls) == s;
        NeverTooLate(cfg, ls, t);
      }
    }
  }
}
